/**
What a request URI means: its decoded path and its list of decoded query pairs. A URI is the text of a C string, so
it holds no zero byte; the character a C program reads just past the text is the terminator.
*/
module Uris {
  import opened Bytes

  const SPACE: byte := 32
  const PERCENT: byte := 37
  const AMPERSAND: byte := 38
  const PLUS: byte := 43
  const EQUALS: byte := 61
  const QUESTION: byte := 63

  /** The character at s + p. */
  function At(s: bytes, p: nat): byte
    requires p <= |s|
  {
    if p < |s| then s[p] else 0
  }

  function HexToInt(c: byte): (v: nat)
    ensures v < 16
  {
    if 48 <= c <= 57 then c - 48
    else if 97 <= c <= 102 then 10 + c - 97
    else if 65 <= c <= 70 then 10 + c - 65
    else 0
  }

  // ---------- decoding ----------

  datatype Part = PathPart | KeyPart | ValuePart

  predicate Stops(part: Part, c: byte) {
    match part
    case PathPart => c == QUESTION
    case KeyPart => c == EQUALS || c == AMPERSAND
    case ValuePart => c == AMPERSAND
  }

  /** A percent sign takes the next two characters, whatever they are, unless the text ends first. */
  predicate IsEscape(s: bytes, p: nat)
    requires p < |s|
  {
    s[p] == PERCENT && p + 2 < |s|
  }

  function After(s: bytes, p: nat): (q: nat)
    requires p < |s|
    ensures p < q <= |s|
  {
    if IsEscape(s, p) then p + 3 else p + 1
  }

  function DecodeOne(s: bytes, p: nat): byte
    requires p < |s|
  {
    if IsEscape(s, p) then 16 * HexToInt(s[p + 1]) + HexToInt(s[p + 2])
    else if s[p] == PLUS then SPACE
    else s[p]
  }

  predicate PartEnds(s: bytes, p: nat, part: Part)
    requires p <= |s|
  {
    p == |s| || Stops(part, s[p])
  }

  /** Where the part that begins at p ends. */
  function EndOf(s: bytes, p: nat, part: Part): (q: nat)
    requires p <= |s|
    ensures p <= q <= |s| && PartEnds(s, q, part)
    decreases |s| - p
  {
    if PartEnds(s, p, part) then p else EndOf(s, After(s, p), part)
  }

  /** The bytes that the part that begins at p stands for. */
  function Decoded(s: bytes, p: nat, part: Part): (d: bytes)
    requires p <= |s|
    ensures |d| <= EndOf(s, p, part) - p
    decreases |s| - p
  {
    if PartEnds(s, p, part) then [] else [DecodeOne(s, p)] + Decoded(s, After(s, p), part)
  }

  datatype Pair = Pair(key: bytes, value: bytes)

  /** A key that ends in '=' has a value; one that ends in '&' or with the text has the empty value. */
  function PairAt(s: bytes, p: nat): Pair
    requires p <= |s|
  {
    var q := EndOf(s, p, KeyPart);
    Pair(Decoded(s, p, KeyPart), if q < |s| && s[q] == EQUALS then Decoded(s, q + 1, ValuePart) else [])
  }

  function SkipAmpersand(s: bytes, q: nat): nat
    requires q <= |s|
  {
    if q < |s| && s[q] == AMPERSAND then q + 1 else q
  }

  /** Where the pair after the one at p begins. */
  function NextPair(s: bytes, p: nat): (q: nat)
    requires p < |s|
    ensures p < q <= |s|
  {
    var q := EndOf(s, p, KeyPart);
    SkipAmpersand(s, if q < |s| && s[q] == EQUALS then EndOf(s, q + 1, ValuePart) else q)
  }

  function Pairs(s: bytes, p: nat): seq<Pair>
    requires p <= |s|
    decreases |s| - p
  {
    if p == |s| then [] else [PairAt(s, p)] + Pairs(s, NextPair(s, p))
  }

  function PathOf(s: bytes): bytes {
    Decoded(s, 0, PathPart)
  }

  function QueryOf(s: bytes): seq<Pair> {
    var q := EndOf(s, 0, PathPart);
    if q == |s| then [] else Pairs(s, q + 1)
  }

  // ---------- encoding (sections 2.1 and 2.3 of RFC 3986) ----------

  /** Letters, digits, '-', '.', '_' and '~'. */
  predicate Unreserved(c: byte) {
    || 48 <= c <= 57 || 65 <= c <= 90 || 97 <= c <= 122
    || c == 45 || c == 46 || c == 95 || c == 126
  }

  function HexDigit(v: nat): byte
    requires v < 16
  {
    if v < 10 then 48 + v else 65 + v - 10
  }

  function EncodeOne(c: byte): bytes {
    if Unreserved(c) then [c] else [PERCENT, HexDigit(c / 16), HexDigit(c % 16)]
  }

  function Encode(b: bytes): bytes {
    if b == [] then [] else EncodeOne(b[0]) + Encode(b[1..])
  }

  function EncodePair(pair: Pair): bytes {
    Encode(pair.key) + [EQUALS] + Encode(pair.value)
  }

  function EncodeQuery(pairs: seq<Pair>): bytes {
    if pairs == [] then []
    else if |pairs| == 1 then EncodePair(pairs[0])
    else EncodePair(pairs[0]) + [AMPERSAND] + EncodeQuery(pairs[1..])
  }

  function EncodeUri(path: bytes, pairs: seq<Pair>): bytes {
    Encode(path) + [QUESTION] + EncodeQuery(pairs)
  }

  // ---------- any spelling ----------

  /** "0123456789ABCDEF" and "0123456789abcdef" */
  const UPPER_DIGITS: bytes := [48, 49, 50, 51, 52, 53, 54, 55, 56, 57, 65, 66, 67, 68, 69, 70]
  const LOWER_DIGITS: bytes := [48, 49, 50, 51, 52, 53, 54, 55, 56, 57, 97, 98, 99, 100, 101, 102]

  predicate IsDigitOf(h: byte, v: nat)
    requires v < 16
  {
    h == UPPER_DIGITS[v] || h == LOWER_DIGITS[v]
  }

  /** The ways to write one byte of a part: escaped, with digits in either case, as '+', or as itself. */
  ghost predicate Spells(t: bytes, c: byte, part: Part) {
    || (|t| == 3 && t[0] == PERCENT && IsDigitOf(t[1], c / 16) && IsDigitOf(t[2], c % 16))
    || (t == [PLUS] && c == SPACE)
    || (t == [c] && c != PERCENT && c != PLUS && !Stops(part, c))
  }

  /** A character that is no hexadecimal digit counts as 0. */
  lemma DigitMeans(h: byte, v: nat)
    requires v < 16
    ensures IsDigitOf(h, v) ==> HexToInt(h) == v
    ensures HexToInt(h) == v > 0 ==> IsDigitOf(h, v)
  {
  }

  /** A percent sign with fewer than two characters behind it stands for itself. */
  lemma LonePercent(pre: bytes, post: bytes)
    requires |post| < 2
    ensures var s := pre + [PERCENT] + post; DecodeOne(s, |pre|) == PERCENT && After(s, |pre|) == |pre| + 1
  {
  }

  /** A byte spelled in front of anything is one token, stops no part, and decodes to that byte. */
  lemma SpellingDecodes(pre: bytes, t: bytes, c: byte, post: bytes, part: Part)
    requires Spells(t, c, part)
    ensures var s := pre + t + post; var p := |pre|;
            && p < |s| && !PartEnds(s, p, part)
            && After(s, p) == p + |t|
            && DecodeOne(s, p) == c
  {
    var s, p := pre + t + post, |pre|;
    assert s[p] == t[0];
    if |t| == 3 {
      assert s[p + 1] == t[1] && s[p + 2] == t[2];
      DigitMeans(t[1], c / 16);
      DigitMeans(t[2], c % 16);
    }
  }

  function Joined(tokens: seq<bytes>): bytes {
    if tokens == [] then [] else tokens[0] + Joined(tokens[1..])
  }

  ghost predicate AllSpell(tokens: seq<bytes>, b: bytes, part: Part) {
    |tokens| == |b| && forall i :: 0 <= i < |b| ==> Spells(tokens[i], b[i], part)
  }

  lemma PartOver(pre: bytes, post: bytes, part: Part)
    requires post == [] || Stops(part, post[0])
    ensures Decoded(pre + post, |pre|, part) == [] && EndOf(pre + post, |pre|, part) == |pre|
  {
    assert post != [] ==> (pre + post)[|pre|] == post[0];
  }

  lemma PartGoesOn(s: bytes, p: nat, part: Part)
    requires p < |s| && !PartEnds(s, p, part)
    ensures Decoded(s, p, part) == [DecodeOne(s, p)] + Decoded(s, After(s, p), part)
    ensures EndOf(s, p, part) == EndOf(s, After(s, p), part)
  {
  }

  /** However the bytes of a part are spelled, they are decoded, and the part ends behind them. */
  lemma {:induction false} SpelledDecodes(pre: bytes, tokens: seq<bytes>, b: bytes, post: bytes, part: Part)
    requires AllSpell(tokens, b, part) && (post == [] || Stops(part, post[0]))
    ensures var s := pre + Joined(tokens) + post;
            && Decoded(s, |pre|, part) == b
            && EndOf(s, |pre|, part) == |pre| + |Joined(tokens)|
    decreases |b|
  {
    hide DecodeOne, After, Stops, IsEscape, Spells, Decoded, EndOf, PartEnds;
    var s, p := pre + Joined(tokens) + post, |pre|;
    if b == [] {
      assert s == pre + post;
      PartOver(pre, post, part);
    } else {
      var one, rest := tokens[0], Joined(tokens[1..]);
      Regroup(pre, one, rest, post);
      SpellingDecodes(pre, one, b[0], rest + post, part);
      PartGoesOn(s, p, part);
      SpelledDecodes(pre + one, tokens[1..], b[1..], post, part);
    }
  }

  // ---------- what encoding gives ----------

  lemma HexDigitIsDigit(v: nat)
    requires v < 16
    ensures IsDigitOf(HexDigit(v), v)
  {
  }

  lemma EncodeOneSpells(c: byte, part: Part)
    ensures Spells(EncodeOne(c), c, part)
  {
    HexDigitIsDigit(c / 16);
    HexDigitIsDigit(c % 16);
  }

  /** Encode, byte by byte. */
  lemma {:induction false} EncodeSpells(b: bytes, part: Part) returns (tokens: seq<bytes>)
    ensures AllSpell(tokens, b, part) && Joined(tokens) == Encode(b)
    decreases |b|
  {
    hide EncodeOne, Spells;
    if b == [] {
      tokens := [];
    } else {
      var rest := EncodeSpells(b[1..], part);
      EncodeOneSpells(b[0], part);
      tokens := [EncodeOne(b[0])] + rest;
      assert tokens[1..] == rest;
    }
  }

  lemma Regroup(a: bytes, b: bytes, c: bytes, d: bytes)
    ensures a + (b + c) + d == a + b + (c + d)
    ensures a + (b + c) + d == (a + b) + c + d
  {
  }

  lemma EncodeDecodes(pre: bytes, b: bytes, post: bytes, part: Part)
    requires post == [] || Stops(part, post[0])
    ensures var s := pre + Encode(b) + post;
            && Decoded(s, |pre|, part) == b
            && EndOf(s, |pre|, part) == |pre| + |Encode(b)|
  {
    hide Stops, AllSpell, Joined, Encode;
    var tokens := EncodeSpells(b, part);
    SpelledDecodes(pre, tokens, b, post, part);
  }

  lemma {:induction false} EncodeIsNulFree(b: bytes)
    ensures NulFree(Encode(b))
  {
    if b != [] {
      EncodeIsNulFree(b[1..]);
    }
  }

  lemma {:induction false} EncodeQueryIsNulFree(pairs: seq<Pair>)
    ensures NulFree(EncodeQuery(pairs))
  {
    hide Encode;
    if pairs != [] {
      EncodeIsNulFree(pairs[0].key);
      EncodeIsNulFree(pairs[0].value);
      EncodeQueryIsNulFree(pairs[1..]);
    }
  }

  /** An encoded pair, alone or before '&', is read as that pair. */
  lemma EncodePairDecodes(pre: bytes, pair: Pair, post: bytes)
    requires post == [] || post[0] == AMPERSAND
    ensures var s := pre + EncodePair(pair) + post;
            && PairAt(s, |pre|) == pair
            && |pre| < |s| && NextPair(s, |pre|) == |pre| + |EncodePair(pair)| + if post == [] then 0 else 1
  {
    hide Decoded, EndOf, Encode;
    var k, v := Encode(pair.key), Encode(pair.value);
    var s := pre + EncodePair(pair) + post;
    assert s == pre + k + ([EQUALS] + v + post);
    EncodeDecodes(pre, pair.key, [EQUALS] + v + post, KeyPart);
    var pre2 := pre + k + [EQUALS];
    assert s == pre2 + v + post;
    EncodeDecodes(pre2, pair.value, post, ValuePart);
    assert s[|pre| + |k|] == EQUALS;
    if post != [] {
      assert s[|pre2| + |v|] == AMPERSAND;
    }
  }

  lemma {:induction false} EncodeQueryDecodes(pre: bytes, pairs: seq<Pair>)
    ensures var s := pre + EncodeQuery(pairs); Pairs(s, |pre|) == pairs
    decreases |pairs|
  {
    hide EncodePair, PairAt, NextPair;
    var s := pre + EncodeQuery(pairs);
    if |pairs| == 1 {
      EncodePairDecodes(pre, pairs[0], []);
      assert s == pre + EncodePair(pairs[0]) + [];
      assert Pairs(s, |s|) == [];
    } else if pairs != [] {
      var one, rest := EncodePair(pairs[0]), EncodeQuery(pairs[1..]);
      assert s == pre + one + ([AMPERSAND] + rest);
      EncodePairDecodes(pre, pairs[0], [AMPERSAND] + rest);
      EncodeQueryDecodes(pre + one + [AMPERSAND], pairs[1..]);
      assert s == pre + one + [AMPERSAND] + rest;
    }
  }

  /** Percent-encoding a path and a list of pairs loses nothing, empty and zero-byte keys and values included. */
  lemma PercentRoundTrip(path: bytes, pairs: seq<Pair>)
    ensures var uri := EncodeUri(path, pairs);
            NulFree(uri) && PathOf(uri) == path && QueryOf(uri) == pairs
  {
    hide Encode, EncodeQuery, Pairs, Decoded, EndOf;
    var uri, query := EncodeUri(path, pairs), EncodeQuery(pairs);
    EncodeIsNulFree(path);
    EncodeQueryIsNulFree(pairs);
    assert uri == [] + Encode(path) + ([QUESTION] + query);
    EncodeDecodes([], path, [QUESTION] + query, PathPart);
    EncodeQueryDecodes(Encode(path) + [QUESTION], pairs);
    assert uri == Encode(path) + [QUESTION] + query;
  }
}
