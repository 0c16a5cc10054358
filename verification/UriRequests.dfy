/**
Parsing a request's URI into its packed list, and reading the list back. Every C pointer into the URI is an index;
reading a character goes through At, which allows the terminator and nothing beyond it.
*/
module UriRequests {
  import opened Bytes
  import opened Uris
  import opened PackedUris

  // ---------- UrlPathParser ----------

  method MeasurePath(uri: bytes) returns (rawLen: nat, decodedLen: nat)
    requires NulFree(uri)
    ensures rawLen == EndOf(uri, 0, PathPart) && decodedLen == |PathOf(uri)|
  {
    hide DecodeOne;
    var i, n := 0, 0;
    while At(uri, i) != 0 && At(uri, i) != QUESTION
      invariant i <= |uri|
      invariant EndOf(uri, i, PathPart) == EndOf(uri, 0, PathPart)
      invariant n + |Decoded(uri, i, PathPart)| == |Decoded(uri, 0, PathPart)|
      decreases |uri| - i
    {
      if At(uri, i) == PERCENT && At(uri, i + 1) != 0 && At(uri, i + 2) != 0 {
        i := i + 2;
      }
      n := n + 1;
      i := i + 1;
    }
    rawLen, decodedLen := i, n;
  }

  /** The step that both decoding loops take on one character or escape. */
  method DecodeToken(uri: bytes, i: nat) returns (c: byte, last: nat)
    requires NulFree(uri) && i < |uri|
    ensures c == DecodeOne(uri, i) && last + 1 == After(uri, i)
  {
    if At(uri, i) == PERCENT && At(uri, i + 1) != 0 && At(uri, i + 2) != 0 {
      c := 16 * HexToInt(At(uri, i + 1)) + HexToInt(At(uri, i + 2));
      last := i + 2;
    } else {
      c := if At(uri, i) == PLUS then SPACE else At(uri, i);
      last := i;
    }
  }

  method DecodePath(uri: bytes, decoded: array<byte>, at: nat, addNullTerminator: bool)
    requires NulFree(uri)
    requires at + |PathOf(uri)| + 1 <= decoded.Length
    modifies decoded
    ensures decoded[..] == Put(old(decoded[..]), at, PathOf(uri) + if addNullTerminator then [0] else [])
  {
    hide Put, Decoded, DecodeOne, After;
    ghost var was := decoded[..];
    ghost var done: bytes := [];
    PutNothing(was, at);
    var i, j := 0, 0;
    while At(uri, i) != 0 && At(uri, i) != QUESTION
      invariant i <= |uri| && j == |done|
      invariant done + Decoded(uri, i, PathPart) == PathOf(uri)
      invariant decoded[..] == Put(was, at, done)
      decreases |uri| - i
    {
      ghost var start := i;
      var c;
      c, i := DecodeToken(uri, i);
      i := i + 1;
      decoded[at + j] := c;
      j := j + 1;
      PutOne(was, at, done, c);
      DecodedStep(uri, start, PathPart, done);
      done := done + [c];
    }
    assert done + [] == done;
    PartEnd(uri, i, PathPart);
    if addNullTerminator {
      decoded[at + j] := 0;
      PutOne(was, at, done, 0);
    }
  }

  lemma DecodedStep(s: bytes, p: nat, part: Part, done: bytes)
    requires p <= |s| && !PartEnds(s, p, part)
    ensures done + Decoded(s, p, part) == done + [DecodeOne(s, p)] + Decoded(s, After(s, p), part)
    ensures Decoded(s, p, part) != []
  {
    hide DecodeOne, After;
  }

  // ---------- UrlQueryParser ----------

  lemma PartStep(s: bytes, p: nat, part: Part)
    requires p <= |s| && !PartEnds(s, p, part)
    ensures EndOf(s, p, part) == EndOf(s, After(s, p), part)
    ensures |Decoded(s, p, part)| == 1 + |Decoded(s, After(s, p), part)|
  {
  }

  lemma PartEnd(s: bytes, p: nat, part: Part)
    requires p <= |s| && PartEnds(s, p, part)
    ensures EndOf(s, p, part) == p && Decoded(s, p, part) == []
  {
  }

  function PartOf(isVal: bool): Part {
    if isVal then ValuePart else KeyPart
  }

  /** The character at which the decoding loop stops. */
  ghost predicate PieceOver(uri: bytes, p: nat, isVal: bool)
    requires p <= |uri|
  {
    At(uri, p) == 0 || At(uri, p) == AMPERSAND || (!isVal && At(uri, p) == EQUALS)
  }

  lemma PieceGoesOn(uri: bytes, p: nat, isVal: bool)
    requires NulFree(uri) && p <= |uri|
    ensures PartEnds(uri, p, PartOf(isVal)) <==> PieceOver(uri, p, isVal)
    ensures p == |uri| ==> PieceOver(uri, p, isVal)
  {
  }

  method UrlDecodePiece(isVal: bool, uri: bytes, buf: nat, decoded: array<byte>, at: nat, addNullTerminator: bool)
    requires NulFree(uri) && buf <= |uri|
    requires at + |Decoded(uri, buf, PartOf(isVal))| + 1 <= decoded.Length
    modifies decoded
    ensures decoded[..]
         == Put(old(decoded[..]), at, Decoded(uri, buf, PartOf(isVal)) + if addNullTerminator then [0] else [])
  {
    hide Put, Decoded, DecodeOne, After, EndOf, PartEnds, PartOf, NulFree;
    ghost var was := decoded[..];
    ghost var done: bytes := [];
    PutNothing(was, at);
    var p, j := 0, 0;
    PieceGoesOn(uri, buf, isVal);
    while At(uri, buf + p) != 0 && At(uri, buf + p) != AMPERSAND && (isVal || At(uri, buf + p) != EQUALS)
      invariant buf + p <= |uri| && j == |done|
      invariant PartEnds(uri, buf + p, PartOf(isVal)) <==> PieceOver(uri, buf + p, isVal)
      invariant done + Decoded(uri, buf + p, PartOf(isVal)) == Decoded(uri, buf, PartOf(isVal))
      invariant decoded[..] == Put(was, at, done)
      decreases |uri| - p
    {
      ghost var start := buf + p;
      var c, last := DecodeToken(uri, buf + p);
      p := last - buf + 1;
      decoded[at + j] := c;
      j := j + 1;
      PutOne(was, at, done, c);
      DecodedStep(uri, start, PartOf(isVal), done);
      PieceGoesOn(uri, buf + p, isVal);
      done := done + [c];
    }
    assert done + [] == done;
    PartEnd(uri, buf + p, PartOf(isVal));
    if addNullTerminator {
      decoded[at + j] := 0;
      PutOne(was, at, done, 0);
    }
  }

  /** The value of the pair at p begins after the '='; a key without '=' has no value, written -1. */
  ghost function ValueStart(uri: bytes, p: nat): (v: int)
    requires p <= |uri|
    ensures v == -1 || p < v <= |uri|
  {
    var q := EndOf(uri, p, KeyPart);
    if q < |uri| && uri[q] == EQUALS then q + 1 else -1
  }

  class UrlQueryParser {
    const uri: bytes
    const src: nat
    var p: nat

    constructor (uri: bytes, src: nat)
      ensures this.uri == uri && this.src == src && p == 0
    {
      this.uri, this.src, p := uri, src, 0;
    }

    ghost predicate Valid()
      reads this
    {
      NulFree(uri) && src + p <= |uri|
    }

    /** Moves to the last character of the token at p. */
    method SkipEscape()
      requires Valid() && src + p < |uri|
      modifies this`p
      ensures src + p + 1 == After(uri, src + old(p))
    {
      if At(uri, src + p) == PERCENT && At(uri, src + p + 1) != 0 && At(uri, src + p + 2) != 0 {
        p := p + 2;
      }
    }

    method ScanKey() returns (ndecoded: nat)
      requires Valid()
      modifies this`p
      ensures Valid()
      ensures src + p == EndOf(uri, src + old(p), KeyPart) && ndecoded == |Decoded(uri, src + old(p), KeyPart)|
    {
      hide EndOf, Decoded, After;
      ndecoded := 0;
      while At(uri, src + p) != 0 && At(uri, src + p) != EQUALS && At(uri, src + p) != AMPERSAND
        invariant src + p <= |uri|
        invariant EndOf(uri, src + p, KeyPart) == EndOf(uri, src + old(p), KeyPart)
        invariant ndecoded + |Decoded(uri, src + p, KeyPart)| == |Decoded(uri, src + old(p), KeyPart)|
        decreases |uri| - p
      {
        PartStep(uri, src + p, KeyPart);
        SkipEscape();
        ndecoded := ndecoded + 1;
        p := p + 1;
      }
      PartEnd(uri, src + p, KeyPart);
    }

    method ScanVal() returns (ndecoded: nat)
      requires Valid()
      modifies this`p
      ensures Valid()
      ensures src + p == EndOf(uri, src + old(p), ValuePart) && ndecoded == |Decoded(uri, src + old(p), ValuePart)|
    {
      hide EndOf, Decoded, After;
      ndecoded := 0;
      while At(uri, src + p) != 0 && At(uri, src + p) != AMPERSAND
        invariant src + p <= |uri|
        invariant EndOf(uri, src + p, ValuePart) == EndOf(uri, src + old(p), ValuePart)
        invariant ndecoded + |Decoded(uri, src + p, ValuePart)| == |Decoded(uri, src + old(p), ValuePart)|
        decreases |uri| - p
      {
        PartStep(uri, src + p, ValuePart);
        SkipEscape();
        ndecoded := ndecoded + 1;
        p := p + 1;
      }
      PartEnd(uri, src + p, ValuePart);
    }

    /** Steps over one pair, strictly forward and never past the terminator. */
    method Next() returns (more: bool, key: nat, keyDecodedLen: nat, val: int, valDecodedLen: nat)
      requires Valid()
      modifies this`p
      ensures Valid()
      ensures more == (src + old(p) < |uri|)
      ensures more ==> src + p == NextPair(uri, src + old(p)) && key == old(p)
      ensures more ==> keyDecodedLen == |PairAt(uri, src + old(p)).key|
      ensures more ==> valDecodedLen == |PairAt(uri, src + old(p)).value|
      ensures more ==> val == if ValueStart(uri, src + key) < 0 then -1 else ValueStart(uri, src + key) - src
      ensures !more ==> p == old(p)
    {
      hide EndOf, Decoded;
      key, keyDecodedLen, val, valDecodedLen := 0, 0, 0, 0;
      if At(uri, src + p) == 0 {
        return false, key, keyDecodedLen, val, valDecodedLen;
      }
      key := p;
      keyDecodedLen := ScanKey();
      if At(uri, src + p) == 0 || At(uri, src + p) == AMPERSAND {
        if At(uri, src + p) == AMPERSAND {
          p := p + 1;
        }
        return true, key, keyDecodedLen, -1, 0;
      }
      p := p + 1;
      val := p;
      valDecodedLen := ScanVal();
      if At(uri, src + p) == AMPERSAND {
        p := p + 1;
      }
      more := true;
    }
  }

  // ---------- writing the packed list ----------

  method Store16(a: array<byte>, at: nat, v: nat)
    requires at + 2 <= a.Length && v < U16_LIMIT
    modifies a
    ensures a[..] == Put(old(a[..]), at, [v % 256, v / 256])
  {
    a[at], a[at + 1] := v % 256, v / 256;
  }

  /** The two writes of one item leave that item in its slot, and what is before it alone. */
  lemma ItemWritten(s: bytes, at: nat, b: bytes)
    requires |b| <= MAX_LENGTH && at + SizeOf(|b|) <= |s|
    ensures var r := Put(Put(s, at, [|b| % 256, |b| / 256]), at + 2, b + [0]);
            && r[..at] == s[..at]
            && IsItem(r[at..at + SizeOf(|b|)], b)
  {
    hide SizeOf, Put;
    var head, n := [|b| % 256, |b| / 256], SizeOf(|b|);
    var s1 := Put(s, at, head);
    var r := Put(s1, at + 2, b + [0]);
    var t := r[at..at + n];
    assert t[0] == r[at] == s1[at] && t[1] == r[at + 1] == s1[at + 1];
    FirstTwo(s1, at, head);
    SliceOfSlice(r, at, at + n, 2, 2 + |b| + 1);
    Terminated(t, b);
    assert r[..at] == s[..at];
  }

  lemma FirstTwo(s: bytes, at: nat, head: bytes)
    requires |head| == 2 && at + 2 <= |s| && s[at..at + 2] == head
    ensures s[at] == head[0] && s[at + 1] == head[1]
  {
    assert s[at] == s[at..at + 2][0] && s[at + 1] == s[at..at + 2][1];
  }

  /** Behind the length lie the bytes and their terminator. */
  lemma Terminated(t: bytes, b: bytes)
    requires 2 + |b| + 1 <= |t| && t[2..2 + |b| + 1] == b + [0]
    ensures t[2..2 + |b|] == b && t[2 + |b|] == 0
  {
    SliceOfSlice(t, 2, 2 + |b| + 1, 0, |b|);
    assert (b + [0])[0..|b|] == b;
    assert t[2 + |b|] == (b + [0])[|b|];
  }

  /** A prefix that is laid out, followed by one more item, is laid out. */
  lemma ItemLaid(r: bytes, at: nat, items: seq<bytes>, b: bytes)
    requires at + SizeOf(|b|) <= |r|
    requires Laid(r[..at], items) && IsItem(r[at..at + SizeOf(|b|)], b)
    ensures Laid(r[..at + SizeOf(|b|)], items + [b])
  {
    hide Laid, IsItem, SizeOf;
    LaidAppend(r[..at], items, r[at..at + SizeOf(|b|)], b);
    assert r[..at + SizeOf(|b|)] == r[..at] + r[at..at + SizeOf(|b|)];
  }

  method WritePath(uri: bytes, pathDecodedLen: nat, buf: array<byte>) returns (out: nat)
    requires NulFree(uri) && pathDecodedLen == |PathOf(uri)| <= MAX_LENGTH
    requires SizeOf(pathDecodedLen) <= buf.Length
    modifies buf
    ensures out == SizeOf(pathDecodedLen) && Laid(buf[..out], [PathOf(uri)])
  {
    hide Put, Decoded, IsItem, Laid;
    ghost var was := buf[..];
    Store16(buf, 0, pathDecodedLen);
    out := 2;
    DecodePath(uri, buf, out, true);
    out := out + RoundUpOdd(pathDecodedLen) + 1;
    ItemWritten(was, 0, PathOf(uri));
    LaidOne(buf[..out], PathOf(uri));
  }

  method WriteKey(uri: bytes, key: nat, keyLen: nat, buf: array<byte>, at: nat, ghost items: seq<bytes>)
    returns (out: nat)
    requires NulFree(uri) && key <= |uri| && keyLen == |Decoded(uri, key, KeyPart)| <= MAX_LENGTH
    requires at + SizeOf(keyLen) <= buf.Length && Laid(buf[..at], items)
    modifies buf
    ensures out == at + SizeOf(keyLen) && Laid(buf[..out], items + [Decoded(uri, key, KeyPart)])
  {
    hide Put, Decoded, IsItem, Laid;
    ghost var was := buf[..];
    Store16(buf, at, keyLen);
    out := at + 2;
    UrlDecodePiece(false, uri, key, buf, out, true);
    out := out + RoundUpOdd(keyLen) + 1;
    ItemWritten(was, at, Decoded(uri, key, KeyPart));
    assert buf[..at] == buf[..][..at] && was[..at] == old(buf[..at]);
    ItemLaid(buf[..], at, items, Decoded(uri, key, KeyPart));
  }

  /** An absent value and an empty one are written alike. */
  method WriteValText(uri: bytes, val: int, valLen: nat, buf: array<byte>, at: nat, ghost value: bytes)
    requires NulFree(uri) && -1 <= val <= |uri|
    requires value == if val < 0 then [] else Decoded(uri, val, ValuePart)
    requires valLen == |value| && at + valLen + 1 <= buf.Length
    modifies buf
    ensures buf[..] == Put(old(buf[..]), at, value + [0])
  {
    hide Put, Decoded;
    if valLen == 0 {
      PutNothing(buf[..], at);
      PutOne(buf[..], at, [], 0);
      assert [] + [0 as byte] == value + [0];
      buf[at] := 0;
    } else {
      UrlDecodePiece(true, uri, val, buf, at, true);
    }
  }

  method WriteVal(uri: bytes, val: int, valLen: nat, buf: array<byte>, at: nat,
                  ghost items: seq<bytes>, ghost value: bytes)
    returns (out: nat)
    requires NulFree(uri) && -1 <= val <= |uri|
    requires value == if val < 0 then [] else Decoded(uri, val, ValuePart)
    requires valLen == |value| <= MAX_LENGTH
    requires at + SizeOf(valLen) <= buf.Length && Laid(buf[..at], items)
    modifies buf
    ensures out == at + SizeOf(valLen) && Laid(buf[..out], items + [value])
  {
    hide Put, Decoded, IsItem, Laid;
    ghost var was := buf[..];
    Store16(buf, at, valLen);
    out := at + 2;
    WriteValText(uri, val, valLen, buf, out, value);
    out := out + RoundUpOdd(valLen) + 1;
    ItemWritten(was, at, value);
    assert buf[..at] == buf[..][..at] && was[..at] == old(buf[..at]);
    ItemLaid(buf[..], at, items, value);
  }

  lemma FitsPairsStep(pair: Pair, rest: seq<Pair>)
    ensures FitsPairs([pair] + rest) <==> FitsPair(pair) && FitsPairs(rest)
  {
    hide FitsPair;
    var all := [pair] + rest;
    if FitsPairs(all) {
      assert FitsPair(all[0]);
      forall i | 0 <= i < |rest|
        ensures FitsPair(rest[i])
      {
        assert FitsPair(all[i + 1]);
      }
    }
  }

  /** What the parser's two outputs say about the pair it stepped over. */
  lemma PairParts(uri: bytes, p: nat)
    requires p <= |uri|
    ensures PairAt(uri, p).key == Decoded(uri, p, KeyPart)
    ensures var v := ValueStart(uri, p);
            -1 <= v <= |uri| && PairAt(uri, p).value == if v < 0 then [] else Decoded(uri, v, ValuePart)
  {
    hide Decoded, EndOf;
  }

  method WritePair(uri: bytes, key: nat, keyLen: nat, val: int, valLen: nat, buf: array<byte>, at: nat,
                   ghost done: seq<Pair>)
    returns (out: nat)
    requires NulFree(uri) && key <= |uri| && val == ValueStart(uri, key)
    requires FitsPair(PairAt(uri, key)) && keyLen == |PairAt(uri, key).key| && valLen == |PairAt(uri, key).value|
    requires at + SizeOf(keyLen) + SizeOf(valLen) <= buf.Length
    requires Laid(buf[..at], [PathOf(uri)] + PairItems(done))
    modifies buf
    ensures out == at + SizeOf(keyLen) + SizeOf(valLen)
    ensures Laid(buf[..out], [PathOf(uri)] + PairItems(done + [PairAt(uri, key)]))
  {
    hide Decoded, Laid, SizeOf, PairItems, ValueStart, PairAt;
    PairParts(uri, key);
    ghost var pair, items := PairAt(uri, key), [PathOf(uri)] + PairItems(done);
    out := WriteKey(uri, key, keyLen, buf, at, items);
    out := WriteVal(uri, val, valLen, buf, out, items + [pair.key], pair.value);
    PairItemsAppend(done, pair);
    assert items + [pair.key] + [pair.value] == [PathOf(uri)] + (PairItems(done) + [pair.key, pair.value]);
  }

  /** The length at the front of a list of pairs is the marker exactly when no pair is left. */
  lemma QueryHead(s: bytes, p: nat, pairs: seq<Pair>)
    requires p <= |s| && Packed(s[p..], PairItems(pairs))
    ensures p + 2 <= |s| && (Load16(s, p) == END_OF_QUERY_MARKER <==> pairs == [])
  {
    hide SizeOf, Packed, Holds, Load16;
    if pairs == [] {
      PackedEndAt(s, p);
    } else {
      PackedPairAt(s, p, pairs);
    }
  }

  lemma CursorStart(s: bytes, path: bytes, pairs: seq<Pair>)
    requires Packed(s, [path] + PairItems(pairs))
    ensures Cursor(s, path, pairs, 0, 0)
  {
  }

  /** The pairs written and the pairs to come, before and after one more is written. */
  lemma PairsStep(uri: bytes, p: nat, done: seq<Pair>)
    requires p < |uri|
    ensures done + Pairs(uri, p) == done + [PairAt(uri, p)] + Pairs(uri, NextPair(uri, p))
  {
    hide PairAt, NextPair;
    var pair, rest := PairAt(uri, p), Pairs(uri, NextPair(uri, p));
    assert Pairs(uri, p) == [pair] + rest;
    assert done + ([pair] + rest) == done + [pair] + rest;
  }

  lemma NoPairs(uri: bytes)
    ensures Pairs(uri, |uri|) == []
  {
  }

  lemma EmptyQuery()
    ensures QuerySize([]) == 0 && PairItems([]) == [] && FitsPairs([])
  {
  }

  lemma MarkerWritten(s: bytes, out: nat, items: seq<bytes>)
    requires out + 2 == |s| && Laid(s[..out], items)
    ensures Packed(Put(s, out, [END_OF_QUERY_MARKER % 256, END_OF_QUERY_MARKER / 256]), items)
  {
    hide Laid;
    var r := Put(s, out, [END_OF_QUERY_MARKER % 256, END_OF_QUERY_MARKER / 256]);
    assert r[..out] == s[..out];
    assert r[out] == r[out..out + 2][0] && r[out + 1] == r[out..out + 2][1];
  }

  /** The second pass at a place in the query: the pairs done are written, and those to come fit into what is left. */
  ghost predicate Writing(uri: bytes, p: nat, s: bytes, out: nat, done: seq<Pair>) {
    && p <= |uri| && out <= |s|
    && done + Pairs(uri, p) == QueryOf(uri) && FitsPairs(Pairs(uri, p))
    && out + QuerySize(Pairs(uri, p)) + 2 == |s|
    && Laid(s[..out], [PathOf(uri)] + PairItems(done))
  }

  lemma WritingStart(uri: bytes, q: nat, s: bytes, at: nat)
    requires q == EndOf(uri, 0, PathPart) && FitsPairs(QueryOf(uri)) && at + QuerySize(QueryOf(uri)) + 2 == |s|
    requires Laid(s[..at], [PathOf(uri)])
    ensures Writing(uri, if q < |uri| then q + 1 else q, s, at, [])
  {
    hide EndOf, PathOf, Pairs, PairItems, FitsPairs, QuerySize, Laid;
    EmptyQuery();
    NoPairs(uri);
    assert [PathOf(uri)] + [] == [PathOf(uri)];
    assert [] + QueryOf(uri) == QueryOf(uri);
  }

  lemma WritingRoom(uri: bytes, p: nat, s: bytes, at: nat, done: seq<Pair>)
    requires Writing(uri, p, s, at, done) && p < |uri|
    ensures var pair := PairAt(uri, p);
            FitsPair(pair) && at + SizeOf(|pair.key|) + SizeOf(|pair.value|) <= |s|
    ensures Laid(s[..at], [PathOf(uri)] + PairItems(done))
  {
    hide PathOf, QueryOf, PairAt, NextPair, PairItems, FitsPair, FitsPairs, QuerySize, SizeOf, Laid;
    var pair, rest := PairAt(uri, p), Pairs(uri, NextPair(uri, p));
    FitsPairsStep(pair, rest);
    QuerySizeStep(pair, rest);
  }

  lemma WritingStep(uri: bytes, p: nat, s: bytes, at: nat, done: seq<Pair>, r: bytes, out: nat)
    requires Writing(uri, p, s, at, done) && p < |uri| && |r| == |s| && out <= |r|
    requires var pair := PairAt(uri, p); out == at + SizeOf(|pair.key|) + SizeOf(|pair.value|)
    requires Laid(r[..out], [PathOf(uri)] + PairItems(done + [PairAt(uri, p)]))
    ensures Writing(uri, NextPair(uri, p), r, out, done + [PairAt(uri, p)])
  {
    hide PathOf, QueryOf, PairAt, NextPair, PairItems, FitsPair, FitsPairs, QuerySize, SizeOf, Laid;
    var pair, rest := PairAt(uri, p), Pairs(uri, NextPair(uri, p));
    FitsPairsStep(pair, rest);
    QuerySizeStep(pair, rest);
    PairsStep(uri, p, done);
  }

  lemma WritingEnd(uri: bytes, s: bytes, out: nat, done: seq<Pair>)
    requires Writing(uri, |uri|, s, out, done)
    ensures out + 2 == |s| && Laid(s[..out], UriItems(uri))
  {
    hide PathOf, QueryOf, Pairs, PairItems, QuerySize, Laid;
    EmptyQuery();
    NoPairs(uri);
    assert done + [] == done;
  }

  lemma FirstIsIn(pairs: seq<Pair>, key: bytes)
    ensures (exists i: nat :: IsFirst(pairs, key, i)) ==> exists pair <- pairs :: CStr(pair.key) == key
  {
    hide CStr;
  }

  class ParsedUri {
    var cachedURI: array<byte>

    constructor ()
    {
      cachedURI := new byte[0];
    }

    /** The first pass: the size of the list of pairs, or that some part is too long. */
    static method MeasureQuery(uri: bytes, pathRawLen: nat) returns (fits: bool, queryTotalBytes: nat)
      requires NulFree(uri) && pathRawLen == EndOf(uri, 0, PathPart)
      ensures fits == FitsPairs(QueryOf(uri))
      ensures fits ==> queryTotalBytes == QuerySize(QueryOf(uri))
    {
      hide EndOf, Decoded, PairItems, FitsPairs, PairAt, NextPair, Pairs, TotalSize, QuerySize, ValueStart;
      fits, queryTotalBytes := true, 0;
      EmptyQuery();
      NoPairs(uri);
      if At(uri, pathRawLen) != 0 {
        var p := new UrlQueryParser(uri, pathRawLen + 1);
        var more := true;
        while more
          invariant p.Valid() && p.uri == uri && p.src == pathRawLen + 1
          invariant queryTotalBytes + QuerySize(Pairs(uri, p.src + p.p)) == QuerySize(QueryOf(uri))
          invariant FitsPairs(Pairs(uri, p.src + p.p)) == FitsPairs(QueryOf(uri))
          invariant !more ==> p.src + p.p == |uri|
          decreases |uri| - p.p, more
        {
          ghost var start := p.src + p.p;
          var key, keyLen, val, valLen;
          more, key, keyLen, val, valLen := p.Next();
          if more {
            PairsStep(uri, start, []);
            assert [] + Pairs(uri, start) == Pairs(uri, start);
            assert [] + [PairAt(uri, start)] == [PairAt(uri, start)];
            FitsPairsStep(PairAt(uri, start), Pairs(uri, p.src + p.p));
            QuerySizeStep(PairAt(uri, start), Pairs(uri, p.src + p.p));
            if keyLen > MAX_LENGTH || valLen > MAX_LENGTH {
              return false, 0;
            }
            queryTotalBytes := queryTotalBytes + 2 + RoundUpOdd(keyLen) + 1 + 2 + RoundUpOdd(valLen) + 1;
          }
        }
      }
    }

    /** One turn of the second pass. */
    static method WriteNext(p: UrlQueryParser, buf: array<byte>, at: nat, ghost done: seq<Pair>)
      returns (more: bool, out: nat)
      requires p.Valid() && Writing(p.uri, p.src + p.p, buf[..], at, done)
      modifies p`p, buf
      ensures p.Valid() && more == (p.src + old(p.p) < |p.uri|) && p.p >= old(p.p)
      ensures more ==> p.p > old(p.p)
      ensures more ==> Writing(p.uri, p.src + p.p, buf[..], out, done + [PairAt(p.uri, p.src + old(p.p))])
      ensures !more ==> p.p == old(p.p) && Writing(p.uri, p.src + p.p, buf[..], out, done)
    {
      hide EndOf, Decoded, PairAt, NextPair, Pairs, ValueStart;
      hide PairItems, FitsPair, SizeOf, Laid, Writing;
      ghost var start, was := p.src + p.p, buf[..];
      var key, keyLen, val, valLen;
      more, key, keyLen, val, valLen := p.Next();
      out := at;
      if more {
        WritingRoom(p.uri, start, was, at, done);
        out := WritePair(p.uri, p.src + key, keyLen, if val < 0 then -1 else p.src + val, valLen, buf, at, done);
        assert buf[..][..out] == buf[..out];
        WritingStep(p.uri, start, was, at, done, buf[..], out);
      }
    }

    /** The second pass: it ends exactly where the first one said the buffer would. */
    static method WriteQuery(uri: bytes, pathRawLen: nat, buf: array<byte>, at: nat) returns (out: nat)
      requires NulFree(uri) && pathRawLen == EndOf(uri, 0, PathPart)
      requires FitsPairs(QueryOf(uri)) && at + QuerySize(QueryOf(uri)) + 2 == buf.Length
      requires Laid(buf[..at], [PathOf(uri)])
      modifies buf
      ensures out + 2 == buf.Length && Laid(buf[..out], UriItems(uri))
    {
      hide EndOf, PathOf, QueryOf, PairAt, UriItems, FitsPairs, QuerySize, Laid, Writing;
      out := at;
      assert buf[..][..at] == buf[..at];
      WritingStart(uri, pathRawLen, buf[..], at);
      ghost var done: seq<Pair> := [];
      if At(uri, pathRawLen) != 0 {
        var p := new UrlQueryParser(uri, pathRawLen + 1);
        var more := true;
        while more
          invariant p.Valid() && p.uri == uri && p.src == pathRawLen + 1
          invariant Writing(uri, p.src + p.p, buf[..], out, done)
          invariant !more ==> p.src + p.p == |uri|
          decreases |uri| - p.p, more
        {
          ghost var start := p.src + p.p;
          more, out := WriteNext(p, buf, out, done);
          if more {
            done := done + [PairAt(uri, start)];
          }
        }
      }
      WritingEnd(uri, buf[..], out, done);
      assert buf[..][..out] == buf[..out];
    }

    /** Refuses exactly the URIs with a part too long; otherwise keeps the packed list of the URI's parts. */
    method ParseURI(uri: bytes) returns (ok: bool)
      requires NulFree(uri)
      modifies this
      ensures ok == (forall item <- UriItems(uri) :: |item| < 65535) == Fits(uri)
      ensures !ok ==> cachedURI == old(cachedURI)
      ensures ok ==> fresh(cachedURI) && Packed(cachedURI[..], UriItems(uri))
      ensures ok ==> cachedURI.Length <= 8 * |uri| + 6
    {
      hide EndOf, Decoded, Pairs, Put, Laid, FitsPairs, UriItems, QuerySize, SizeOf;
      FitsMeans(uri);
      var pathRawLen, pathDecodedLen := MeasurePath(uri);
      if pathDecodedLen > MAX_LENGTH {
        return false;
      }
      var fits, queryTotalBytes := MeasureQuery(uri, pathRawLen);
      if !fits {
        return false;
      }
      PackedSizeBound(uri);
      var bufLen := SizeOf(pathDecodedLen) + queryTotalBytes + 2;
      var buf := new byte[bufLen];
      cachedURI := buf;
      var out := WritePath(uri, pathDecodedLen, buf);
      out := WriteQuery(uri, pathRawLen, buf, out);
      ghost var was := buf[..];
      Store16(buf, out, END_OF_QUERY_MARKER);
      MarkerWritten(was, out, UriItems(uri));
      out := out + 2;
      assert out == buf.Length;
      ok := true;
    }

    method Path(ghost path: bytes, ghost pairs: seq<Pair>) returns (p: nat)
      requires Packed(cachedURI[..], [path] + PairItems(pairs))
      ensures Holds(cachedURI[..], p, path)
    {
      hide Packed, Holds, PairItems, SizeOf, Load16;
      SkipPath(cachedURI[..], path, pairs);
      p := 2;
    }

    /** A pointer to the value of the first pair with this key, or null. */
    method Query(key: bytes, ghost path: bytes, ghost pairs: seq<Pair>) returns (r: Option<nat>)
      requires NulFree(key) && Packed(cachedURI[..], [path] + PairItems(pairs))
      ensures r.None? <==> forall pair <- pairs :: CStr(pair.key) != key
      ensures r.Some? ==> exists i: nat :: IsFirst(pairs, key, i) && Holds(cachedURI[..], r.value, pairs[i].value)
    {
      hide Packed, Holds, PairItems, Load16, SizeOf, CStr, IsFirst;
      LookupFindsFirst(pairs, key);
      FirstIsIn(pairs, key);
      var s := cachedURI[..];
      SkipPath(s, path, pairs);
      var p: nat := 0;
      var len := Load16(s, p);
      p := p + SizeOf(len);
      len := Load16(s, p);
      ghost var rest := pairs;
      QueryHead(s, p, rest);
      while len != END_OF_QUERY_MARKER
        invariant p + 2 <= |s| && Packed(s[p..], PairItems(rest))
        invariant len == Load16(s, p) && (len == END_OF_QUERY_MARKER <==> rest == [])
        invariant Lookup(rest, key) == Lookup(pairs, key)
        decreases |rest|
      {
        PackedPairAt(s, p, rest);
        HoldsCStr(s, p + 2, rest[0].key);
        if CStr(s[p + 2..]) == key {
          return Some(p + SizeOf(len) + 2);
        }
        p := p + SizeOf(len);
        len := Load16(s, p);
        p := p + SizeOf(len);
        len := Load16(s, p);
        rest := rest[1..];
        QueryHead(s, p, rest);
      }
      r := None;
    }

    method NextQuery(cursor: nat, ghost path: bytes, ghost pairs: seq<Pair>, ghost i: nat)
      returns (next: nat, key: Option<nat>, value: Option<nat>)
      requires Cursor(cachedURI[..], path, pairs, cursor, i)
      ensures i == |pairs| ==> next == 0 && key == None && value == None
      ensures i < |pairs| ==> next > 0 && Cursor(cachedURI[..], path, pairs, next, i + 1)
      ensures i < |pairs| ==> key.Some? && Holds(cachedURI[..], key.value, pairs[i].key)
      ensures i < |pairs| ==> value.Some? && Holds(cachedURI[..], value.value, pairs[i].value)
    {
      hide Packed, Holds, PairItems, Load16, SizeOf;
      var s := cachedURI[..];
      var p := cursor;
      if cursor == 0 {
        SkipPath(s, path, pairs);
        p := p + SizeOf(Load16(s, p));
        assert pairs[0..] == pairs;
      }
      ghost var rest := pairs[i..];
      QueryHead(s, p, rest);
      var len := Load16(s, p);
      if len == END_OF_QUERY_MARKER {
        return 0, None, None;
      }
      PackedPairAt(s, p, rest);
      key := Some(p + 2);
      p := p + SizeOf(len);
      len := Load16(s, p);
      value := Some(p + 2);
      p := p + SizeOf(len);
      assert rest[1..] == pairs[i + 1..];
      next := p;
    }

    /** The iteration the interface documents yields every pair, in order, and then stops. */
    method AllQueries(ghost path: bytes, ghost pairs: seq<Pair>) returns (found: seq<(nat, nat)>)
      requires Packed(cachedURI[..], [path] + PairItems(pairs))
      ensures |found| == |pairs|
      ensures forall i :: 0 <= i < |pairs| ==> Holds(cachedURI[..], found[i].0, pairs[i].key)
      ensures forall i :: 0 <= i < |pairs| ==> Holds(cachedURI[..], found[i].1, pairs[i].value)
    {
      hide Packed, Holds, PairItems, Cursor;
      found := [];
      CursorStart(cachedURI[..], path, pairs);
      var iter, key, value := NextQuery(0, path, pairs, 0);
      while iter != 0
        invariant |found| <= |pairs| && (iter == 0 <==> |found| == |pairs|)
        invariant iter != 0 ==> Cursor(cachedURI[..], path, pairs, iter, |found| + 1)
        invariant iter != 0 ==> key.Some? && Holds(cachedURI[..], key.value, pairs[|found|].key)
        invariant iter != 0 ==> value.Some? && Holds(cachedURI[..], value.value, pairs[|found|].value)
        invariant forall i :: 0 <= i < |found| ==> Holds(cachedURI[..], found[i].0, pairs[i].key)
        invariant forall i :: 0 <= i < |found| ==> Holds(cachedURI[..], found[i].1, pairs[i].value)
        decreases |pairs| - |found|
      {
        found := found + [(key.value, value.value)];
        iter, key, value := NextQuery(iter, path, pairs, |found|);
      }
    }

    /** Encoding, parsing and iterating is the identity on paths and lists of pairs. */
    method ParseEncoded(path: bytes, pairs: seq<Pair>) returns (p: nat, found: seq<(nat, nat)>)
      requires |path| <= MAX_LENGTH && FitsPairs(pairs)
      modifies this
      ensures Holds(cachedURI[..], p, path) && |found| == |pairs|
      ensures forall i :: 0 <= i < |pairs| ==> Holds(cachedURI[..], found[i].0, pairs[i].key)
      ensures forall i :: 0 <= i < |pairs| ==> Holds(cachedURI[..], found[i].1, pairs[i].value)
    {
      hide Packed, Holds, PairItems, EncodeUri, UriItems, Fits, FitsPairs;
      EncodedUriItems(path, pairs);
      var ok := ParseURI(EncodeUri(path, pairs));
      p := Path(path, pairs);
      found := AllQueries(path, pairs);
    }
  }
}
