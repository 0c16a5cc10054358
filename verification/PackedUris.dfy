/**
The packed list that a parsed URI is kept in: for every item a 16-bit length, the bytes, a zero byte, and padding to
an even size; then the end marker. Padding bytes are never written, so the layout leaves them open.
*/
module PackedUris {
  import opened Bytes
  import opened Uris

  const MAX_LENGTH: nat := 65534
  const END_OF_QUERY_MARKER: nat := 65535

  /** (v & ~1) + 1 */
  function RoundUpOdd(v: nat): nat {
    v - v % 2 + 1
  }

  /** The bytes an item of n bytes takes in the list. */
  function SizeOf(n: nat): (size: nat)
    ensures n + 3 <= size <= n + 4 && size % 2 == 0
  {
    2 + RoundUpOdd(n) + 1
  }

  function Load16(s: bytes, at: nat): nat
    requires at + 2 <= |s|
  {
    s[at] as nat + 256 * s[at + 1] as nat
  }

  ghost predicate IsItem(t: bytes, b: bytes) {
    && |b| <= MAX_LENGTH
    && |t| == SizeOf(|b|)
    && Load16(t, 0) == |b|
    && t[2..2 + |b|] == b
    && t[2 + |b|] == 0
  }

  ghost predicate Laid(s: bytes, items: seq<bytes>)
    decreases |items|
  {
    if items == [] then s == []
    else
      var n := SizeOf(|items[0]|);
      n <= |s| && IsItem(s[..n], items[0]) && Laid(s[n..], items[1..])
  }

  ghost predicate Packed(s: bytes, items: seq<bytes>) {
    && |s| >= 2
    && Load16(s, |s| - 2) == END_OF_QUERY_MARKER
    && Laid(s[..|s| - 2], items)
  }

  function PairItems(pairs: seq<Pair>): (items: seq<bytes>)
    ensures |items| == 2 * |pairs|
  {
    if pairs == [] then [] else [pairs[0].key, pairs[0].value] + PairItems(pairs[1..])
  }

  function TotalSize(items: seq<bytes>): nat {
    if items == [] then 0 else SizeOf(|items[0]|) + TotalSize(items[1..])
  }

  lemma {:induction false} PairItemsAppend(pairs: seq<Pair>, pair: Pair)
    ensures PairItems(pairs + [pair]) == PairItems(pairs) + [pair.key, pair.value]
  {
    if pairs == [] {
      assert pairs + [pair] == [pair];
      assert PairItems([pair][1..]) == [];
    } else {
      PairItemsAppend(pairs[1..], pair);
      assert (pairs + [pair])[1..] == pairs[1..] + [pair];
    }
  }

  lemma {:induction false} LaidAppend(s: bytes, items: seq<bytes>, t: bytes, b: bytes)
    requires Laid(s, items) && IsItem(t, b)
    ensures Laid(s + t, items + [b])
    decreases |items|
  {
    hide IsItem, SizeOf;
    if items == [] {
      assert s + t == t && items + [b] == [b];
      LaidOne(t, b);
    } else {
      var n := SizeOf(|items[0]|);
      LaidAppend(s[n..], items[1..], t, b);
      assert (s + t)[..n] == s[..n] && (s + t)[n..] == s[n..] + t;
      assert (items + [b])[1..] == items[1..] + [b];
    }
  }

  lemma LaidOne(t: bytes, b: bytes)
    requires IsItem(t, b)
    ensures Laid(t, [b])
  {
    assert t[..|t|] == t && t[|t|..] == [];
    assert Laid([], [b][1..]);
  }

  /** What a reader finds at the front of a list that still has an item: its length is never the end marker. */
  lemma PackedItem(s: bytes, items: seq<bytes>)
    requires Packed(s, items) && items != []
    ensures var b := items[0]; var n := SizeOf(|b|);
            && |b| <= MAX_LENGTH && n + 2 <= |s|
            && Load16(s, 0) == |b| && s[2..2 + |b|] == b && s[2 + |b|] == 0
            && Packed(s[n..], items[1..])
  {
    hide SizeOf;
    var b := items[0];
    var n := SizeOf(|b|);
    var front := s[..|s| - 2];
    assert s[n..][..|s[n..]| - 2] == front[n..];
    assert front[..n] == s[..n];
    assert s[2..2 + |b|] == s[..n][2..2 + |b|];
  }

  /** Item i's 16-bit length sits at an even offset, and so does the end marker, at the very end. */
  lemma {:induction false} PackedEvenOffsets(s: bytes, items: seq<bytes>, i: nat)
    requires Packed(s, items) && i <= |items|
    ensures var p := TotalSize(items[..i]);
            && p % 2 == 0 && p + 2 <= |s|
            && Load16(s, p) == (if i == |items| then END_OF_QUERY_MARKER else |items[i]|)
            && (i == |items| ==> p + 2 == |s|)
    decreases i
  {
    hide SizeOf, Packed;
    if i > 0 {
      var n := SizeOf(|items[0]|);
      PackedItem(s, items);
      PackedEvenOffsets(s[n..], items[1..], i - 1);
      assert items[..i][1..] == items[1..][..i - 1];
    } else if items == [] {
      PackedEnd(s);
    } else {
      PackedItem(s, items);
    }
  }

  lemma PackedEnd(s: bytes)
    requires Packed(s, [])
    ensures |s| == 2 && Load16(s, 0) == END_OF_QUERY_MARKER
  {
  }

  // ---------- the list of a URI ----------

  function UriItems(uri: bytes): seq<bytes> {
    [PathOf(uri)] + PairItems(QueryOf(uri))
  }

  predicate FitsPair(pair: Pair) {
    |pair.key| <= MAX_LENGTH && |pair.value| <= MAX_LENGTH
  }

  predicate FitsPairs(pairs: seq<Pair>) {
    forall i :: 0 <= i < |pairs| ==> FitsPair(pairs[i])
  }

  /** What ParseURI accepts. */
  predicate Fits(uri: bytes) {
    |PathOf(uri)| <= MAX_LENGTH && FitsPairs(QueryOf(uri))
  }

  function QuerySize(pairs: seq<Pair>): nat {
    TotalSize(PairItems(pairs))
  }

  lemma QuerySizeStep(pair: Pair, rest: seq<Pair>)
    ensures QuerySize([pair] + rest) == SizeOf(|pair.key|) + SizeOf(|pair.value|) + QuerySize(rest)
  {
    hide SizeOf;
    var pairs := [pair] + rest;
    assert pairs[1..] == rest;
    var items := PairItems(pairs);
    assert items == [pair.key, pair.value] + PairItems(rest);
    var tail := items[1..];
    assert tail == [pair.value] + PairItems(rest) && tail[1..] == PairItems(rest);
    assert TotalSize(tail) == SizeOf(|pair.value|) + TotalSize(tail[1..]);
  }

  /** A pair costs at most eight bytes for every character it took. */
  lemma {:induction false} QuerySizeBound(uri: bytes, p: nat)
    requires p <= |uri|
    ensures QuerySize(Pairs(uri, p)) <= 8 * (|uri| - p)
    decreases |uri| - p
  {
    hide EndOf, Decoded, PairItems, PairAt, NextPair, SizeOf;
    if p < |uri| {
      var q := NextPair(uri, p);
      QuerySizeBound(uri, q);
      PairSpan(uri, p);
      QuerySizeStep(PairAt(uri, p), Pairs(uri, q));
    }
  }

  lemma PairSpan(uri: bytes, p: nat)
    requires p < |uri|
    ensures |PairAt(uri, p).key| + |PairAt(uri, p).value| <= NextPair(uri, p) - p
    ensures var pair := PairAt(uri, p);
            SizeOf(|pair.key|) + SizeOf(|pair.value|) <= 8 * (NextPair(uri, p) - p)
  {
    var pair, q := PairAt(uri, p), EndOf(uri, p, KeyPart);
    if q < |uri| && uri[q] == EQUALS {
      assert |pair.key| + |pair.value| < NextPair(uri, p) - p;
    } else {
      assert |pair.value| == 0;
    }
  }

  /** The size of the whole buffer, which stays far from overflowing an int for any URI within the largest frame. */
  lemma PackedSizeBound(uri: bytes)
    ensures SizeOf(|PathOf(uri)|) + QuerySize(QueryOf(uri)) + 2 <= 8 * |uri| + 6
  {
    hide Pairs, PairItems;
    var q := EndOf(uri, 0, PathPart);
    assert |PathOf(uri)| <= q;
    if q < |uri| {
      QuerySizeBound(uri, q + 1);
    } else {
      assert QuerySize(QueryOf(uri)) == 0 by {
        assert PairItems([]) == [];
      }
    }
  }

  /** Percent-encoding any path and pairs with parts short enough gives a URI that is accepted and means the same. */
  lemma EncodedUriItems(path: bytes, pairs: seq<Pair>)
    requires |path| <= MAX_LENGTH && FitsPairs(pairs)
    ensures var uri := EncodeUri(path, pairs);
            NulFree(uri) && Fits(uri) && UriItems(uri) == [path] + PairItems(pairs)
  {
    hide FitsPairs, EncodeUri, PathOf, QueryOf, PairItems, NulFree;
    PercentRoundTrip(path, pairs);
  }

  lemma {:induction false} ItemsFit(pairs: seq<Pair>)
    ensures FitsPairs(pairs) <==> forall item <- PairItems(pairs) :: |item| < 65535
    decreases |pairs|
  {
    if pairs != [] {
      var rest := pairs[1..];
      ItemsFit(rest);
      assert pairs == [pairs[0]] + rest;
      var items := PairItems(pairs);
      assert items == [pairs[0].key, pairs[0].value] + PairItems(rest);
      assert items[0] in items && items[1] in items;
    }
  }

  /** A URI is accepted exactly when the length of every decoded part can be told from the end marker, 65535. */
  lemma FitsMeans(uri: bytes)
    ensures Fits(uri) <==> forall item <- UriItems(uri) :: |item| < 65535
  {
    hide FitsPairs, PairItems, PathOf, QueryOf;
    ItemsFit(QueryOf(uri));
    assert UriItems(uri) == [PathOf(uri)] + PairItems(QueryOf(uri));
  }

  // ---------- what the accessors find in a list ----------

  /** PackedItem, for a list that begins at position p. */
  lemma PackedItemAt(s: bytes, p: nat, items: seq<bytes>)
    requires p <= |s| && Packed(s[p..], items) && items != []
    ensures var b := items[0]; var q := p + SizeOf(|b|);
            && |b| <= MAX_LENGTH && q + 2 <= |s|
            && Load16(s, p) == |b| && Holds(s, p + 2, b)
            && Packed(s[q..], items[1..])
  {
    hide SizeOf, Packed;
    PackedItem(s[p..], items);
    var b := items[0];
    var q := p + SizeOf(|b|);
    assert s[p..][SizeOf(|b|)..] == s[q..];
    assert s[p + 2..p + 2 + |b|] == s[p..][2..2 + |b|];
  }

  /** Two items further. */
  lemma PackedPairAt(s: bytes, p: nat, pairs: seq<Pair>)
    requires p <= |s| && Packed(s[p..], PairItems(pairs)) && pairs != []
    ensures var k, v := pairs[0].key, pairs[0].value; var q := p + SizeOf(|k|); var r := q + SizeOf(|v|);
            && |k| <= MAX_LENGTH && |v| <= MAX_LENGTH && q + 2 <= |s| && r + 2 <= |s|
            && Load16(s, p) == |k| && Holds(s, p + 2, k)
            && Load16(s, q) == |v| && Holds(s, q + 2, v)
            && Packed(s[r..], PairItems(pairs[1..]))
  {
    hide SizeOf, Packed, Holds, Load16, PairItems;
    var items := PairItems(pairs);
    PairItemsParts(pairs);
    PackedItemAt(s, p, items);
    PackedItemAt(s, p + SizeOf(|pairs[0].key|), items[1..]);
  }

  lemma PairItemsParts(pairs: seq<Pair>)
    requires pairs != []
    ensures var items := PairItems(pairs);
            && |items| >= 2 && items[0] == pairs[0].key
            && items[1..][0] == pairs[0].value && items[1..][1..] == PairItems(pairs[1..])
  {
    TwoInFront(pairs[0].key, pairs[0].value, PairItems(pairs[1..]));
  }

  lemma TwoInFront(a: bytes, b: bytes, rest: seq<bytes>)
    ensures var all := [a, b] + rest;
            |all| >= 2 && all[0] == a && all[1..] == [b] + rest && all[1..][0] == b && all[1..][1..] == rest
  {
  }

  lemma PackedEndAt(s: bytes, p: nat)
    requires p <= |s| && Packed(s[p..], [])
    ensures p + 2 == |s| && Load16(s, p) == END_OF_QUERY_MARKER
  {
    PackedEnd(s[p..]);
  }

  /** The value of the first pair whose key, as a C string, is this one. */
  function Lookup(pairs: seq<Pair>, key: bytes): Option<bytes> {
    if pairs == [] then None
    else if CStr(pairs[0].key) == key then Some(pairs[0].value)
    else Lookup(pairs[1..], key)
  }

  /** Pair i is the first whose key, as a C string, is this one. */
  ghost predicate IsFirst(pairs: seq<Pair>, key: bytes, i: nat) {
    i < |pairs| && CStr(pairs[i].key) == key && forall j :: 0 <= j < i ==> CStr(pairs[j].key) != key
  }

  lemma {:induction false} LookupFindsFirst(pairs: seq<Pair>, key: bytes)
    ensures match Lookup(pairs, key)
            case None => forall pair <- pairs :: CStr(pair.key) != key
            case Some(v) => exists i: nat :: IsFirst(pairs, key, i) && v == pairs[i].value
    decreases |pairs|
  {
    hide CStr;
    if pairs != [] {
      if CStr(pairs[0].key) == key {
        assert IsFirst(pairs, key, 0);
      } else {
        var rest := pairs[1..];
        LookupFindsFirst(rest, key);
        assert pairs == [pairs[0]] + rest;
        if Lookup(rest, key).Some? {
          var i: nat :| IsFirst(rest, key, i) && Lookup(rest, key).value == rest[i].value;
          LaterFirst(pairs, key, i);
        }
      }
    }
  }

  lemma LaterFirst(pairs: seq<Pair>, key: bytes, i: nat)
    requires pairs != [] && CStr(pairs[0].key) != key && IsFirst(pairs[1..], key, i)
    ensures IsFirst(pairs, key, i + 1) && pairs[i + 1] == pairs[1..][i]
  {
    hide CStr;
    forall j | 0 <= j < i + 1
      ensures CStr(pairs[j].key) != key
    {
      assert j > 0 ==> pairs[j] == pairs[1..][j - 1];
    }
  }

  /** An iterator that stands before pair i. */
  ghost predicate Cursor(s: bytes, path: bytes, pairs: seq<Pair>, cursor: nat, i: nat) {
    && i <= |pairs|
    && if cursor == 0 then i == 0 && Packed(s, [path] + PairItems(pairs))
       else cursor <= |s| && Packed(s[cursor..], PairItems(pairs[i..]))
  }

  /** Past the path. */
  lemma SkipPath(s: bytes, path: bytes, pairs: seq<Pair>)
    requires Packed(s, [path] + PairItems(pairs))
    ensures var q := SizeOf(|path|);
            && q + 2 <= |s| && |path| <= MAX_LENGTH && Load16(s, 0) == |path| && Holds(s, 2, path)
            && Packed(s[q..], PairItems(pairs))
  {
    hide SizeOf, Packed, Holds, Load16, PairItems;
    assert s[0..] == s;
    PackedItemAt(s, 0, [path] + PairItems(pairs));
    assert ([path] + PairItems(pairs))[1..] == PairItems(pairs);
  }
}
