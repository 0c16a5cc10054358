/** The accessors of a request's header block. A pointer into the block is a position. */
module HeaderLookups {
  import opened Bytes
  import opened HeaderBlocks
  import opened HeaderCaches
  import opened HeaderBuilders
  import opened NthMatches

  /** tolower in the C locale. */
  function ToLower(c: byte): byte {
    if 65 <= c <= 90 then c + 32 else c
  }

  /** What the lookup compares: as many characters as the name has. */
  predicate PrefixMatch(key: bytes, name: bytes) {
    |name| <= |key| && forall i :: 0 <= i < |name| ==> ToLower(key[i]) == ToLower(name[i])
  }

  /** The same letter, or the same letter in the other case. */
  predicate SameLetter(a: byte, b: byte) {
    a == b || (65 <= a <= 90 && b == a + 32) || (65 <= b <= 90 && a == b + 32)
  }

  lemma FoldsCase(a: byte, b: byte)
    ensures ToLower(a) == ToLower(b) <==> SameLetter(a, b)
  {
  }

  /** The key begins with the name, whatever the case of their letters. */
  lemma PrefixMatchMeans(key: bytes, name: bytes)
    ensures PrefixMatch(key, name) <==> |name| <= |key| && forall i :: 0 <= i < |name| ==> SameLetter(key[i], name[i])
  {
    hide ToLower, SameLetter;
    forall a: byte, b: byte
      ensures ToLower(a) == ToLower(b) <==> SameLetter(a, b)
    {
      FoldsCase(a, b);
    }
  }

  /** What a lookup by name promises. */
  predicate NameMatch(key: bytes, name: bytes) {
    |name| == |key| && PrefixMatch(key, name)
  }

  predicate ProperlyExtends(key: bytes, name: bytes) {
    PrefixMatch(key, name) && |name| < |key|
  }

  function PrefixMarks(lines: seq<Line>, name: bytes): (marks: seq<bool>)
    ensures |marks| == |lines|
  {
    seq(|lines|, i requires 0 <= i < |lines| => PrefixMatch(lines[i].key, name))
  }

  function NameMarks(lines: seq<Line>, name: bytes): (marks: seq<bool>)
    ensures |marks| == |lines|
  {
    seq(|lines|, i requires 0 <= i < |lines| => NameMatch(lines[i].key, name))
  }

  lemma MarkDiffers(key: bytes, name: bytes)
    ensures (PrefixMatch(key, name) == NameMatch(key, name)) <==> !ProperlyExtends(key, name)
    ensures NameMatch(key, name) ==> PrefixMatch(key, name)
  {
  }

  /** Lookups by name are by exact name, for every n, exactly when no header's key properly extends the name. */
  lemma LookupIsByName(lines: seq<Line>, name: bytes)
    requires lines != []
    ensures SameFinds(PrefixMarks(lines, name), NameMarks(lines, name), 1) <==>
              forall i :: 1 <= i < |lines| ==> !ProperlyExtends(lines[i].key, name)
  {
    hide SameFinds, PrefixMatch, NameMatch, ProperlyExtends;
    var a, b := PrefixMarks(lines, name), NameMarks(lines, name);
    SameLookups(a, b, 1);
    forall i | 0 <= i < |lines|
      ensures (a[i] == b[i]) <==> !ProperlyExtends(lines[i].key, name)
    {
      MarkDiffers(lines[i].key, name);
    }
    if a[1..] == b[1..] {
      forall i | 1 <= i < |lines|
        ensures !ProperlyExtends(lines[i].key, name)
      {
        assert a[i] == a[1..][i - 1] == b[1..][i - 1] == b[i];
      }
    }
    if forall i :: 1 <= i < |lines| ==> !ProperlyExtends(lines[i].key, name) {
      forall i | 1 <= i < |lines|
        ensures a[i] == b[i]
      {
      }
      assert a[1..] == b[1..];
    }
  }

  /** Every header with a longer name has one with exactly this name before it. */
  ghost predicate NameComesFirst(lines: seq<Line>, name: bytes) {
    forall k :: 1 <= k < |lines| && ProperlyExtends(lines[k].key, name) ==>
      exists j :: 1 <= j < k && NameMatch(lines[j].key, name)
  }

  /** A lookup of the first header is by name exactly in that case, and otherwise finds one with a longer name. */
  lemma FirstLookupIsByName(lines: seq<Line>, name: bytes)
    requires lines != []
    ensures var r := FindNth(PrefixMarks(lines, name), 1, 0);
            && (r == FindNth(NameMarks(lines, name), 1, 0) <==> NameComesFirst(lines, name))
            && (!NameComesFirst(lines, name) ==> r.Some? && ProperlyExtends(lines[r.value].key, name))
  {
    hide PrefixMatch, NameMatch, ProperlyExtends, FindNth;
    var a, b := PrefixMarks(lines, name), NameMarks(lines, name);
    forall k | 0 <= k < |lines|
      ensures (b[k] ==> a[k]) && (a[k] && !b[k] <==> ProperlyExtends(lines[k].key, name))
    {
      MarkDiffers(lines[k].key, name);
      ExtensionMatches(lines[k].key, name);
    }
    SameFirst(a, b, 1);
    FindFirst(a, 1);
    FirstInTerms(lines, name);
  }

  lemma ExtensionMatches(key: bytes, name: bytes)
    ensures ProperlyExtends(key, name) ==> PrefixMatch(key, name)
  {
  }

  lemma FirstInTerms(lines: seq<Line>, name: bytes)
    requires var a, b := PrefixMarks(lines, name), NameMarks(lines, name);
             forall k :: 0 <= k < |lines| ==> (a[k] && !b[k] <==> ProperlyExtends(lines[k].key, name))
    ensures MarkedBefore(PrefixMarks(lines, name), NameMarks(lines, name), 1) <==> NameComesFirst(lines, name)
  {
    hide PrefixMatch, NameMatch, ProperlyExtends;
    var a, b := PrefixMarks(lines, name), NameMarks(lines, name);
    if MarkedBefore(a, b, 1) {
      forall k | 1 <= k < |lines| && ProperlyExtends(lines[k].key, name)
        ensures exists j :: 1 <= j < k && NameMatch(lines[j].key, name)
      {
        var j :| 1 <= j < k && b[j];
        assert NameMatch(lines[j].key, name);
      }
    }
    if NameComesFirst(lines, name) {
      forall k | 1 <= k < |a| && a[k] && !b[k]
        ensures exists j :: 1 <= j < k && b[j]
      {
        var j :| 1 <= j < k && NameMatch(lines[j].key, name);
        assert b[j];
      }
    }
  }

  /** A lookup of "Host" finds a header called "Hostile". */
  lemma LookupFindsLongerName()
    ensures var lines := [Line([], []), Line([72, 111, 115, 116, 105, 108, 101], [])]; var name := [72, 111, 115, 116];
            FindNth(PrefixMarks(lines, name), 1, 0) == Some(1) && FindNth(NameMarks(lines, name), 1, 0) == None
  {
    var key, name := [72, 111, 115, 116, 105, 108, 101], [72, 111, 115, 116];
    assert PrefixMatch(key, name) && !NameMatch(key, name);
  }

  lemma HoldsAt(s: bytes, p: nat, b: bytes, i: nat)
    requires Holds(s, p, b) && i <= |b|
    ensures p + i < |s| && s[p + i] == if i < |b| then b[i] else 0
  {
    assert i < |b| ==> s[p + i] == s[p..p + |b|][i];
  }

  class RequestHeaders {
    const headerBlock: array<byte>
    const headerCount: nat

    constructor (headerBlock: array<byte>, headerCount: nat)
      ensures this.headerBlock == headerBlock && this.headerCount == headerCount
    {
      this.headerBlock, this.headerCount := headerBlock, headerCount;
    }

    /** The block is laid out for these lines, the method and URI among them. */
    ghost predicate Valid(lines: seq<Line>)
      reads headerBlock
    {
      lines != [] && |lines| == headerCount && IsBlock(headerBlock[..], lines)
    }

    function HeaderCount(): nat {
      if headerCount == 0 then 0 else headerCount - 1
    }

    method Verb(ghost lines: seq<Line>) returns (p: nat)
      requires Valid(lines)
      ensures Holds(headerBlock[..], p, lines[0].key)
    {
      hide IsBlock, KeyStart, KeyLen;
      LineAt(headerBlock[..], lines, 0);
      p := KeyStart(headerBlock[..], 0);
    }

    method URI(ghost lines: seq<Line>) returns (p: nat)
      requires Valid(lines)
      ensures Holds(headerBlock[..], p, lines[0].value)
    {
      hide IsBlock, KeyStart, KeyLen;
      LineAt(headerBlock[..], lines, 0);
      p := KeyStart(headerBlock[..], 0) + KeyLen(headerBlock[..], 0) + 1;
    }

    /** EqNoCase stops at the key's terminator, if not before. */
    method EqNoCase(p: nat, name: bytes, ghost key: bytes) returns (eq: bool)
      requires NulFree(name) && Holds(headerBlock[..], p, key)
      ensures eq == PrefixMatch(key, name)
    {
      for i := 0 to |name|
        invariant i <= |key| && forall j :: 0 <= j < i ==> ToLower(key[j]) == ToLower(name[j])
      {
        HoldsAt(headerBlock[..], p, key, i);
        if ToLower(headerBlock[p + i]) != ToLower(name[i]) {
          return false;
        }
      }
      eq := true;
    }

    /** The position and exact length of the nth value whose key matches; the length excludes the terminator. */
    method HeaderByName(name: bytes, n: int, ghost lines: seq<Line>) returns (found: Option<(nat, nat)>)
      requires Valid(lines) && NulFree(name)
      ensures var r := FindNth(PrefixMarks(lines, name), 1, n);
              && (found.None? <==> r.None?)
              && (found.Some? ==> r.value < |lines| && Holds(headerBlock[..], found.value.0, lines[r.value].value))
              && (found.Some? ==> found.value.1 == |lines[r.value].value|)
    {
      hide IsBlock, KeyStart, KeyLen, PrefixMatch, NulFree;
      var nth := n;
      var count := HeaderCount() + 1;
      ghost var marks := PrefixMarks(lines, name);
      for i := 1 to count
        invariant nth != -1 || nth == n
        invariant FindNth(marks, i, nth) == FindNth(marks, 1, n)
      {
        LineAt(headerBlock[..], lines, i);
        var start, len := KeyStart(headerBlock[..], i), KeyLen(headerBlock[..], i);
        var eq := EqNoCase(start, name, lines[i].key);
        if eq {
          nth := nth - 1;
        }
        if nth == -1 {
          var buf := start + len + 1;
          return Some((buf, KeyStart(headerBlock[..], i + 1) - 1 - (start + len + 1)));
        }
      }
      found := None;
    }

    /** The value's length comes out two larger than documented, and than HeaderByName says: it counts terminators. */
    method HeaderAt(index: int, ghost lines: seq<Line>) returns (key: Option<(nat, nat)>, val: Option<(nat, nat)>)
      requires Valid(lines)
      ensures key.Some? <==> 0 <= index < |lines| - 1
      ensures val.Some? <==> key.Some?
      ensures key.Some? ==> Holds(headerBlock[..], key.value.0, lines[index + 1].key)
      ensures key.Some? ==> key.value.1 == |lines[index + 1].key|
      ensures val.Some? ==> Holds(headerBlock[..], val.value.0, lines[index + 1].value)
      ensures val.Some? ==> val.value.1 == |lines[index + 1].value| + 2
    {
      hide IsBlock, KeyStart, KeyLen;
      if index < 0 || index >= HeaderCount() {
        return None, None;
      }
      var i := index + 1;
      LineAt(headerBlock[..], lines, i);
      var start, len := KeyStart(headerBlock[..], i), KeyLen(headerBlock[..], i);
      key := Some((start, len));
      val := Some((start + len + 1, KeyStart(headerBlock[..], i + 1) - (start + len)));
    }
  }

  /** From frame to request: every line reads as its sender meant it, after everything sent before on the connection. */
  method ReceiveHeaders(cache: HeaderCacheRecv, before: seq<TxLine>, headers: seq<TxLine>)
    returns (request: RequestHeaders, ghost lines: seq<Line>)
    requires cache.items == CacheAfter([], before) && headers != [] && BlockFits(cache.items, headers)
    requires TotalHeaderBlockSize(cache.items, headers) < INT32_LIMIT
    modifies cache
    ensures cache.items == CacheAfter([], before + headers)
    ensures request.Valid(lines) && lines == ResolveAll(old(cache.items), headers)
    ensures forall i :: 0 <= i < |lines| ==> lines[i] == Meaning(before + headers[..i], headers[i])
  {
    hide CacheAfter, ResolveAll, Layout, TotalHeaderBlockSize, BlockFits, Meaning, IsBlock;
    lines := ResolveAll(cache.items, headers);
    var block := UnpackHeader(cache, headers);
    CacheAfterAppend([], before, headers);
    request := new RequestHeaders(block, |headers|);
    forall i | 0 <= i < |lines|
      ensures lines[i] == Meaning(before + headers[..i], headers[i])
    {
      ResolvesAsMeant(before, headers, i);
    }
  }
}
