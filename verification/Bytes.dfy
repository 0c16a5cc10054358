/** Byte sequences, little-endian integers and suffixes, shared by every other module. */
module Bytes {
  type byte = b: int | 0 <= b < 256

  type bytes = seq<byte>

  datatype Option<+T> = None | Some(value: T) {
    predicate IsFailure() {
      None?
    }

    function PropagateFailure<U>(): Option<U>
      requires None?
    {
      None
    }

    function Extract(): T
      requires Some?
    {
      value
    }
  }

  const U16_LIMIT: nat := 0x1_0000
  const U32_LIMIT: nat := 0x1_0000_0000
  const U64_LIMIT: nat := 0x1_0000_0000_0000_0000

  function Min(a: nat, b: nat): nat {
    if a < b then a else b
  }

  function Max(a: nat, b: nat): nat {
    if a < b then b else a
  }

  function Zeros(n: nat): (s: bytes)
    ensures |s| == n
    ensures forall i :: 0 <= i < n ==> s[i] == 0
  {
    seq(n, _ => 0)
  }

  function Pow256(n: nat): (p: nat)
    ensures p > 0
  {
    if n == 0 then 1 else 256 * Pow256(n - 1)
  }

  /** The n low-order bytes of v, least significant first: what storing v into an n-byte integer leaves in memory. */
  function Le(v: nat, n: nat): (s: bytes)
    ensures |s| == n
  {
    if n == 0 then [] else [v % 256] + Le(v / 256, n - 1)
  }

  /** The integer a little-endian machine loads from s. */
  function Unle(s: bytes): nat {
    if s == [] then 0 else s[0] + 256 * Unle(s[1..])
  }

  /** Widths the wire format uses. */
  lemma Widths()
    ensures Pow256(1) == 256 && Pow256(2) == U16_LIMIT && Pow256(4) == U32_LIMIT && Pow256(8) == U64_LIMIT
  {
    assert Pow256(3) == 256 * Pow256(2);
    assert Pow256(4) == 256 * Pow256(3);
    assert Pow256(5) == 256 * Pow256(4);
    assert Pow256(6) == 256 * Pow256(5);
    assert Pow256(7) == 256 * Pow256(6);
  }

  lemma SplitByte(b: byte, rest: nat)
    ensures (b as nat + 256 * rest) % 256 == b && (b as nat + 256 * rest) / 256 == rest
  {
  }

  /** An integer that fits in n bytes survives being stored and loaded. */
  lemma {:induction false} RoundTrip(v: nat, n: nat)
    requires v < Pow256(n)
    ensures Unle(Le(v, n)) == v
  {
    if n != 0 {
      RoundTrip(v / 256, n - 1);
      assert Le(v, n)[1..] == Le(v / 256, n - 1);
    }
  }

  lemma {:induction false} UnleBound(s: bytes)
    ensures Unle(s) < Pow256(|s|)
  {
    if s != [] {
      UnleBound(s[1..]);
    }
  }

  /** s with d stored at position pos. */
  function Put(s: bytes, pos: nat, d: bytes): (r: bytes)
    requires pos + |d| <= |s|
    ensures |r| == |s| && r[pos..pos + |d|] == d
    ensures forall i :: 0 <= i < pos || pos + |d| <= i < |s| ==> r[i] == s[i]
  {
    s[..pos] + d + s[pos + |d|..]
  }

  lemma PutNothing(s: bytes, pos: nat)
    requires pos <= |s|
    ensures Put(s, pos, []) == s
  {
  }

  /** Put extended by one byte. */
  lemma PutOne(s: bytes, pos: nat, d: bytes, c: byte)
    requires pos + |d| < |s|
    ensures Put(s, pos, d)[pos + |d| := c] == Put(s, pos, d + [c])
  {
  }

  lemma PutDropped(s: bytes, cut: nat, pos: nat, d: bytes)
    requires cut + pos + |d| <= |s|
    ensures Put(s, cut + pos, d)[cut..] == Put(s[cut..], pos, d)
  {
  }

  lemma SliceOfSlice(s: bytes, a: nat, b: nat, c: nat, d: nat)
    requires c <= d && a + d <= b <= |s|
    ensures s[a..b][c..d] == s[a + c..a + d]
  {
    var l, r := s[a..b][c..d], s[a + c..a + d];
    assert |l| == |r|;
    forall i | 0 <= i < |l|
      ensures l[i] == r[i]
    {
      assert l[i] == s[a..b][c + i];
    }
  }

  // ---------- C strings ----------

  ghost predicate NulFree(s: bytes) {
    forall i :: 0 <= i < |s| ==> s[i] != 0
  }

  /** The C string that begins with b: b up to its first zero byte. */
  function CStr(b: bytes): bytes {
    if b == [] || b[0] == 0 then [] else [b[0]] + CStr(b[1..])
  }

  /** Position p holds b and a terminator. */
  ghost predicate Holds(s: bytes, p: nat, b: bytes) {
    p + |b| < |s| && s[p..p + |b|] == b && s[p + |b|] == 0
  }

  lemma {:induction false} CStrPrefix(b: bytes, rest: bytes)
    ensures CStr(b + [0] + rest) == CStr(b)
  {
    var s := b + [0] + rest;
    if b != [] {
      CStrPrefix(b[1..], rest);
      assert s[1..] == b[1..] + [0] + rest;
    }
  }

  lemma HoldsCStr(s: bytes, p: nat, b: bytes)
    requires Holds(s, p, b)
    ensures CStr(s[p..]) == CStr(b)
  {
    hide CStr;
    CStrPrefix(b, s[p + |b| + 1..]);
    assert s[p..] == b + [0] + s[p + |b| + 1..];
  }
}
