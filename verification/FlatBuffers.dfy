/**
The wire layout of one FlatBuffer, as values. A buffer under construction is the byte sequence that runs from
the lowest used address to the end of the allocation; it grows at the front. A distance is a number of
bytes counted from the END of that sequence, which is what the builder calls an offset: a
distance keeps its meaning when bytes are added in front.
*/
module FlatBuffers {
  import opened Bytes

  // ---------- reading ----------
  // A position is an index into the finished buffer. None means the reader would touch memory outside it.

  function ReadLe(buf: bytes, pos: int, n: nat): Option<nat> {
    if 0 <= pos && pos + n <= |buf| then Some(Unle(buf[pos..pos + n])) else None
  }

  /** A soffset_t: 32 bits, two's complement. */
  function ReadSigned(buf: bytes, pos: int): Option<int> {
    var u :- ReadLe(buf, pos, 4);
    Some(if u < 0x8000_0000 then u else u - U32_LIMIT)
  }

  /** Table::GetOptionalFieldOffset */
  function FieldOffset(buf: bytes, table: int, slot: nat): Option<nat> {
    var soff :- ReadSigned(buf, table);
    var vtsize :- ReadLe(buf, table - soff, 2);
    if slot < vtsize then ReadLe(buf, table - soff + slot, 2) else Some(0)
  }

  /** Table::GetField */
  function GetField(buf: bytes, table: int, slot: nat, width: nat, default: nat): Option<nat> {
    var fo :- FieldOffset(buf, table, slot);
    if fo != 0 then ReadLe(buf, table + fo, width) else Some(default)
  }

  /** Table::GetPointer; Some(None) is the null pointer. */
  function GetPointer(buf: bytes, table: int, slot: nat): Option<Option<int>> {
    var fo :- FieldOffset(buf, table, slot);
    if fo == 0 then Some(None)
    else
      var rel :- ReadLe(buf, table + fo, 4);
      Some(Some(table + fo + rel))
  }

  /** Vector<uint8_t>: size() and Data(). */
  function GetBytes(buf: bytes, vec: int): Option<bytes> {
    var n :- ReadLe(buf, vec, 4);
    if 0 <= vec && vec + 4 + n <= |buf| then Some(buf[vec + 4..vec + 4 + n]) else None
  }

  /** Vector<Offset<T>>::Get(i) */
  function GetRef(buf: bytes, vec: int, i: nat): Option<int> {
    var rel :- ReadLe(buf, vec + 4 + 4 * i, 4);
    Some(vec + 4 + 4 * i + rel)
  }

  /** GetRoot */
  function GetRoot(buf: bytes): Option<int> {
    var rel :- ReadLe(buf, 0, 4);
    Some(rel)
  }

  // ---------- buffers that only grow at the front ----------

  ghost predicate Extends(small: bytes, big: bytes) {
    |small| <= |big| && big[|big| - |small|..] == small
  }

  lemma ExtendsPrepend(pre: bytes, buf: bytes)
    ensures Extends(buf, pre + buf)
  {
  }

  lemma ExtendsLength(small: bytes, big: bytes)
    requires Extends(small, big)
    ensures |small| <= |big|
  {
  }

  lemma ExtendsTransitive(a: bytes, b: bytes, c: bytes)
    requires Extends(a, b) && Extends(b, c)
    ensures Extends(a, c)
  {
    assert c[|c| - |a|..] == c[|c| - |b|..][|b| - |a|..];
  }

  /** The n bytes that start at distance d. */
  function FromEnd(s: bytes, d: nat, n: nat): (r: bytes)
    requires n <= d <= |s|
    ensures |r| == n
  {
    s[|s| - d..|s| - d + n]
  }

  lemma ExtendsSlice(small: bytes, big: bytes, d: nat, n: nat)
    requires Extends(small, big) && n <= d <= |small|
    ensures big[|big| - d..|big| - d + n] == small[|small| - d..|small| - d + n]
  {
    var l, r := big[|big| - d..|big| - d + n], small[|small| - d..|small| - d + n];
    forall i | 0 <= i < n
      ensures l[i] == r[i]
    {
      assert l[i] == big[|big| - |small|..][|small| - d + i];
    }
  }

  /** What is readable keeps its distance from the end. */
  lemma ReadLeStable(small: bytes, big: bytes, d: int, n: nat)
    requires Extends(small, big)
    requires ReadLe(small, |small| - d, n).Some?
    ensures ReadLe(big, |big| - d, n) == ReadLe(small, |small| - d, n)
  {
    ExtendsSlice(small, big, d, n);
  }

  lemma FieldOffsetStable(small: bytes, big: bytes, d: int, slot: nat)
    requires Extends(small, big)
    requires FieldOffset(small, |small| - d, slot).Some?
    ensures FieldOffset(big, |big| - d, slot) == FieldOffset(small, |small| - d, slot)
  {
    ReadLeStable(small, big, d, 4);
    var soff := ReadSigned(small, |small| - d).value;
    ReadLeStable(small, big, d + soff, 2);
    var vtsize := ReadLe(small, |small| - d - soff, 2).value;
    if slot < vtsize {
      ReadLeStable(small, big, d + soff - slot, 2);
    }
  }

  lemma GetFieldStable(small: bytes, big: bytes, d: int, slot: nat, width: nat, default: nat)
    requires Extends(small, big)
    requires GetField(small, |small| - d, slot, width, default).Some?
    ensures GetField(big, |big| - d, slot, width, default) == GetField(small, |small| - d, slot, width, default)
  {
    FieldOffsetStable(small, big, d, slot);
    var fo := FieldOffset(small, |small| - d, slot).value;
    if fo != 0 {
      ReadLeStable(small, big, d - fo, width);
    }
  }

  /** A table whose vtable ends before a field, as an older writer leaves it, reads as if the field were not stored. */
  lemma MissingFieldReads(buf: bytes, table: int, slot: nat, width: nat, default: nat)
    requires ReadSigned(buf, table).Some?
    requires var vtsize := ReadLe(buf, table - ReadSigned(buf, table).value, 2); vtsize.Some? && vtsize.value <= slot
    ensures GetField(buf, table, slot, width, default) == Some(default) && GetPointer(buf, table, slot) == Some(None)
  {
    hide ReadLe;
  }

  /** Pointers move with the end of the buffer. */
  ghost predicate SamePointer(small: bytes, p: Option<Option<int>>, big: bytes, q: Option<Option<int>>)
  {
    p.Some? && q.Some? && p.value.Some? == q.value.Some? &&
    (p.value.Some? ==> |small| - p.value.value == |big| - q.value.value)
  }

  lemma GetPointerStable(small: bytes, big: bytes, d: int, slot: nat)
    requires Extends(small, big)
    requires GetPointer(small, |small| - d, slot).Some?
    ensures SamePointer(small, GetPointer(small, |small| - d, slot), big, GetPointer(big, |big| - d, slot))
  {
    FieldOffsetStable(small, big, d, slot);
    var fo := FieldOffset(small, |small| - d, slot).value;
    if fo != 0 {
      ReadLeStable(small, big, d - fo, 4);
    }
  }

  lemma GetBytesStable(small: bytes, big: bytes, d: int)
    requires Extends(small, big)
    requires GetBytes(small, |small| - d).Some?
    ensures GetBytes(big, |big| - d) == GetBytes(small, |small| - d)
  {
    ReadLeStable(small, big, d, 4);
    var n := ReadLe(small, |small| - d, 4).value;
    ExtendsSlice(small, big, d - 4, n);
  }

  lemma GetRefStable(small: bytes, big: bytes, d: int, i: nat)
    requires Extends(small, big)
    requires GetRef(small, |small| - d, i).Some?
    ensures GetRef(big, |big| - d, i).Some?
    ensures |big| - GetRef(big, |big| - d, i).value == |small| - GetRef(small, |small| - d, i).value
  {
    ReadLeStable(small, big, d - 4 - 4 * i, 4);
  }

  // ---------- writing ----------

  predicate PowerOfTwoWidth(n: nat) {
    n == 1 || n == 2 || n == 4 || n == 8
  }

  /** PaddingBytes, ((~size) + 1) & (align - 1): the fewest bytes that make size a multiple of align. */
  function Padding(size: nat, align: nat): (p: nat)
    requires PowerOfTwoWidth(align)
    ensures p < align
  {
    if align == 1 then 0
    else if align == 2 then (if size % 2 == 0 then 0 else 1)
    else if align == 4 then (if size % 4 == 0 then 0 else 4 - size % 4)
    else if size % 8 == 0 then 0 else 8 - size % 8
  }

  /** Multiples of a width, with their quotient. */
  lemma Quotient(n: int, width: nat) returns (q: int)
    requires PowerOfTwoWidth(width) && n % width == 0
    ensures n == width * q
  {
    q := n / width;
  }

  lemma Multiple(n: int, width: nat, q: int)
    requires PowerOfTwoWidth(width) && n == width * q
    ensures n % width == 0
  {
    if width == 2 {
      assert 2 * q % 2 == 0;
    } else if width == 4 {
      assert 4 * q % 4 == 0;
    } else if width == 8 {
      assert 8 * q % 8 == 0;
    }
  }

  /** A multiple of a width is one of every smaller width. */
  lemma SmallerWidth(n: int, width: nat, less: nat)
    requires PowerOfTwoWidth(width) && PowerOfTwoWidth(less) && less <= width && n % width == 0
    ensures n % less == 0
  {
    var q := Quotient(n, width);
    if width == less {
    } else if width == 2 * less {
      Multiple(n, less, 2 * q);
    } else if width == 4 * less {
      Multiple(n, less, 4 * q);
    } else {
      Multiple(n, less, 8 * q);
    }
  }

  lemma DifferenceOfMultiples(a: int, b: int, width: nat)
    requires PowerOfTwoWidth(width) && a % width == 0 && b % width == 0
    ensures (a - b) % width == 0
  {
    var p := Quotient(a, width);
    var q := Quotient(b, width);
    assert a - b == width * (p - q);
    Multiple(a - b, width, p - q);
  }

  lemma PaddingAlignsTo2(size: nat)
    ensures (size + Padding(size, 2)) % 2 == 0 && (size % 2 == 0 ==> Padding(size, 2) == 0)
  {
  }

  lemma PaddingAlignsTo4(size: nat)
    ensures (size + Padding(size, 4)) % 4 == 0 && (size % 4 == 0 ==> Padding(size, 4) == 0)
  {
    var q, r := size / 4, size % 4;
    assert size == 4 * q + r;
    assert r != 0 ==> size + Padding(size, 4) == 4 * (q + 1);
  }

  lemma PaddingAlignsTo8(size: nat)
    ensures (size + Padding(size, 8)) % 8 == 0 && (size % 8 == 0 ==> Padding(size, 8) == 0)
  {
    var q, r := size / 8, size % 8;
    assert size == 8 * q + r;
    assert r != 0 ==> size + Padding(size, 8) == 8 * (q + 1);
  }

  lemma PaddingAligns(size: nat, align: nat)
    requires PowerOfTwoWidth(align)
    ensures (size + Padding(size, align)) % align == 0
    ensures size % align == 0 ==> Padding(size, align) == 0
  {
    hide Padding;
    if align == 1 {
      NoPadding(size);
    } else if align == 2 {
      PaddingAlignsTo2(size);
    } else if align == 4 {
      PaddingAlignsTo4(size);
    } else {
      PaddingAlignsTo8(size);
    }
  }

  lemma NoPadding(size: nat)
    ensures Padding(size, 1) == 0
  {
  }

  /** The bit trick of PaddingBytes, on the machine's 64-bit words. */
  lemma PaddingBits(size: bv64, align: bv64)
    requires align == 1 || align == 2 || align == 4 || align == 8
    ensures var p := ((!size) + 1) & (align - 1); p < align && (size + p) & (align - 1) == 0
  {
  }

  /** Align */
  function Aligned(buf: bytes, align: nat): (r: bytes)
    requires PowerOfTwoWidth(align)
    ensures Extends(buf, r) && |r| < |buf| + align
  {
    Zeros(Padding(|buf|, align)) + buf
  }

  lemma AlignedIsFixed(buf: bytes, align: nat)
    requires PowerOfTwoWidth(align) && |buf| % align == 0
    ensures Aligned(buf, align) == buf
  {
    PaddingAligns(|buf|, align);
  }

  /** PushElement of an integer: align, then store. */
  function Push(buf: bytes, v: nat, width: nat): (r: bytes)
    requires PowerOfTwoWidth(width)
    ensures Extends(buf, r) && |buf| + width <= |r| < |buf| + 2 * width
    ensures v < Pow256(width) ==> ReadLe(r, 0, width) == Some(v)
  {
    var r := Le(v, width) + Aligned(buf, width);
    assert r[0..width] == Le(v, width);
    assert v < Pow256(width) ==> Unle(Le(v, width)) == v by {
      if v < Pow256(width) {
        RoundTrip(v, width);
      }
    }
    ExtendsPrepend(Le(v, width), Aligned(buf, width));
    ExtendsTransitive(buf, Aligned(buf, width), r);
    r
  }

  lemma PushAligns(buf: bytes, v: nat, width: nat)
    requires PowerOfTwoWidth(width)
    ensures |Push(buf, v, width)| % width == 0
  {
    hide Padding;
    PaddingAligns(|buf|, width);
    var q := Quotient(|Aligned(buf, width)|, width);
    assert |Push(buf, v, width)| == width * (q + 1);
    Multiple(|Push(buf, v, width)|, width, q + 1);
  }

  /** ReferTo: the relative form that the distance off takes when it is stored next. */
  function Relative(buf: bytes, off: nat): (v: nat)
    requires off <= |buf|
  {
    |Aligned(buf, 4)| - off + 4
  }

  /** On an aligned buffer, a word is pushed without padding. */
  lemma PushOnAligned(a: bytes, v: nat)
    requires |a| % 4 == 0
    ensures |Push(a, v, 4)| == |a| + 4 && |Push(a, v, 4)| % 4 == 0
  {
    hide Padding;
    AlignedIsFixed(a, 4);
  }

  lemma AlignedTo4(buf: bytes)
    ensures |Aligned(buf, 4)| % 4 == 0
  {
    hide Padding;
    PaddingAlignsTo4(|buf|);
  }

  /** PushElement of an Offset. */
  function PushRef(buf: bytes, off: nat): (r: bytes)
    requires off <= |buf|
    ensures |r| % 4 == 0 && Extends(buf, r) && |buf| + 4 <= |r| < |buf| + 8
    ensures |r| < U32_LIMIT ==> ReadLe(r, 0, 4) == Some(|r| - off)
  {
    hide Padding, Aligned, Push, Extends, ReadLe;
    var a := Aligned(buf, 4);
    var r := Push(a, Relative(buf, off), 4);
    AlignedTo4(buf);
    PushOnAligned(a, Relative(buf, off));
    ExtendsLength(buf, a);
    Widths();
    ExtendsTransitive(buf, a, r);
    r
  }

  /** StartVector, PushBytes and EndVector: a byte vector. Its distance is the length of the result. */
  function PushBytes(buf: bytes, data: bytes): (r: bytes)
    ensures |buf| + |data| + 4 <= |r| < |buf| + |data| + 8
  {
    Le(|data|, 4) + (data + (Zeros(Padding(|buf| + |data|, 4)) + buf))
  }

  lemma PushBytesReads(buf: bytes, data: bytes)
    ensures var r := PushBytes(buf, data); Extends(buf, r) && |r| % 4 == 0
    ensures |data| < U32_LIMIT ==> GetBytes(PushBytes(buf, data), 0) == Some(data)
  {
    hide Padding, Le;
    PaddingAligns(|buf| + |data|, 4);
    VectorReads(data, Zeros(Padding(|buf| + |data|, 4)) + buf);
    var r := PushBytes(buf, data);
    assert r[|r| - |buf|..] == buf;
  }

  lemma ThreeParts(h: bytes, d: bytes, rest: bytes)
    ensures var r := h + (d + rest);
            |r| == |h| + |d| + |rest| && r[0..|h|] == h && r[|h|..|h| + |d|] == d
  {
  }

  lemma VectorReads(data: bytes, rest: bytes)
    ensures |data| < U32_LIMIT ==> GetBytes(Le(|data|, 4) + (data + rest), 0) == Some(data)
  {
    hide Le, Unle, Pow256;
    ThreeParts(Le(|data|, 4), data, rest);
    Widths();
    if |data| < U32_LIMIT {
      RoundTrip(|data|, 4);
    }
  }
}
