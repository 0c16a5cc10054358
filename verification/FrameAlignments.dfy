/**
Where the words of a frame's flatbuffer lie: every one that is stored starts at a multiple of its width, as the
machine's loads want it. While the buffer grows at the front, that is said of distances from its end; Finish then
pads the whole buffer, so that it holds of the positions.
*/
module FrameAlignments {
  import opened Bytes
  import opened FlatBuffers
  import opened FlatBufferTables
  import opened TxFrames

  /** The alignment that a frame's widest stored field needs: a channel or stream that is zero is not stored. */
  function FrameAlign(f: Frame): (align: nat)
    ensures align == 4 || align == 8
  {
    if f.channel != 0 || f.stream != 0 then 8 else 4
  }

  // ---------- seen from the end ----------

  ghost predicate FieldSpaced(buf: bytes, t: int, slot: nat, width: nat)
    requires width > 0
  {
    var fo := FieldOffset(buf, t, slot);
    fo.Some? && (fo.value != 0 ==> (|buf| - t - fo.value) % width == 0)
  }

  /** A reference and the object it leads to, which begins with a 32-bit word. */
  ghost predicate RefSpaced(buf: bytes, t: int, slot: nat) {
    && FieldSpaced(buf, t, slot, 4)
    && var p := GetPointer(buf, t, slot);
       p.Some? && (p.value.Some? ==> (|buf| - p.value.value) % 4 == 0)
  }

  ghost predicate LineSpaced(buf: bytes, d: nat) {
    && TableAligned(buf, d)
    && RefSpaced(buf, |buf| - d, 4) && RefSpaced(buf, |buf| - d, 6) && FieldSpaced(buf, |buf| - d, 8, 2)
  }

  lemma FieldSpacedStable(small: bytes, big: bytes, d: int, slot: nat, width: nat)
    requires Extends(small, big) && width > 0 && FieldSpaced(small, |small| - d, slot, width)
    ensures FieldSpaced(big, |big| - d, slot, width)
  {
    hide FieldOffset, Extends;
    FieldOffsetStable(small, big, d, slot);
  }

  lemma RefSpacedStable(small: bytes, big: bytes, d: int, slot: nat)
    requires Extends(small, big) && RefSpaced(small, |small| - d, slot)
    ensures RefSpaced(big, |big| - d, slot)
  {
    hide FieldSpaced, GetPointer, Extends;
    FieldSpacedStable(small, big, d, slot, 4);
    GetPointerStable(small, big, d, slot);
  }

  lemma TableAlignedStable(small: bytes, big: bytes, d: nat)
    requires Extends(small, big) && TableAligned(small, d)
    ensures TableAligned(big, d)
  {
    hide ReadLe, Extends;
    ReadLeStable(small, big, d, 4);
  }

  lemma LineSpacedStable(small: bytes, big: bytes, d: nat)
    requires Extends(small, big) && LineSpaced(small, d)
    ensures LineSpaced(big, d)
  {
    hide FieldSpaced, RefSpaced, TableAligned, Extends;
    TableAlignedStable(small, big, d);
    RefSpacedStable(small, big, d, 4);
    RefSpacedStable(small, big, d, 6);
    FieldSpacedStable(small, big, d, 8, 2);
  }

  lemma PlacedIsSpaced(buf: bytes, t: int, x: Add)
    requires PowerOfTwoWidth(x.Width()) && x.Placed(buf, t)
    ensures FieldSpaced(buf, t, x.slot, x.Width())
  {
    hide FieldOffset;
  }

  lemma RefIsSpaced(buf: bytes, t: int, x: Add)
    requires x.Ref? && x.Placed(buf, t) && x.Reads(buf, t) && x.off % 4 == 0
    ensures RefSpaced(buf, t, x.slot)
  {
    hide FieldOffset, GetPointer;
    PlacedIsSpaced(buf, t, x);
  }

  lemma BytesOffsetAligned(buf: bytes, data: Option<bytes>)
    ensures BytesOffset(buf, data) % 4 == 0
  {
    hide PushBytes;
    if data.Some? {
      PushBytesReads(buf, data.value);
    }
  }

  lemma BuildLineSpaced(b: Builder, l: HeaderLine)
    requires BuilderOk(b) && LineInRange(l) && BuildLine(b, l).Some?
    ensures var r := BuildLine(b, l).value; LineSpaced(r.b.buf, r.loc)
  {
    hide Padding, Aligned, Table, AddsOk, VTablesOk, PushBytes, AddBytes, BytesOffset, Extends;
    hide FieldSpaced, RefSpaced, TableAligned, Add.Placed, Add.Reads;
    var b1 := AddBytes(b.buf, l.key);
    var b2 := AddBytes(b1, l.value);
    var adds := LineAdds(BytesOffset(b.buf, l.key), BytesOffset(b1, l.value), l.id);
    LineAddsOk(b.buf, l);
    AddBytesReads(b.buf, l.key);
    AddBytesReads(b1, l.value);
    ExtendsTransitive(b.buf, b1, b2);
    VTablesStable(b.buf, b2, b.vtables);
    BytesOffsetAligned(b.buf, l.key);
    BytesOffsetAligned(b1, l.value);
    TableAligns(b2, adds, 3, b.vtables);
    TableReads(b2, adds, 3, b.vtables, adds[0]);
    TableReads(b2, adds, 3, b.vtables, adds[1]);
    TableReads(b2, adds, 3, b.vtables, adds[2]);
    var r := BuildLine(b, l).value;
    var t := |r.b.buf| - r.loc;
    RefIsSpaced(r.b.buf, t, adds[0]);
    RefIsSpaced(r.b.buf, t, adds[1]);
    PlacedIsSpaced(r.b.buf, t, adds[2]);
  }

  ghost predicate LinesSpaced(buf: bytes, locs: seq<nat>) {
    forall d <- locs :: LineSpaced(buf, d)
  }

  lemma LinesSpacedStable(small: bytes, big: bytes, locs: seq<nat>)
    requires Extends(small, big) && LinesSpaced(small, locs)
    ensures LinesSpaced(big, locs)
  {
    hide LineSpaced, Extends;
    forall d | d in locs
      ensures LineSpaced(big, d)
    {
      LineSpacedStable(small, big, d);
    }
  }

  lemma {:induction false} BuildLinesSpaced(b: Builder, lines: seq<HeaderLine>)
    requires BuilderOk(b) && (forall l :: l in lines ==> LineInRange(l)) && BuildLines(b, lines).Some?
    ensures var r := BuildLines(b, lines).value; LinesSpaced(r.b.buf, r.locs)
  {
    hide BuildLine, BuilderOk, LineSpaced, ReadLine, Extends;
    if lines != [] {
      var n := |lines| - 1;
      BuildLinesSpaced(b, lines[..n]);
      BuildLinesRead(b, lines[..n]);
      var before := BuildLines(b, lines[..n]).value;
      BuildLineReads(before.b, lines[n]);
      BuildLineSpaced(before.b, lines[n]);
      LinesSpacedStable(before.b.buf, BuildLines(b, lines).value.b.buf, before.locs);
    }
  }

  /** The header vector at this distance, and the lines it refers to. */
  ghost predicate HeadersSpaced(buf: bytes, off: nat, headers: Option<seq<HeaderLine>>) {
    && off % 4 == 0
    && (headers.Some? ==>
          off <= |buf| &&
          exists locs: seq<nat> ::
            |locs| == |headers.value| && RefsAt(buf, |buf| - off, locs) && LinesSpaced(buf, locs))
  }

  lemma BuildHeadersSpaced(b: Builder, headers: Option<seq<HeaderLine>>)
    requires headers.Some? ==> forall l :: l in headers.value ==> LineInRange(l)
    requires BuilderOk(b) && BuildHeaders(b, headers).Some?
    requires |BuildHeaders(b, headers).value.b.buf| < U32_LIMIT
    ensures var r := BuildHeaders(b, headers).value; HeadersSpaced(r.b.buf, r.loc, headers)
  {
    hide Padding, Aligned, Extends, RefsAt, LinesAt, PushRefVector, BuildLines, BuilderOk, LinesSpaced;
    if headers.Some? {
      BuildLinesRead(b, headers.value);
      BuildLinesSpaced(b, headers.value);
      var r := BuildLines(b, headers.value).value;
      LocsInside(r.b.buf, r.locs, headers.value);
      PushRefVectorReads(r.b.buf, r.locs);
      PushRefVectorAligned(r.b.buf, r.locs);
      LinesSpacedStable(r.b.buf, PushRefVector(r.b.buf, r.locs), r.locs);
    }
  }

  lemma PushRefVectorAligned(buf: bytes, locs: seq<nat>)
    requires forall i :: 0 <= i < |locs| ==> locs[i] <= |buf|
    ensures |PushRefVector(buf, locs)| % 4 == 0
  {
    hide PushRefs, Padding, Push, Zeros;
    PushAligns(PushRefs(Zeros(Padding(|buf| + 4 * |locs|, 4)) + buf, locs), |locs|, 4);
  }

  lemma HeadersSpacedStable(small: bytes, big: bytes, off: nat, headers: Option<seq<HeaderLine>>)
    requires Extends(small, big) && HeadersSpaced(small, off, headers)
    ensures HeadersSpaced(big, off, headers)
  {
    hide RefsAt, LinesSpaced, Extends;
    ExtendsLength(small, big);
    if headers.Some? {
      var locs: seq<nat> :|
        |locs| == |headers.value| && RefsAt(small, |small| - off, locs) && LinesSpaced(small, locs);
      RefsAtStable(small, big, off, locs);
      LinesSpacedStable(small, big, locs);
    }
  }

  // ---------- seen from the start of the finished buffer ----------

  /** The field is not stored, or is at a position that is a multiple of its width. */
  ghost predicate FieldAligned(buf: bytes, t: int, slot: nat, width: nat)
    requires width > 0
  {
    var fo := FieldOffset(buf, t, slot);
    fo.Some? && (fo.value != 0 ==> (t + fo.value) % width == 0)
  }

  ghost predicate RefAligned(buf: bytes, t: int, slot: nat) {
    && FieldAligned(buf, t, slot, 4)
    && var p := GetPointer(buf, t, slot);
       p.Some? && (p.value.Some? ==> p.value.value % 4 == 0)
  }

  /** The table at position t begins with a 32-bit word, and its vtable consists of 16-bit words. */
  ghost predicate StartAligned(buf: bytes, t: int) {
    var soff := ReadSigned(buf, t);
    t % 4 == 0 && soff.Some? && (t - soff.value) % 2 == 0
  }

  ghost predicate LineAligned(buf: bytes, t: int) {
    StartAligned(buf, t) && RefAligned(buf, t, 4) && RefAligned(buf, t, 6) && FieldAligned(buf, t, 8, 2)
  }

  /** The table of every line that the vector refers to. */
  ghost predicate LinesAligned(buf: bytes, vec: int) {
    var n := ReadLe(buf, vec, 4);
    n.Some? && forall i: nat :: i < n.value ==>
      var t := GetRef(buf, vec, i);
      t.Some? && LineAligned(buf, t.value)
  }

  /** Every word of the frame: those of its table, of its header lines, and the lengths of its vectors. */
  ghost predicate FrameAligned(buf: bytes) {
    var root := GetRoot(buf);
    && root.Some?
    && var t := root.value;
       && StartAligned(buf, t) && FieldAligned(buf, t, 10, 8) && FieldAligned(buf, t, 12, 8)
       && RefAligned(buf, t, 14) && RefAligned(buf, t, 16)
       && (GetPointer(buf, t, 14).value.Some? ==> LinesAligned(buf, GetPointer(buf, t, 14).value.value))
  }

  lemma FromStart(size: nat, pos: int, width: nat)
    requires PowerOfTwoWidth(width) && size % width == 0 && (size - pos) % width == 0
    ensures pos % width == 0
  {
    DifferenceOfMultiples(size, size - pos, width);
    assert size - (size - pos) == pos;
  }

  lemma FieldTurned(buf: bytes, t: int, slot: nat, width: nat)
    requires PowerOfTwoWidth(width) && FieldSpaced(buf, t, slot, width)
    requires FieldOffset(buf, t, slot) == Some(0) || |buf| % width == 0
    ensures FieldAligned(buf, t, slot, width)
  {
    hide FieldOffset, PowerOfTwoWidth;
    var fo := FieldOffset(buf, t, slot).value;
    if fo != 0 {
      assert |buf| - t - fo == |buf| - (t + fo);
      FromStart(|buf|, t + fo, width);
    }
  }

  lemma RefTurned(buf: bytes, t: int, slot: nat)
    requires |buf| % 4 == 0 && RefSpaced(buf, t, slot)
    ensures RefAligned(buf, t, slot)
  {
    hide FieldSpaced, FieldAligned, GetPointer;
    FieldTurned(buf, t, slot, 4);
    var p := GetPointer(buf, t, slot).value;
    if p.Some? {
      FromStart(|buf|, p.value, 4);
    }
  }

  lemma StartTurned(buf: bytes, d: nat)
    requires |buf| % 4 == 0 && TableAligned(buf, d)
    ensures StartAligned(buf, |buf| - d)
  {
    hide ReadSigned;
    var soff := ReadSigned(buf, |buf| - d).value;
    FromStart(|buf|, |buf| - d, 4);
    SmallerWidth(|buf|, 4, 2);
    FromStart(|buf|, |buf| - d - soff, 2);
  }

  lemma LineTurned(buf: bytes, d: nat)
    requires |buf| % 4 == 0 && LineSpaced(buf, d)
    ensures LineAligned(buf, |buf| - d)
  {
    hide FieldSpaced, FieldAligned, RefSpaced, RefAligned, TableAligned, StartAligned;
    StartTurned(buf, d);
    RefTurned(buf, |buf| - d, 4);
    RefTurned(buf, |buf| - d, 6);
    SmallerWidth(|buf|, 4, 2);
    FieldTurned(buf, |buf| - d, 8, 2);
  }

  lemma LinesTurned(buf: bytes, off: nat, headers: Option<seq<HeaderLine>>)
    requires |buf| % 4 == 0 && headers.Some? && HeadersSpaced(buf, off, headers)
    ensures LinesAligned(buf, |buf| - off)
  {
    hide LineSpaced, LineAligned, ReadLe, GetRef;
    var locs: seq<nat> :|
      |locs| == |headers.value| && RefsAt(buf, |buf| - off, locs) && LinesSpaced(buf, locs);
    forall i: nat | i < |locs|
      ensures LineAligned(buf, |buf| - locs[i])
    {
      LineTurned(buf, locs[i]);
    }
  }

  /** Finish leaves a multiple of the alignment it is given. */
  lemma FinishAligns(buf: bytes, root: nat, align: nat)
    requires PowerOfTwoWidth(align) && root <= |buf|
    ensures |Finish(buf, root, align)| % align == 0 && |Finish(buf, root, align)| % 4 == 0
  {
    hide Padding, PowerOfTwoWidth;
    var p := Padding(|buf| + 4, align);
    PaddingAligns(|buf| + 4, align);
    var padded := Zeros(p) + buf;
    assert |padded| + 4 == |buf| + 4 + p;
    if align >= 4 {
      SmallerWidth(|padded| + 4, align, 4);
      DifferenceOfMultiples(|padded| + 4, 4, 4);
      PushRefAligned(padded, root);
    } else {
      SmallerWidth(|Finish(buf, root, align)|, 4, align);
    }
  }

  /** A 64-bit field is stored only if the whole buffer is padded for it. */
  lemma WideFieldAligned(buf: bytes, t: int, x: Add)
    requires x.Scalar? && x.width == 8 && x.Placed(buf, t) && (x.v != 0 ==> |buf| % 8 == 0)
    ensures FieldAligned(buf, t, x.slot, 8)
  {
    hide FieldOffset;
    PlacedIsSpaced(buf, t, x);
    FieldTurned(buf, t, x.slot, 8);
  }

  /** The frame's own table, in front of everything else. */
  lemma FrameTableAligned(buf: bytes, adds: seq<Add>, vtables: seq<nat>, big: bytes, x: Add)
    requires AddsOk(adds, 7, |buf|) && x in adds && Table(buf, adds, 7, vtables).Some?
    requires Extends(Table(buf, adds, 7, vtables).value.buf, big)
    ensures x.Placed(big, |big| - Table(buf, adds, 7, vtables).value.loc)
    ensures x.Ref? && x.off % 4 == 0 ==> RefSpaced(big, |big| - Table(buf, adds, 7, vtables).value.loc, x.slot)
  {
    hide Table, AddsOk, Extends, FieldOffset, GetPointer, Add.Reads, RefSpaced;
    TableReads(buf, adds, 7, vtables, x);
    var r := Table(buf, adds, 7, vtables).value;
    FieldOffsetStable(r.buf, big, r.loc, x.slot);
    if x.Ref? && x.off % 4 == 0 {
      RefIsSpaced(r.buf, |r.buf| - r.loc, x);
      RefSpacedStable(r.buf, big, r.loc, x.slot);
    }
  }

  lemma FrameRefAligned(big: bytes, d: nat, x: Add)
    requires |big| % 4 == 0 && x.Ref? && RefSpaced(big, |big| - d, x.slot)
    ensures RefAligned(big, |big| - d, x.slot)
  {
    hide RefSpaced, RefAligned;
    RefTurned(big, |big| - d, x.slot);
  }

  /** A pointer to the headers exists only if there are headers, and leads to their vector. */
  lemma HeadersTurned(big: bytes, d: nat, off: nat, headers: Option<seq<HeaderLine>>)
    requires |big| % 4 == 0 && HeadersSpaced(big, off, headers) && (headers.None? ==> off == 0)
    requires Ref(14, off).Reads(big, |big| - d)
    ensures var p := GetPointer(big, |big| - d, 14);
            p.Some? && (p.value.Some? ==> LinesAligned(big, p.value.value))
  {
    hide GetPointer, LinesAligned, HeadersSpaced;
    if off != 0 {
      LinesTurned(big, off, headers);
    }
  }

  /**
  Every stored word of a frame's flatbuffer lies at a multiple of its width, and the whole is a multiple of the
  alignment, if that is the one that its fields need, or larger.
  */
  lemma FrameIsAligned(f: Frame, align: nat)
    requires FrameInRange(f) && PowerOfTwoWidth(align) && FrameAlign(f) <= align && BuildFrame(f, align).Some?
    ensures FrameAligned(BuildFrame(f, align).value) && |BuildFrame(f, align).value| % align == 0
  {
    hide BuildFrame, BuildHeaders, Finish, Table, AddsOk, Extends, AddBytes, BytesOffset, VTablesOk, PushBytes;
    hide FieldSpaced, RefSpaced, TableAligned, FieldAligned, RefAligned, StartAligned, HeadersSpaced, LinesAligned;
    hide Add.Placed, Add.Reads, GetPointer, GetRoot;
    var buf, h, t := FrameSteps(f, align);
    FrameFinished(f, align, h, t);
    var body := BytesOffset([], f.body);
    var adds := FrameAdds(f, h.loc, body);
    var r := Finish(t.buf, t.loc, align);
    FinishAligns(t.buf, t.loc, align);
    FinishReads(t.buf, t.loc, align);
    BytesOffsetAligned([], f.body);
    TableExtends(h.b.buf, adds, 7, h.b.vtables);
    ExtendsLength(h.b.buf, t.buf);
    BuildHeadersSpaced(Builder(buf, []), f.headers);
    ExtendsTransitive(h.b.buf, t.buf, r);
    HeadersSpacedStable(h.b.buf, r, h.loc, f.headers);
    HeadersOffsetAligned(h.b.buf, h.loc, f.headers);
    TableAligns(h.b.buf, adds, 7, h.b.vtables);
    TableAlignedStable(t.buf, r, t.loc);
    StartTurned(r, t.loc);
    forall x | x in adds
      ensures x.Placed(r, |r| - t.loc) && (x.Ref? && x.off % 4 == 0 ==> RefSpaced(r, |r| - t.loc, x.slot))
      ensures x.Reads(r, |r| - t.loc)
    {
      FrameTableAligned(h.b.buf, adds, h.b.vtables, r, x);
      TableReads(h.b.buf, adds, 7, h.b.vtables, x);
      ReadsStable(t.buf, r, t.loc, x);
    }
    assert adds[3] in adds && adds[4] in adds && adds[5] in adds && adds[6] in adds;
    WideFieldAligned(r, |r| - t.loc, adds[3]);
    WideFieldAligned(r, |r| - t.loc, adds[4]);
    FrameRefAligned(r, t.loc, adds[5]);
    FrameRefAligned(r, t.loc, adds[6]);
    NoHeadersNoOffset(Builder(buf, []), f.headers);
    HeadersTurned(r, t.loc, h.loc, f.headers);
  }

  lemma HeadersOffsetAligned(buf: bytes, off: nat, headers: Option<seq<HeaderLine>>)
    requires HeadersSpaced(buf, off, headers)
    ensures off % 4 == 0
  {
  }

  lemma NoHeadersNoOffset(b: Builder, headers: Option<seq<HeaderLine>>)
    requires headers.Some? ==> forall l :: l in headers.value ==> LineInRange(l)
    requires BuilderOk(b) && BuildHeaders(b, headers).Some?
    ensures headers.None? ==> BuildHeaders(b, headers).value.loc == 0
  {
  }
}
