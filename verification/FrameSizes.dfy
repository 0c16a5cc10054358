/** How large a frame's flatbuffer gets: building succeeds for every frame that is not close to two gigabytes. */
module FrameSizes {
  import opened Bytes
  import opened FlatBuffers
  import opened FlatBufferTables
  import opened TxFrames

  function LengthOf(data: Option<bytes>): nat {
    if data.Some? then |data.value| else 0
  }

  /** Bounds on what a line, a list of lines and a frame take, padding and tables included. */
  function LineSpan(l: HeaderLine): nat {
    LengthOf(l.key) + LengthOf(l.value) + 80
  }

  function LinesSpan(lines: seq<HeaderLine>): nat {
    if lines == [] then 0 else LinesSpan(lines[..|lines| - 1]) + LineSpan(lines[|lines| - 1])
  }

  function HeadersSpan(headers: Option<seq<HeaderLine>>): nat {
    if headers.None? then 0 else LinesSpan(headers.value) + 8 * |headers.value| + 12
  }

  function FrameSpan(f: Frame): nat {
    LengthOf(f.body) + 8 + HeadersSpan(f.headers) + 150
  }

  lemma AddBytesSize(buf: bytes, data: Option<bytes>)
    ensures |AddBytes(buf, data)| <= |buf| + LengthOf(data) + 8
  {
  }

  /** A table takes at most fifteen bytes a field, its own word and its vtable. */
  lemma TableSize(buf: bytes, adds: seq<Add>, fields: nat, vtables: seq<nat>)
    requires AddsOk(adds, fields, |buf|)
    requires |buf| + 15 * |adds| + 2 * fields + 11 < MAX_BUFFER
    ensures var r := Table(buf, adds, fields, vtables);
            r.Some? && |r.value.buf| <= |buf| + 15 * |adds| + 2 * fields + 11
  {
    hide AddAll, Padding, LocsOk, Link;
    var p := AddAll(buf, adds);
    TableLocsOk(buf, adds, fields);
    var a := Aligned(p.buf, 4);
    LinkSize(a, VTable(fields, |buf|, |a| + 4, p.locs), vtables);
  }

  lemma LinkSize(a: bytes, v: bytes, vtables: seq<nat>)
    requires |a| + 4 + |v| < 0x8000_0000
    ensures |Link(a, v, vtables).buf| <= |a| + 4 + |v|
  {
  }

  lemma LineSize(b: Builder, l: HeaderLine)
    requires LineInRange(l) && |b.buf| + LineSpan(l) < MAX_BUFFER
    ensures BuildLine(b, l).Some? && |BuildLine(b, l).value.b.buf| <= |b.buf| + LineSpan(l)
  {
    hide Table, AddBytes, BytesOffset, AddsOk;
    var b1 := AddBytes(b.buf, l.key);
    var b2 := AddBytes(b1, l.value);
    AddBytesSize(b.buf, l.key);
    AddBytesSize(b1, l.value);
    LineAddsOk(b.buf, l);
    TableSize(b2, LineAdds(BytesOffset(b.buf, l.key), BytesOffset(b1, l.value), l.id), 3, b.vtables);
  }

  lemma {:induction false} LinesSize(b: Builder, lines: seq<HeaderLine>)
    requires (forall l :: l in lines ==> LineInRange(l)) && |b.buf| + LinesSpan(lines) < MAX_BUFFER
    ensures BuildLines(b, lines).Some? && |BuildLines(b, lines).value.b.buf| <= |b.buf| + LinesSpan(lines)
    decreases |lines|
  {
    hide BuildLine, LineSpan, LineInRange;
    if lines != [] {
      var n := |lines| - 1;
      LinesSize(b, lines[..n]);
      LineSize(BuildLines(b, lines[..n]).value.b, lines[n]);
    }
  }

  lemma {:induction false} PushRefsSize(buf: bytes, locs: seq<nat>)
    requires forall i :: 0 <= i < |locs| ==> locs[i] <= |buf|
    ensures |PushRefs(buf, locs)| <= |buf| + 8 * |locs|
    decreases |locs|
  {
    hide PushRef, Extends;
    if locs != [] {
      PushRefsSize(buf, locs[1..]);
    }
  }

  lemma RefVectorSize(buf: bytes, locs: seq<nat>)
    requires forall i :: 0 <= i < |locs| ==> locs[i] <= |buf|
    ensures |PushRefVector(buf, locs)| <= |buf| + 8 * |locs| + 12
  {
    hide Padding, PushRefs, Push;
    PushRefsSize(Zeros(Padding(|buf| + 4 * |locs|, 4)) + buf, locs);
  }

  lemma HeadersSize(b: Builder, headers: Option<seq<HeaderLine>>)
    requires (headers.Some? ==> forall l :: l in headers.value ==> LineInRange(l)) && BuilderOk(b)
    requires |b.buf| + HeadersSpan(headers) < MAX_BUFFER
    ensures BuildHeaders(b, headers).Some? && |BuildHeaders(b, headers).value.b.buf| <= |b.buf| + HeadersSpan(headers)
  {
    hide BuildLines, PushRefVector, LineInRange, LinesSpan, BuilderOk, LinesAt;
    if headers.Some? {
      LinesSize(b, headers.value);
      var r := BuildLines(b, headers.value).value;
      BuildLinesRead(b, headers.value);
      LocsInside(r.b.buf, r.locs, headers.value);
      RefVectorSize(r.b.buf, r.locs);
    }
  }

  /** Building is refused only near the size limit, so the round trip covers every frame below it. */
  lemma SmallFrameBuilds(f: Frame, align: nat)
    requires FrameInRange(f) && PowerOfTwoWidth(align) && FrameSpan(f) < MAX_BUFFER
    ensures BuildFrame(f, align).Some? && |BuildFrame(f, align).value| <= FrameSpan(f)
  {
    hide Table, AddBytes, BytesOffset, AddsOk, BuildHeaders, Finish, HeadersSpan, LineInRange;
    var buf := AddBytes([], f.body);
    AddBytesSize([], f.body);
    NoVTables(buf);
    HeadersSize(Builder(buf, []), f.headers);
    var h := BuildHeaders(Builder(buf, []), f.headers).value;
    OffsetInside(f.body);
    var adds := FrameAdds(f, h.loc, BytesOffset([], f.body));
    FrameAddsOk(f, h.loc, BytesOffset([], f.body), |h.b.buf|);
    TableSize(h.b.buf, adds, 7, h.b.vtables);
    FrameTableLoc(h.b, adds);
    var t := Table(h.b.buf, adds, 7, h.b.vtables).value;
    FinishSize(t.buf, t.loc, align);
  }

  lemma OffsetInside(body: Option<bytes>)
    ensures BytesOffset([], body) <= |AddBytes([], body)|
  {
  }

  lemma FinishSize(buf: bytes, root: nat, align: nat)
    requires PowerOfTwoWidth(align) && root <= |buf|
    ensures |Finish(buf, root, align)| <= |buf| + 15
  {
    hide Padding;
  }

  /** The round trip for every frame under the size limit: its flatbuffer is built, and reads back as the frame. */
  lemma EveryFrameRoundTrips(f: Frame, align: nat)
    requires FrameInRange(f) && PowerOfTwoWidth(align) && FrameSpan(f) < MAX_BUFFER
    ensures BuildFrame(f, align).Some? && ReadFrame(BuildFrame(f, align).value) == Some(f)
  {
    hide BuildFrame, ReadFrame, FrameSpan;
    SmallFrameBuilds(f, align);
    FrameRoundTrip(f, align);
  }
}
