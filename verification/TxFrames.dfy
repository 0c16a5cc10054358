/**
The frame schema on top of the FlatBuffer layout: what the generated accessors read and what CreateTxHeaderLine,
CreateVector, TxFrameBuilder and Finish write, called in the order in which Response::FinishFlatbuffer calls them.
*/
module TxFrames {
  import opened Bytes
  import opened FlatBuffers
  import opened FlatBufferTables

  /** An absent key, value, header list or body is a null vector, which differs from an empty one. */
  datatype HeaderLine = HeaderLine(key: Option<bytes>, value: Option<bytes>, id: nat)

  datatype Frame = Frame(
    frametype: nat,
    version: nat,
    flags: nat,
    channel: nat,
    stream: nat,
    headers: Option<seq<HeaderLine>>,
    body: Option<bytes>)

  const FRAME_HEADER := 0
  const FRAME_BODY := 1
  const FRAME_ABORT := 2
  const FRAME_PAUSE := 3
  const FRAME_RESUME := 4

  predicate IsFinal(f: Frame) {
    f.flags % 2 == 1
  }

  /** The Final flag is the lowest bit, whatever the other bits are. */
  lemma FinalIsLowestBit(f: Frame, others: nat, lowest: nat)
    requires f.flags == 2 * others + lowest && lowest < 2
    ensures IsFinal(f) <==> lowest == 1
  {
  }

  /** An absent vector reads as an empty one. */
  function BytesIn(b: Option<bytes>): bytes {
    if b.Some? then b.value else []
  }

  ghost predicate LineInRange(l: HeaderLine) {
    l.id < U16_LIMIT
  }

  ghost predicate FrameInRange(f: Frame) {
    && f.frametype < 256 && f.version < 256 && f.flags < 256 && f.channel < U64_LIMIT && f.stream < U64_LIMIT
    && (f.headers.Some? ==> forall l :: l in f.headers.value ==> LineInRange(l))
  }

  // ---------- reading ----------

  function GetOptionalBytes(buf: bytes, table: int, slot: nat): Option<Option<bytes>> {
    var p :- GetPointer(buf, table, slot);
    match p
    case None => Some(None)
    case Some(vec) =>
      var data :- GetBytes(buf, vec);
      Some(Some(data))
  }

  function ReadLine(buf: bytes, table: int): Option<HeaderLine> {
    var key :- GetOptionalBytes(buf, table, 4);
    var value :- GetOptionalBytes(buf, table, 6);
    var id :- GetField(buf, table, 8, 2, 0);
    Some(HeaderLine(key, value, id))
  }

  /** The lines i, i+1, ... of the vector of n lines at position vec. */
  function ReadLines(buf: bytes, vec: int, n: nat, i: nat): Option<seq<HeaderLine>>
    requires i <= n
    decreases n - i
  {
    if i == n then Some([])
    else
      var table :- GetRef(buf, vec, i);
      var line :- ReadLine(buf, table);
      var rest :- ReadLines(buf, vec, n, i + 1);
      Some([line] + rest)
  }

  function ReadHeaders(buf: bytes, table: int): Option<Option<seq<HeaderLine>>> {
    var p :- GetPointer(buf, table, 14);
    match p
    case None => Some(None)
    case Some(vec) =>
      var n :- ReadLe(buf, vec, 4);
      var lines :- ReadLines(buf, vec, n, 0);
      Some(Some(lines))
  }

  function ReadFrame(buf: bytes): Option<Frame> {
    var table :- GetRoot(buf);
    var frametype :- GetField(buf, table, 4, 1, 0);
    var version :- GetField(buf, table, 6, 1, 0);
    var flags :- GetField(buf, table, 8, 1, 0);
    var channel :- GetField(buf, table, 10, 8, 0);
    var stream :- GetField(buf, table, 12, 8, 0);
    var headers :- ReadHeaders(buf, table);
    var body :- GetOptionalBytes(buf, table, 16);
    Some(Frame(frametype, version, flags, channel, stream, headers, body))
  }

  // ---------- writing ----------

  /** A builder between two objects: its bytes and the distances of the vtables it remembers. */
  datatype Builder = Builder(buf: bytes, vtables: seq<nat>)

  ghost predicate BuilderOk(b: Builder) {
    VTablesOk(b.buf, b.vtables)
  }

  /** CreateVector of bytes unless absent. */
  function AddBytes(buf: bytes, data: Option<bytes>): (r: bytes) {
    if data.Some? then PushBytes(buf, data.value) else buf
  }

  /** The distance AddBytes returns: that of the vector, or 0 for none. */
  function BytesOffset(buf: bytes, data: Option<bytes>): (off: nat) {
    if data.Some? then |PushBytes(buf, data.value)| else 0
  }

  /** The add calls of CreateTxHeaderLine. */
  function LineAdds(key: nat, value: nat, id: nat): seq<Add> {
    [Ref(6, value), Ref(4, key), Scalar(8, 2, id)]
  }

  datatype Built = Built(b: Builder, loc: nat)

  lemma LineAddsOk(buf: bytes, l: HeaderLine)
    requires LineInRange(l)
    ensures var b1 := AddBytes(buf, l.key);
            var b2 := AddBytes(b1, l.value);
            AddsOk(LineAdds(BytesOffset(buf, l.key), BytesOffset(b1, l.value), l.id), 3, |b2|)
  {
    Widths();
  }

  function BuildLine(b: Builder, l: HeaderLine): Option<Built>
    requires LineInRange(l)
  {
    var b1 := AddBytes(b.buf, l.key);
    var b2 := AddBytes(b1, l.value);
    LineAddsOk(b.buf, l);
    var r :- Table(b2, LineAdds(BytesOffset(b.buf, l.key), BytesOffset(b1, l.value), l.id), 3, b.vtables);
    Some(Built(Builder(r.buf, r.vtables), r.loc))
  }

  lemma AddBytesReads(buf: bytes, data: Option<bytes>)
    ensures var r := AddBytes(buf, data);
            && Extends(buf, r) && |buf| <= |r| && BytesOffset(buf, data) <= |r|
            && (data.None? ==> BytesOffset(buf, data) == 0)
            && (data.Some? && |r| < U32_LIMIT ==>
                  GetBytes(r, |r| - BytesOffset(buf, data)) == data && BytesOffset(buf, data) > 0)
  {
    hide Padding, PushBytes, ReadLe;
    if data.Some? {
      PushBytesReads(buf, data.value);
    }
  }

  /** A vector that was in the buffer before the table is what the table's pointer leads to. */
  lemma OptionalBytesRead(before: bytes, data: Option<bytes>, off: nat, buf: bytes, table: int, slot: nat)
    requires Extends(before, buf)
    requires data.None? ==> off == 0
    requires data.Some? ==> off > 0 && GetBytes(before, |before| - off) == data
    requires Ref(slot, off).Reads(buf, table)
    ensures GetOptionalBytes(buf, table, slot) == Some(data)
  {
    if data.Some? {
      GetBytesStable(before, buf, off);
    }
  }

  /** One header line reads back, whether or not its vtable is new. */
  lemma BuildLineReads(b: Builder, l: HeaderLine)
    requires BuilderOk(b) && LineInRange(l) && BuildLine(b, l).Some?
    ensures var r := BuildLine(b, l).value;
            && BuilderOk(r.b) && Extends(b.buf, r.b.buf) && |b.buf| < r.loc <= |r.b.buf| < 0x8000_0000
            && ReadLine(r.b.buf, |r.b.buf| - r.loc) == Some(l)
  {
    hide Padding, Aligned, Table, AddsOk, VTablesOk, ReadLe, GetBytes, GetPointer, GetField, PushBytes, AddBytes;
    hide BytesOffset;
    hide Extends;
    var b1 := AddBytes(b.buf, l.key);
    var b2 := AddBytes(b1, l.value);
    var k, v := BytesOffset(b.buf, l.key), BytesOffset(b1, l.value);
    var adds := LineAdds(k, v, l.id);
    LineAddsOk(b.buf, l);
    AddBytesReads(b.buf, l.key);
    AddBytesReads(b1, l.value);
    ExtendsTransitive(b.buf, b1, b2);
    VTablesStable(b.buf, b2, b.vtables);
    TableExtends(b2, adds, 3, b.vtables);
    TableKeepsVTables(b2, adds, 3, b.vtables);
    var r := BuildLine(b, l).value;
    ExtendsTransitive(b.buf, b2, r.b.buf);
    ExtendsTransitive(b1, b2, r.b.buf);
    TableReads(b2, adds, 3, b.vtables, adds[0]);
    TableReads(b2, adds, 3, b.vtables, adds[1]);
    TableReads(b2, adds, 3, b.vtables, adds[2]);
    var t := |r.b.buf| - r.loc;
    OptionalBytesRead(b1, l.key, k, r.b.buf, t, 4);
    OptionalBytesRead(b2, l.value, v, r.b.buf, t, 6);
  }

  lemma GetOptionalBytesStable(small: bytes, big: bytes, d: int, slot: nat)
    requires Extends(small, big) && GetOptionalBytes(small, |small| - d, slot).Some?
    ensures GetOptionalBytes(big, |big| - d, slot) == GetOptionalBytes(small, |small| - d, slot)
  {
    hide ReadLe, GetPointer, GetBytes, Extends;
    GetPointerStable(small, big, d, slot);
    var p := GetPointer(small, |small| - d, slot).value;
    if p.Some? {
      GetBytesStable(small, big, |small| - p.value);
    }
  }

  lemma ReadLineStable(small: bytes, big: bytes, d: int)
    requires Extends(small, big) && ReadLine(small, |small| - d).Some?
    ensures ReadLine(big, |big| - d) == ReadLine(small, |small| - d)
  {
    hide ReadLe, GetField, GetPointer, GetBytes, GetOptionalBytes, Extends;
    GetOptionalBytesStable(small, big, d, 4);
    GetOptionalBytesStable(small, big, d, 6);
    GetFieldStable(small, big, d, 8, 2, 0);
  }

  datatype BuiltLines = BuiltLines(b: Builder, locs: seq<nat>)

  function BuildLines(b: Builder, lines: seq<HeaderLine>): (r: Option<BuiltLines>)
    requires forall l :: l in lines ==> LineInRange(l)
    ensures r.Some? ==> |r.value.locs| == |lines|
  {
    if lines == [] then Some(BuiltLines(b, []))
    else
      var n := |lines| - 1;
      var before :- BuildLines(b, lines[..n]);
      var last :- BuildLine(before.b, lines[n]);
      Some(BuiltLines(last.b, before.locs + [last.loc]))
  }

  /** The tables at these distances are the given lines. */
  ghost predicate LinesAt(buf: bytes, locs: seq<nat>, lines: seq<HeaderLine>) {
    |locs| == |lines| &&
    forall i :: 0 <= i < |locs| ==> 0 < locs[i] <= |buf| && ReadLine(buf, |buf| - locs[i]) == Some(lines[i])
  }

  lemma LinesAtStable(small: bytes, big: bytes, locs: seq<nat>, lines: seq<HeaderLine>)
    requires Extends(small, big) && LinesAt(small, locs, lines)
    ensures LinesAt(big, locs, lines)
  {
    hide ReadLine, Extends;
    ExtendsLength(small, big);
    forall i | 0 <= i < |locs|
      ensures ReadLine(big, |big| - locs[i]) == Some(lines[i])
    {
      ReadLineStable(small, big, locs[i]);
    }
  }

  lemma ExtendsRefl(buf: bytes)
    ensures Extends(buf, buf)
  {
  }

  lemma {:induction false} BuildLinesRead(b: Builder, lines: seq<HeaderLine>)
    requires BuilderOk(b) && (forall l :: l in lines ==> LineInRange(l)) && BuildLines(b, lines).Some?
    ensures var r := BuildLines(b, lines).value;
            BuilderOk(r.b) && Extends(b.buf, r.b.buf) && LinesAt(r.b.buf, r.locs, lines)
  {
    hide ReadLine, Extends, BuilderOk, BuildLine;
    if lines == [] {
      ExtendsRefl(b.buf);
    } else {
      var n := |lines| - 1;
      BuildLinesRead(b, lines[..n]);
      var before := BuildLines(b, lines[..n]).value;
      BuildLineReads(before.b, lines[n]);
      var r := BuildLines(b, lines).value;
      ExtendsTransitive(b.buf, before.b.buf, r.b.buf);
      LinesAtStable(before.b.buf, r.b.buf, before.locs, lines[..n]);
    }
  }

  // ---------- the vector of lines ----------

  /** The elements of a vector of references, last one first. */
  function PushRefs(buf: bytes, locs: seq<nat>): (r: bytes)
    requires forall i :: 0 <= i < |locs| ==> locs[i] <= |buf|
    ensures Extends(buf, r)
  {
    if locs == [] then buf
    else
      var rest := PushRefs(buf, locs[1..]);
      var r := PushRef(rest, locs[0]);
      ExtendsTransitive(buf, rest, r);
      r
  }

  /** CreateVector of references. Its distance is the length of the result. */
  function PushRefVector(buf: bytes, locs: seq<nat>): (r: bytes)
    requires forall i :: 0 <= i < |locs| ==> locs[i] <= |buf|
  {
    Push(PushRefs(Zeros(Padding(|buf| + 4 * |locs|, 4)) + buf, locs), |locs|, 4)
  }

  lemma {:induction false} PushRefsRead(buf: bytes, locs: seq<nat>, i: nat)
    requires forall i :: 0 <= i < |locs| ==> locs[i] <= |buf|
    requires |buf| % 4 == 0 && |PushRefs(buf, locs)| < U32_LIMIT && i <= |locs|
    ensures var r := PushRefs(buf, locs);
            && |r| == |buf| + 4 * |locs|
            && (i < |locs| ==> ReadLe(r, 4 * i, 4) == Some(|r| - 4 * i - locs[i]))
  {
    hide Padding, Le, ReadLe, PushRef, Extends;
    if locs != [] {
      var rest := PushRefs(buf, locs[1..]);
      var r := PushRefs(buf, locs);
      ExtendsLength(rest, r);
      PushRefsRead(buf, locs[1..], if i == 0 then 0 else i - 1);
      PushRefAligned(rest, locs[0]);
      if 0 < i < |locs| {
        var d := |rest| - 4 * (i - 1);
        ReadLeStable(rest, r, d, 4);
        assert |r| - d == 4 * i;
      }
    }
  }

  lemma PushRefAligned(buf: bytes, off: nat)
    requires off <= |buf| && |buf| % 4 == 0
    ensures |PushRef(buf, off)| == |buf| + 4
  {
    AlignedIsFixed(buf, 4);
  }

  /** The vector holds the distances it was given. */
  ghost predicate RefsAt(buf: bytes, vec: int, locs: seq<nat>) {
    && ReadLe(buf, vec, 4) == Some(|locs|)
    && (forall i :: 0 <= i < |locs| ==> GetRef(buf, vec, i) == Some(|buf| - locs[i]))
  }

  lemma RefsPadded(size: nat, n: nat)
    ensures var padded := Padding(size + 4 * n, 4) + size; padded % 4 == 0 && (padded + 4 * n) % 4 == 0
  {
    hide Padding;
    PaddingAligns(size + 4 * n, 4);
  }

  lemma PushRefVectorReads(buf: bytes, locs: seq<nat>)
    requires forall i :: 0 <= i < |locs| ==> locs[i] <= |buf|
    requires |PushRefVector(buf, locs)| < U32_LIMIT
    ensures var r := PushRefVector(buf, locs); Extends(buf, r) && |buf| < |r| && RefsAt(r, 0, locs)
  {
    hide Le, ReadLe, PushRef, Extends, PushRefs, Padding, Push, Aligned;
    var padded := Zeros(Padding(|buf| + 4 * |locs|, 4)) + buf;
    RefsPadded(|buf|, |locs|);
    ExtendsPrepend(Zeros(Padding(|buf| + 4 * |locs|, 4)), buf);
    var refs := PushRefs(padded, locs);
    ExtendsLength(padded, refs);
    var r := PushRefVector(buf, locs);
    ExtendsLength(refs, r);
    ExtendsTransitive(buf, padded, refs);
    ExtendsTransitive(buf, refs, r);
    PushRefsRead(padded, locs, |locs|);
    PushOnAligned(refs, |locs|);
    Widths();
    forall i | 0 <= i < |locs|
      ensures GetRef(r, 0, i) == Some(|r| - locs[i])
    {
      PushRefsRead(padded, locs, i);
      ReadLeStable(refs, r, |refs| - 4 * i, 4);
    }
  }

  lemma RefsAtStable(small: bytes, big: bytes, d: nat, locs: seq<nat>)
    requires Extends(small, big) && RefsAt(small, |small| - d, locs)
    ensures RefsAt(big, |big| - d, locs)
  {
    hide ReadLe, Extends, GetRef;
    ReadLeStable(small, big, d, 4);
    forall i | 0 <= i < |locs|
      ensures GetRef(big, |big| - d, i) == Some(|big| - locs[i])
    {
      GetRefStable(small, big, d, i);
    }
  }

  lemma {:induction false} LinesReadBack(buf: bytes, vec: int, locs: seq<nat>, lines: seq<HeaderLine>, i: nat)
    requires RefsAt(buf, vec, locs) && LinesAt(buf, locs, lines) && i <= |locs|
    ensures ReadLines(buf, vec, |locs|, i) == Some(lines[i..])
    decreases |locs| - i
  {
    hide ReadLe, GetRef, ReadLine;
    if i == |locs| {
      assert lines[i..] == [];
    } else {
      LinesReadBack(buf, vec, locs, lines, i + 1);
      assert lines[i..] == [lines[i]] + lines[i + 1..];
    }
  }

  // ---------- a whole frame ----------

  function FrameAdds(f: Frame, headers: nat, body: nat): seq<Add> {
    [Scalar(4, 1, f.frametype), Scalar(6, 1, f.version), Scalar(8, 1, f.flags), Scalar(10, 8, f.channel),
     Scalar(12, 8, f.stream), Ref(14, headers), Ref(16, body)]
  }

  lemma FrameAddsOk(f: Frame, headers: nat, body: nat, size: nat)
    requires FrameInRange(f) && headers <= size && body <= size
    ensures AddsOk(FrameAdds(f, headers, body), 7, size)
  {
    Widths();
  }

  /** The header lines and the vector of them, unless absent. */
  function BuildHeaders(b: Builder, headers: Option<seq<HeaderLine>>): (r: Option<Built>)
    requires headers.Some? ==> forall l :: l in headers.value ==> LineInRange(l)
    requires BuilderOk(b)
    ensures r.Some? ==> r.value.loc <= |r.value.b.buf| && |b.buf| <= |r.value.b.buf|
  {
    if headers.None? then Some(Built(b, 0))
    else
      var r :- BuildLines(b, headers.value);
      BuildLinesRead(b, headers.value);
      var buf := PushRefVector(r.b.buf, r.locs);
      PushRefVectorGrows(r.b.buf, r.locs);
      Some(Built(Builder(buf, r.b.vtables), |buf|))
  }

  lemma PushRefVectorGrows(buf: bytes, locs: seq<nat>)
    requires forall i :: 0 <= i < |locs| ==> locs[i] <= |buf|
    ensures |buf| < |PushRefVector(buf, locs)|
  {
    hide Padding;
  }

  /** Finish: pad so that the buffer ends up a multiple of align, then refer to the root table. */
  function Finish(buf: bytes, root: nat, align: nat): (r: bytes)
    requires PowerOfTwoWidth(align) && root <= |buf|
  {
    PushRef(Zeros(Padding(|buf| + 4, align)) + buf, root)
  }

  /** The flatbuffer of a frame; None when make_space's assertion on the size fails on the way. */
  function BuildFrame(f: Frame, align: nat): (r: Option<bytes>)
    requires FrameInRange(f) && PowerOfTwoWidth(align)
  {
    var buf := AddBytes([], f.body);
    var h :- BuildHeaders(Builder(buf, []), f.headers);
    FrameAddsOk(f, h.loc, BytesOffset([], f.body), |h.b.buf|);
    var t :- Table(h.b.buf, FrameAdds(f, h.loc, BytesOffset([], f.body)), 7, h.b.vtables);
    FrameTableLoc(h.b, FrameAdds(f, h.loc, BytesOffset([], f.body)));
    var r := Finish(t.buf, t.loc, align);
    if |r| >= MAX_BUFFER then None else Some(r)
  }

  lemma FrameTableLoc(b: Builder, adds: seq<Add>)
    requires AddsOk(adds, 7, |b.buf|) && Table(b.buf, adds, 7, b.vtables).Some?
    ensures var t := Table(b.buf, adds, 7, b.vtables).value; t.loc <= |t.buf|
  {
    hide Padding, Aligned, Table;
    TableExtends(b.buf, adds, 7, b.vtables);
  }

  ghost predicate HeadersAt(buf: bytes, off: nat, headers: Option<seq<HeaderLine>>) {
    match headers
    case None => off == 0
    case Some(lines) => 0 < off <= |buf| && exists locs :: RefsAt(buf, |buf| - off, locs) && LinesAt(buf, locs, lines)
  }

  lemma BuildHeadersReads(b: Builder, headers: Option<seq<HeaderLine>>)
    requires headers.Some? ==> forall l :: l in headers.value ==> LineInRange(l)
    requires BuilderOk(b) && BuildHeaders(b, headers).Some?
    requires |BuildHeaders(b, headers).value.b.buf| < U32_LIMIT
    ensures var r := BuildHeaders(b, headers).value;
            BuilderOk(r.b) && Extends(b.buf, r.b.buf) && HeadersAt(r.b.buf, r.loc, headers)
  {
    hide Padding, Aligned, Extends, RefsAt, LinesAt, PushRefVector, BuildLines, VTablesOk;
    if headers.None? {
      ExtendsRefl(b.buf);
    } else {
      BuildLinesRead(b, headers.value);
      var r := BuildLines(b, headers.value).value;
      LocsInside(r.b.buf, r.locs, headers.value);
      PushRefVectorReads(r.b.buf, r.locs);
      var buf := PushRefVector(r.b.buf, r.locs);
      ExtendsTransitive(b.buf, r.b.buf, buf);
      VTablesStable(r.b.buf, buf, r.b.vtables);
      LinesAtStable(r.b.buf, buf, r.locs, headers.value);
    }
  }

  lemma LocsInside(buf: bytes, locs: seq<nat>, lines: seq<HeaderLine>)
    requires LinesAt(buf, locs, lines)
    ensures forall i :: 0 <= i < |locs| ==> locs[i] <= |buf|
  {
  }

  lemma HeadersRead(small: bytes, buf: bytes, off: nat, headers: Option<seq<HeaderLine>>, t: int)
    requires HeadersAt(small, off, headers) && Extends(small, buf) && Ref(14, off).Reads(buf, t)
    ensures ReadHeaders(buf, t) == Some(headers)
  {
    hide ReadLe, GetRef, ReadLine, Extends, GetPointer, LinesAt, ReadLines;
    if headers.Some? {
      var locs :| RefsAt(small, |small| - off, locs) && LinesAt(small, locs, headers.value);
      RefsAtStable(small, buf, off, locs);
      LinesAtStable(small, buf, locs, headers.value);
      LinesReadBack(buf, |buf| - off, locs, headers.value, 0);
      assert headers.value[0..] == headers.value;
      SameLength(buf, locs, headers.value);
    }
  }

  lemma SameLength(buf: bytes, locs: seq<nat>, lines: seq<HeaderLine>)
    requires LinesAt(buf, locs, lines)
    ensures |locs| == |lines|
  {
  }

  lemma FinishReads(buf: bytes, root: nat, align: nat)
    requires PowerOfTwoWidth(align) && root <= |buf| && |Finish(buf, root, align)| < U32_LIMIT
    ensures var r := Finish(buf, root, align); Extends(buf, r) && GetRoot(r) == Some(|r| - root)
  {
    hide Padding, PushRef, Extends;
    var padded := Zeros(Padding(|buf| + 4, align)) + buf;
    ExtendsPrepend(Zeros(Padding(|buf| + 4, align)), buf);
    ExtendsTransitive(buf, padded, Finish(buf, root, align));
  }

  /** FlatBuffer round trip: whatever frame is built, the accessors read back every field of it. */
  lemma FrameRoundTrip(f: Frame, align: nat)
    requires FrameInRange(f) && PowerOfTwoWidth(align) && BuildFrame(f, align).Some?
    ensures ReadFrame(BuildFrame(f, align).value) == Some(f)
  {
    hide Padding, Aligned, Extends, Table, ReadLe, GetField, GetPointer, GetRoot, HeadersAt, Finish, PushBytes;
    hide AddBytes;
    hide BytesOffset, BuildHeaders, ReadHeaders, GetOptionalBytes, GetBytes, VTablesOk, AddsOk;
    var buf0 := AddBytes([], f.body);
    var body := BytesOffset([], f.body);
    NoVTables(buf0);
    AddBytesReads([], f.body);
    var h := BuildHeaders(Builder(buf0, []), f.headers).value;
    var adds := FrameAdds(f, h.loc, body);
    FrameAddsOk(f, h.loc, body, |h.b.buf|);
    var t := Table(h.b.buf, adds, 7, h.b.vtables).value;
    var r := BuildFrame(f, align).value;
    TableExtends(h.b.buf, adds, 7, h.b.vtables);
    FinishReads(t.buf, t.loc, align);
    ExtendsLength(h.b.buf, t.buf);
    BuildHeadersReads(Builder(buf0, []), f.headers);
    ExtendsLength(buf0, h.b.buf);
    forall x | x in adds
      ensures x.Reads(r, |r| - t.loc)
    {
      TableReads(h.b.buf, adds, 7, h.b.vtables, x);
      ReadsStable(t.buf, r, t.loc, x);
    }
    ExtendsTransitive(h.b.buf, t.buf, r);
    ExtendsTransitive(buf0, h.b.buf, r);
    assert Ref(14, h.loc) == adds[5] && Ref(16, body) == adds[6] && adds[5] in adds && adds[6] in adds;
    HeadersRead(h.b.buf, r, h.loc, f.headers, |r| - t.loc);
    OptionalBytesRead(buf0, f.body, body, r, |r| - t.loc, 16);
    assert adds[0] in adds && adds[1] in adds && adds[2] in adds && adds[3] in adds && adds[4] in adds;
  }

  lemma NoVTables(buf: bytes)
    ensures BuilderOk(Builder(buf, []))
  {
  }

  lemma ReadsStable(small: bytes, big: bytes, d: nat, x: Add)
    requires Extends(small, big) && x.Reads(small, |small| - d)
    ensures x.Reads(big, |big| - d)
  {
    hide ReadLe, Extends, GetField, GetPointer;
    match x
    case Scalar(slot, width, v) => GetFieldStable(small, big, d, slot, width, 0);
    case Ref(slot, off) => GetPointerStable(small, big, d, slot);
  }

  lemma FrameFinished(f: Frame, align: nat, h: Built, t: Ended)
    requires FrameInRange(f) && PowerOfTwoWidth(align) && BuildFrame(f, align).Some?
    requires BuilderOk(Builder(AddBytes([], f.body), []))
    requires BuildHeaders(Builder(AddBytes([], f.body), []), f.headers) == Some(h)
    requires AddsOk(FrameAdds(f, h.loc, BytesOffset([], f.body)), 7, |h.b.buf|) && t.loc <= |t.buf|
    requires Table(h.b.buf, FrameAdds(f, h.loc, BytesOffset([], f.body)), 7, h.b.vtables) == Some(t)
    ensures BuildFrame(f, align) == Some(Finish(t.buf, t.loc, align)) && |Finish(t.buf, t.loc, align)| < MAX_BUFFER
  {
    hide Padding, Table, AddsOk, FrameAdds, Finish, AddBytes, BytesOffset, BuildHeaders;
  }

  /** The intermediate results of BuildFrame. */
  lemma FrameSteps(f: Frame, align: nat) returns (buf: bytes, h: Built, t: Ended)
    requires FrameInRange(f) && PowerOfTwoWidth(align) && BuildFrame(f, align).Some?
    ensures buf == AddBytes([], f.body) && BuilderOk(Builder(buf, []))
    ensures BuildHeaders(Builder(buf, []), f.headers) == Some(h) && BuilderOk(h.b)
    ensures h.loc <= |h.b.buf| && BytesOffset([], f.body) <= |h.b.buf|
    ensures AddsOk(FrameAdds(f, h.loc, BytesOffset([], f.body)), 7, |h.b.buf|)
    ensures Table(h.b.buf, FrameAdds(f, h.loc, BytesOffset([], f.body)), 7, h.b.vtables) == Some(t)
    ensures 0 < t.loc <= |t.buf|
  {
    hide Padding, Table, AddsOk, FrameAdds, Finish, PushBytes, HeadersAt, Extends;
    buf := AddBytes([], f.body);
    NoVTables(buf);
    h := BuildHeaders(Builder(buf, []), f.headers).value;
    AddBytesReads([], f.body);
    FrameAddsOk(f, h.loc, BytesOffset([], f.body), |h.b.buf|);
    var adds := FrameAdds(f, h.loc, BytesOffset([], f.body));
    t := Table(h.b.buf, adds, 7, h.b.vtables).value;
    TableExtends(h.b.buf, adds, 7, h.b.vtables);
    BuildHeadersReads(Builder(buf, []), f.headers);
  }
}
