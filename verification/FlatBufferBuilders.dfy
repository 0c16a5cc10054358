/** FlatBufferBuilder and the generated builders, changing one buffer in place, proved against the wire layout. */
module FlatBufferBuilders {
  import opened Bytes
  import opened FlatBuffers
  import opened FlatBufferTables
  import opened VectorsDownward
  import opened TxFrames
  import opened FrameAlignments
  import opened FrameSizes

  class FlatBufferBuilder {
    const vec: VectorDownward
    var offsetbuf: seq<FieldLoc>
    var vtables: seq<nat>
    var nested: bool
    var finished: bool
    var minalign: nat

    ghost predicate Valid()
      reads this, vec
    {
      vec.Valid() && PowerOfTwoWidth(minalign)
    }

    function Contents(): (s: bytes)
      requires Valid()
      reads this, vec, vec.buf
    {
      vec.Contents()
    }

    function GetSize(): nat
      requires Valid()
      reads this, vec
    {
      vec.Size()
    }

    /** The n bytes at data_at(d). */
    function BytesAt(d: nat, n: nat): (s: bytes)
      requires Valid() && n <= d <= GetSize()
      reads this, vec, vec.buf
      ensures n <= d <= |Contents()| && s == FromEnd(Contents(), d, n)
    {
      var all := vec.buf[..];
      assert vec.Contents() == all[vec.cur..|all|];
      SliceOfSlice(all, vec.cur, |all|, vec.Size() - d, vec.Size() - d + n);
      assert vec.buf[vec.buf.Length - d..vec.buf.Length - d + n] == all[|all| - d..|all| - d + n];
      vec.buf[vec.buf.Length - d..vec.buf.Length - d + n]
    }

    lemma SizeIsLength()
      requires Valid()
      ensures GetSize() == |Contents()|
    {
    }

    /** The table under construction. */
    function Open(): Pending
      requires Valid()
      reads this, vec, vec.buf
    {
      Pending(Contents(), offsetbuf)
    }

    constructor ()
      ensures Valid() && fresh(vec) && fresh(vec.buf)
      ensures Contents() == [] && offsetbuf == [] && vtables == [] && !nested && !finished && minalign == 1
    {
      vec := new VectorDownward(1024);
      offsetbuf, vtables, nested, finished, minalign := [], [], false, false, 1;
    }

    method Align(size: nat)
      requires Valid() && PowerOfTwoWidth(size)
      modifies this`minalign, vec, vec.buf
      ensures Valid() && (vec.buf == old(vec.buf) || fresh(vec.buf))
      ensures Contents() == Aligned(old(Contents()), size) && |Contents()| % size == 0
      ensures minalign == Max(old(minalign), size)
    {
      hide Padding;
      PaddingAligns(|Contents()|, size);
      if size > minalign {
        minalign := size;
      }
      vec.Fill(Padding(vec.Size(), size));
    }

    method PushElement(v: nat, width: nat) returns (off: nat)
      requires Valid() && PowerOfTwoWidth(width)
      modifies this`minalign, vec, vec.buf
      ensures Valid() && (vec.buf == old(vec.buf) || fresh(vec.buf))
      ensures Contents() == Push(old(Contents()), v, width) && off == |Contents()|
      ensures minalign == Max(old(minalign), width)
    {
      hide Padding, Aligned, Le, VectorDownward.Contents;
      Align(width);
      vec.Push(Le(v, width));
      SizeIsLength();
      off := GetSize();
    }

    method ReferTo(off: nat) returns (rel: nat)
      requires Valid() && 0 < off <= |Contents()|
      modifies this`minalign, vec, vec.buf
      ensures Valid() && (vec.buf == old(vec.buf) || fresh(vec.buf))
      ensures Contents() == Aligned(old(Contents()), 4) && rel == Relative(old(Contents()), off)
      ensures minalign == Max(old(minalign), 4)
    {
      Align(4);
      rel := GetSize() - off + 4;
    }

    method PushOffset(off: nat) returns (loc: nat)
      requires Valid() && 0 < off <= |Contents()|
      modifies this`minalign, vec, vec.buf
      ensures Valid() && (vec.buf == old(vec.buf) || fresh(vec.buf))
      ensures Contents() == PushRef(old(Contents()), off) && loc == |Contents()|
      ensures minalign == Max(old(minalign), 4)
    {
      var rel := ReferTo(off);
      loc := PushElement(rel, 4);
    }

    /** AddElement with the schema default zero. */
    method AddElement(field: nat, v: nat, width: nat)
      requires Valid() && Scalar(field, width, v).Fits(|Contents()|)
      modifies this`offsetbuf, this`minalign, vec, vec.buf
      ensures Valid() && (vec.buf == old(vec.buf) || fresh(vec.buf))
      ensures Open() == AddOne(old(Open()), Scalar(field, width, v))
      ensures minalign == if v == 0 then old(minalign) else Max(old(minalign), width)
    {
      if v == 0 {
        return;
      }
      var off := PushElement(v, width);
      offsetbuf := offsetbuf + [FieldLoc(off, field)];
    }

    method AddOffset(field: nat, off: nat)
      requires Valid() && off <= |Contents()|
      modifies this`offsetbuf, this`minalign, vec, vec.buf
      ensures Valid() && (vec.buf == old(vec.buf) || fresh(vec.buf))
      ensures Open() == AddOne(old(Open()), Ref(field, off))
      ensures minalign == if off == 0 then old(minalign) else Max(old(minalign), 4)
    {
      if off == 0 {
        return;
      }
      // the relative form is at least 4, so AddElement never takes it for the default
      var loc := PushOffset(off);
      offsetbuf := offsetbuf + [FieldLoc(loc, field)];
    }

    method StartTable() returns (start: nat)
      requires Valid() && !nested
      modifies this`nested
      ensures Valid() && nested && start == |Contents()|
    {
      nested := true;
      start := GetSize();
    }

    /** The vtable of a table whose first word is already in place. */
    method WriteVTable(start: nat, loc: nat, fields: nat)
      requires Valid() && |Contents()| == loc && loc % 4 == 0
      requires LocsOk(fields, start, loc, offsetbuf)
      modifies this`offsetbuf, this`minalign, vec, vec.buf
      ensures Valid() && (vec.buf == old(vec.buf) || fresh(vec.buf))
      ensures Contents() == VTable(fields, start, loc, old(offsetbuf)) + old(Contents()) && offsetbuf == []
      ensures minalign == Max(old(minalign), 2)
    {
      hide Padding, Aligned, Push, BlankVTable, Le, Zeros, WriteLocs, VTable, DistinctIds, SlotOk;
      hide VectorDownward.Contents;
      ghost var was := Contents();
      vec.Fill(2 * fields);
      var _ := PushElement(loc - start, 2);
      var _ := PushElement(4 + 2 * fields, 2);
      BlankWritten(was, fields, loc - start);
      WriteEntries(start, loc, fields, was);
    }

    /** Write the offset of each tracked field into the blank vtable in front of rest. */
    method WriteEntries(start: nat, loc: nat, fields: nat, ghost rest: bytes)
      requires Valid() && LocsOk(fields, start, loc, offsetbuf)
      requires Contents() == BlankVTable(fields, loc - start) + rest
      modifies this`offsetbuf, vec.buf
      ensures Valid() && Contents() == VTable(fields, start, loc, old(offsetbuf)) + rest && offsetbuf == []
    {
      hide BlankVTable, Put, Le, WriteLocs, VTable, Writable, Written, DistinctIds, SlotOk;
      var fieldLocs := offsetbuf;
      ghost var w := BlankVTable(fields, loc - start);
      WriteStart(fields, start, loc, fieldLocs);
      for i := 0 to |fieldLocs|
        invariant Valid() && Contents() == w + rest && |w| == 4 + 2 * fields
        invariant Writable(fieldLocs[i..], |w|, loc) && Written(w, loc, fieldLocs[i..], fields, start, fieldLocs)
      {
        WriteStep(w, rest, loc, fieldLocs, i, fields, start);
        vec.Poke(fieldLocs[i].id, Le(loc - fieldLocs[i].off, 2));
        w := Put(w, fieldLocs[i].id, Le(loc - fieldLocs[i].off, 2));
      }
      WriteDone(w, loc, fields, start, fieldLocs);
      offsetbuf := [];
    }

    /** Pad for the largest alignment used and refer to the root table. */
    method Finish(root: nat)
      requires Valid() && !nested && 0 < root <= |Contents()|
      modifies this`minalign, this`finished, vec, vec.buf
      ensures Valid() && finished && (vec.buf == old(vec.buf) || fresh(vec.buf))
      ensures Contents() == TxFrames.Finish(old(Contents()), root, old(minalign))
    {
      hide Padding, Zeros, PushRef;
      vec.Fill(Padding(GetSize() + 4, minalign));
      var _ := PushOffset(root);
      finished := true;
    }

    /** A vector, or offset 0 for an absent one. */
    method CreateOptionalVector(data: Option<bytes>) returns (off: nat)
      requires Valid() && !nested
      modifies this`nested, this`minalign, vec, vec.buf
      ensures Valid() && !nested && (vec.buf == old(vec.buf) || fresh(vec.buf))
      ensures Contents() == AddBytes(old(Contents()), data) && off == BytesOffset(old(Contents()), data)
      ensures minalign == if data.None? then old(minalign) else Max(old(minalign), 4)
    {
      hide PushBytes;
      match data {
        case None => off := 0;
        case Some(d) => off := CreateVector(d);
      }
    }

    function State(): Builder
      requires Valid()
      reads this, vec, vec.buf
    {
      Builder(Contents(), vtables)
    }

    ghost predicate Idle()
      reads this, vec, vec.buf
    {
      Valid() && !nested && offsetbuf == [] && BuilderOk(State())
    }

    /** The key and value vectors and then the table of one header line. */
    method CreateTxHeaderLine(l: HeaderLine) returns (loc: nat)
      requires Idle() && LineInRange(l) && BuildLine(State(), l).Some?
      modifies this, vec, vec.buf
      ensures Idle() && (vec.buf == old(vec.buf) || fresh(vec.buf))
      ensures BuildLine(old(State()), l) == Some(Built(State(), loc))
      ensures minalign == Max(old(minalign), 4)
    {
      hide Padding, Aligned, AddAll, AddOne, LocsOk, TooLarge, VTablesOk, Extends, AddsOk, SlotOk, LineAdds;
      hide FlatBufferTables.EndTable, Table, BuildLine, AddBytes, BytesOffset;
      hide VectorDownward.Contents, PowerOfTwoWidth;
      BuildLineReads(State(), l);
      ghost var b1, b2, adds := LineSteps(State(), l);
      var key := CreateOptionalVector(l.key);
      var value := CreateOptionalVector(l.value);
      ghost var p := TableSteps(b2, adds, 3, vtables);
      var start := StartTable();
      AddLineFields(key, value, l.id);
      loc := EndTable(start, 3);
    }

    method AddLineFields(key: nat, value: nat, id: nat)
      requires Valid() && offsetbuf == []
      requires AddsOk(LineAdds(key, value, id), 3, |Contents()|)
      modifies this`offsetbuf, this`minalign, vec, vec.buf
      ensures Valid() && (vec.buf == old(vec.buf) || fresh(vec.buf))
      ensures Open() == AddAll(old(Contents()), LineAdds(key, value, id))
      ensures Max(minalign, 4) == Max(old(minalign), 4)
    {
      hide Padding, Aligned, AddAll, AddOne, Extends, SlotOk, PowerOfTwoWidth, Add.Fits, Add.Stored, DistinctSlots;
      ghost var adds, c := LineAdds(key, value, id), Contents();
      AddAllStep(c, adds, 0);
      RefFits(adds[0], |Contents()|);
      AddOffset(6, value);
      AddAllStep(c, adds, 1);
      RefFits(adds[1], |Contents()|);
      AddOffset(4, key);
      AddAllStep(c, adds, 2);
      AddElement(8, id, 2);
      assert adds[..3] == adds;
    }

    /** One table for each header line, then the vector of them. */
    method CreateHeaders(headers: Option<seq<HeaderLine>>) returns (off: nat)
      requires Idle() && (headers.Some? ==> forall l :: l in headers.value ==> LineInRange(l))
      requires BuildHeaders(State(), headers).Some?
      modifies this, vec, vec.buf
      ensures Valid() && !nested && offsetbuf == [] && (vec.buf == old(vec.buf) || fresh(vec.buf))
      ensures BuildHeaders(old(State()), headers) == Some(Built(State(), off))
      ensures minalign == if headers.None? then old(minalign) else Max(old(minalign), 4)
    {
      hide BuildLine, VTablesOk, PushRefVector, LinesAt, Extends, LineInRange;
      if headers.None? {
        return 0;
      }
      var lines := headers.value;
      ghost var b := State();
      var locs: seq<nat> := [];
      for i := 0 to |lines|
        invariant Idle() && (vec.buf == old(vec.buf) || fresh(vec.buf))
        invariant BuildLines(b, lines[..i]) == Some(BuiltLines(State(), locs))
        invariant minalign == if i == 0 then old(minalign) else Max(old(minalign), 4)
      {
        BuildLinesStep(b, lines, i);
        var loc := CreateTxHeaderLine(lines[i]);
        locs := locs + [loc];
      }
      assert lines[..|lines|] == lines;
      BuildLinesRead(b, lines);
      LocsPositive(Contents(), locs, lines);
      off := CreateVectorOfOffsets(locs);
    }

    /** The frame table, in the order of Response::FinishFlatbuffer. */
    method CreateTxFrame(f: Frame, headers: nat, body: nat) returns (loc: nat)
      requires Idle() && FrameInRange(f) && headers <= |Contents()| && body <= |Contents()|
      requires AddsOk(FrameAdds(f, headers, body), 7, |Contents()|)
      requires Table(Contents(), FrameAdds(f, headers, body), 7, vtables).Some?
      modifies this, vec, vec.buf
      ensures Valid() && !nested && (vec.buf == old(vec.buf) || fresh(vec.buf))
      ensures Table(old(Contents()), FrameAdds(f, headers, body), 7, old(vtables))
           == Some(Ended(Contents(), vtables, loc))
      ensures minalign == Max(old(minalign), FrameAlign(f))
    {
      hide Padding, Aligned, AddAll, AddOne, LocsOk, TooLarge, VTablesOk, Extends, AddsOk, SlotOk, FrameAdds;
      hide FlatBufferTables.EndTable, Table;
      ghost var c := Contents();
      var start := StartTable();
      ghost var p := TableSteps(c, FrameAdds(f, headers, body), 7, vtables);
      AddFrameFields(f, headers, body);
      loc := EndTable(start, 7);
    }

    method AddFrameFields(f: Frame, headers: nat, body: nat)
      requires Valid() && offsetbuf == []
      requires AddsOk(FrameAdds(f, headers, body), 7, |Contents()|)
      modifies this`offsetbuf, this`minalign, vec, vec.buf
      ensures Valid() && (vec.buf == old(vec.buf) || fresh(vec.buf))
      ensures Open() == AddAll(old(Contents()), FrameAdds(f, headers, body))
      ensures Max(minalign, 4) == Max(old(minalign), FrameAlign(f))
    {
      hide Padding, Aligned, AddAll, AddOne, Extends, SlotOk, PowerOfTwoWidth, Add.Fits, Add.Stored, DistinctSlots;
      ghost var adds, c := FrameAdds(f, headers, body), Contents();
      AddFrameScalars(f, adds);
      AddAllStep(c, adds, 5);
      RefFits(adds[5], |Contents()|);
      AddOffset(14, headers);
      AddAllStep(c, adds, 6);
      RefFits(adds[6], |Contents()|);
      AddOffset(16, body);
      assert adds[..7] == adds;
    }

    method AddFrameScalars(f: Frame, ghost adds: seq<Add>)
      requires Valid() && offsetbuf == []
      requires AddsOk(adds, 7, |Contents()|) && |adds| == 7 && adds[..5] == FrameAdds(f, 0, 0)[..5]
      modifies this`offsetbuf, this`minalign, vec, vec.buf
      ensures Valid() && (vec.buf == old(vec.buf) || fresh(vec.buf))
      ensures Open() == AddAll(old(Contents()), adds[..5])
      ensures Max(minalign, 4) == Max(old(minalign), FrameAlign(f))
    {
      hide Padding, Aligned, AddAll, AddOne, Extends, SlotOk, PowerOfTwoWidth, Add.Fits, Add.Stored, DistinctSlots;
      ghost var c := Contents();
      assert forall i :: 0 <= i < 5 ==> adds[i] == adds[..5][i];
      AddAllStep(c, adds, 0);
      AddElement(4, f.frametype, 1);
      AddAllStep(c, adds, 1);
      AddElement(6, f.version, 1);
      AddAllStep(c, adds, 2);
      AddElement(8, f.flags, 1);
      AddFrameAddress(f, adds, c);
    }

    method AddFrameAddress(f: Frame, ghost adds: seq<Add>, ghost c: bytes)
      requires Valid() && AddsOk(adds, 7, |c|) && |adds| == 7
      requires adds[3] == Scalar(10, 8, f.channel) && adds[4] == Scalar(12, 8, f.stream)
      requires Open() == AddAll(c, adds[..3])
      modifies this`offsetbuf, this`minalign, vec, vec.buf
      ensures Valid() && (vec.buf == old(vec.buf) || fresh(vec.buf))
      ensures Open() == AddAll(c, adds[..5])
      ensures Max(minalign, 4) == Max(old(minalign), FrameAlign(f))
    {
      hide Padding, Aligned, AddAll, AddOne, Extends, SlotOk, PowerOfTwoWidth, Add.Fits, Add.Stored, DistinctSlots;
      AddAllStep(c, adds, 3);
      AddElement(10, f.channel, 8);
      AddAllStep(c, adds, 4);
      AddElement(12, f.stream, 8);
    }

    /**
    A whole frame, built in place on an empty builder, is what the reader reads; every word of it lies at a multiple of
    its width.
    */
    method BuildTxFrame(f: Frame)
      requires Idle() && !finished && Contents() == [] && vtables == []
      requires FrameInRange(f) && FrameSpan(f) < MAX_BUFFER
      modifies this, vec, vec.buf
      ensures Valid() && finished && (vec.buf == old(vec.buf) || fresh(vec.buf))
      ensures BuildFrame(f, Max(old(minalign), FrameAlign(f))) == Some(Contents())
      ensures ReadFrame(Contents()) == Some(f)
      ensures FrameAligned(Contents()) && |Contents()| % FrameAlign(f) == 0
    {
      hide AddBytes, BytesOffset, BuildHeaders, Table, BuildFrame, AddsOk, FrameAdds, ReadFrame;
      hide TxFrames.Finish, VTablesOk, Padding, FrameSpan, FrameAligned;
      forall align | PowerOfTwoWidth(align)
        ensures BuildFrame(f, align).Some?
      {
        SmallFrameBuilds(f, align);
      }
      ghost var buf, h, t := FrameSteps(f, minalign);
      var body := CreateOptionalVector(f.body);
      var headers := CreateHeaders(f.headers);
      var root := CreateTxFrame(f, headers, body);
      ghost var align := minalign;
      Finish(root);
      FrameRoundTrip(f, align);
      FrameFinished(f, align, h, t);
      FrameIsAligned(f, align);
      SmallerWidth(|Contents()|, align, FrameAlign(f));
    }

    /** Look for an earlier vtable equal to the one just written. */
    method FindEqualVTable(ghost a: bytes, ghost v: bytes) returns (found: Option<nat>)
      requires Valid() && Extends(a, Contents()) && |v| <= |Contents()| && Contents()[..|v|] == v
      requires 4 <= |v| && Unle(v[0..2]) == |v| && VTablesOk(a, vtables)
      ensures found == FindVTable(a, vtables, v)
    {
      hide FindVTable, Unle, VTableAt, VTablesOk, Extends, VectorDownward.Contents, FromEnd;
      SizeIsLength();
      ghost var c := Contents();
      VTableInFrontAt(c, v);
      var size := Unle(BytesAt(GetSize(), 2));
      var mine := BytesAt(GetSize(), size);
      for i := 0 to |vtables|
        invariant FindVTable(a, vtables[i..], v) == FindVTable(a, vtables, v)
      {
        var o := vtables[i];
        EarlierVTable(a, vtables, v, c, i);
        if size == Unle(BytesAt(o, 2)) {
          if BytesAt(o, size) == mine {
            return Some(o);
          }
        }
      }
      FindVTableNone(a, v);
      found := None;
    }

    /** Drop the vtable v just written if an earlier one is equal; use is the distance of the one to use. */
    method ShareVTable(loc: nat, ghost a: bytes, ghost v: bytes) returns (use: nat)
      requires Valid() && Contents() == Unlinked(a, v) && loc == |a| + 4
      requires 4 <= |v| && Unle(v[0..2]) == |v| && VTablesOk(a, vtables)
      modifies vec`cur
      ensures Valid()
      ensures match FindVTable(a, vtables, v)
              case Some(o) => use == o <= |a| && Contents() == Unlinked(a, [])
              case None => use == |v| + |a| + 4 && Contents() == Unlinked(a, v)
    {
      hide Le, FindVTable, Unle, VTablesOk, Extends, Unlinked;
      UnlinkedShape(a, v);
      SharedBefore(a, vtables, v);
      var found := FindEqualVTable(a, v);
      use := vec.Size();
      if found.Some? {
        use := found.value;
        vec.Pop(vec.Size() - loc);
      }
    }

    /** Share the vtable v in front of the table, remember it if it is new, and fill in the table's first word. */
    method LinkTable(loc: nat, ghost a: bytes, ghost v: bytes)
      requires Valid() && Contents() == Unlinked(a, v) && loc == |a| + 4
      requires 4 <= |v| && Unle(v[0..2]) == |v| && VTablesOk(a, vtables)
      requires |a| + 4 + |v| < 0x8000_0000
      modifies this`vtables, vec`cur, vec.buf
      ensures Valid()
      ensures var r := Link(a, v, old(vtables)); Contents() == r.buf && vtables == r.vtables && loc == r.loc
    {
      hide Le, FindVTable, Unle, VTablesOk, Signed, Link, Unlinked, Put, VectorDownward.Contents;
      SizeIsLength();
      var use := ShareVTable(loc, a, v);
      SizeIsLength();
      LinkPatched(a, v, vtables, Contents(), use);
      if use == vec.Size() {
        vtables := vtables + [use];
      }
      vec.Poke(vec.Size() - loc, Le(Signed(use - loc), 4));
    }

    method EndTable(start: nat, fields: nat) returns (loc: nat)
      requires Valid() && nested && start <= |Contents()| && !TooLarge(Open(), fields)
      requires LocsOk(fields, start, |Aligned(Contents(), 4)| + 4, offsetbuf) && VTablesOk(Contents(), vtables)
      modifies this, vec, vec.buf
      ensures Valid() && !nested && offsetbuf == [] && finished == old(finished)
      ensures vec.buf == old(vec.buf) || fresh(vec.buf)
      ensures var r := FlatBufferTables.EndTable(start, old(Open()), fields, old(vtables));
              Contents() == r.buf && vtables == r.vtables && loc == r.loc
      ensures minalign == Max(old(minalign), 4)
    {
      hide Padding, Aligned, Le, FindVTable, Unle, VTable, VTablesOk, TooLarge, Link, DistinctIds, SlotOk, Push;
      hide VectorDownward.Contents;
      ghost var a := Aligned(Contents(), 4);
      VTablesStable(Contents(), a, vtables);
      AlignedLength(Contents());
      TableFits(Open(), fields);
      loc := PushElement(0, 4);
      ghost var v := VTable(fields, start, loc, offsetbuf);
      VTableHead(fields, start, loc, offsetbuf);
      WriteVTable(start, loc, fields);
      LinkTable(loc, a, v);
      nested := false;
    }

    /** StartVector for elements of the given width. */
    method StartVector(len: nat, width: nat)
      requires Valid() && !nested && PowerOfTwoWidth(width) && width <= 4
      modifies this`nested, vec, vec.buf
      ensures Valid() && nested && (vec.buf == old(vec.buf) || fresh(vec.buf))
      ensures Contents() == Zeros(Padding(|old(Contents())| + width * len, 4)) + old(Contents())
    {
      hide Padding;
      nested := true;
      var n := width * len;
      ghost var was := Contents();
      vec.Fill(Padding(GetSize() + n, 4));
      NoMorePadding(|was| + n, width);
      ghost var now := Contents();
      assert GetSize() + n == |was| + n + Padding(|was| + n, 4);
      vec.Fill(Padding(GetSize() + n, width));
      assert Zeros(0) + now == now;
    }

    method EndVector(len: nat) returns (off: nat)
      requires Valid() && nested
      modifies this`nested, this`minalign, vec, vec.buf
      ensures Valid() && !nested && (vec.buf == old(vec.buf) || fresh(vec.buf))
      ensures Contents() == Push(old(Contents()), len, 4) && off == |Contents()|
      ensures minalign == Max(old(minalign), 4)
    {
      nested := false;
      off := PushElement(len, 4);
    }

    /** CreateVector of bytes. */
    method CreateVector(data: bytes) returns (off: nat)
      requires Valid() && !nested
      modifies this`nested, this`minalign, vec, vec.buf
      ensures Valid() && !nested && (vec.buf == old(vec.buf) || fresh(vec.buf))
      ensures Contents() == PushBytes(old(Contents()), data) && off == |Contents()|
      ensures minalign == Max(old(minalign), 4)
    {
      hide Padding, Push, PushBytes, Aligned, Le, Zeros;
      ghost var was := Contents();
      StartVector(|data|, 1);
      ghost var padded := Contents();
      var i := |data|;
      while i > 0
        invariant 0 <= i <= |data|
        invariant Valid() && nested && (vec.buf == old(vec.buf) || fresh(vec.buf))
        invariant Contents() == data[i..] + padded && minalign == old(minalign)
      {
        i := i - 1;
        var _ := PushElement(data[i], 1);
        PushByte(data, i, padded);
      }
      assert data[0..] == data;
      off := EndVector(|data|);
      PushBytesWritten(was, data);
    }

    /** CreateVector of offsets. */
    method CreateVectorOfOffsets(locs: seq<nat>) returns (off: nat)
      requires Valid() && !nested
      requires forall i :: 0 <= i < |locs| ==> 0 < locs[i] <= |Contents()|
      modifies this`nested, this`minalign, vec, vec.buf
      ensures Valid() && !nested && (vec.buf == old(vec.buf) || fresh(vec.buf))
      ensures Contents() == PushRefVector(old(Contents()), locs) && off == |Contents()|
      ensures minalign == Max(old(minalign), 4)
    {
      hide Padding, PushRef, Push, PushRefVector, Extends, Zeros, VectorDownward.Contents;
      ghost var was := Contents();
      StartVector(|locs|, 4);
      ghost var padded := Contents();
      ExtendsRefl(padded);
      var i := |locs|;
      while i > 0
        invariant 0 <= i <= |locs|
        invariant Valid() && nested && (vec.buf == old(vec.buf) || fresh(vec.buf))
        invariant Contents() == PushRefs(padded, locs[i..]) && Extends(padded, Contents())
        invariant minalign == if i == |locs| then old(minalign) else Max(old(minalign), 4)
      {
        i := i - 1;
        assert locs[i..][1..] == locs[i + 1..];
        ExtendsLength(padded, Contents());
        ghost var before := Contents();
        var _ := PushOffset(locs[i]);
        ExtendsTransitive(padded, before, Contents());
      }
      assert locs[0..] == locs;
      off := EndVector(|locs|);
      PushRefVectorWritten(was, locs);
    }
  }

  lemma RefFits(a: Add, size: nat)
    requires a.Ref? && a.Fits(size)
    ensures a.off <= size
  {
  }

  lemma AddAllStep(buf: bytes, adds: seq<Add>, i: nat)
    requires i < |adds| && forall k :: 0 <= k < |adds| ==> adds[k].Fits(|buf|)
    ensures i == 0 ==> AddAll(buf, adds[..i]) == Pending(buf, [])
    ensures var p := AddAll(buf, adds[..i]);
            && |buf| <= |p.buf| && adds[i].Fits(|p.buf|)
            && AddAll(buf, adds[..i + 1]) == AddOne(p, adds[i])
  {
    hide AddOne;
    var some := adds[..i + 1];
    assert some[..i] == adds[..i];
    adds[i].FitsMore(|buf|, |AddAll(buf, adds[..i]).buf|);
  }

  lemma {:induction false} BuildLinesPrefix(b: Builder, lines: seq<HeaderLine>, i: nat)
    requires i <= |lines| && (forall l :: l in lines ==> LineInRange(l)) && BuildLines(b, lines).Some?
    ensures (forall l :: l in lines[..i] ==> LineInRange(l)) && BuildLines(b, lines[..i]).Some?
  {
    hide BuildLine;
    if i < |lines| {
      var n := |lines| - 1;
      BuildLinesPrefix(b, lines[..n], i);
      assert lines[..n][..i] == lines[..i];
    } else {
      assert lines[..i] == lines;
    }
  }

  lemma BuildLinesStep(b: Builder, lines: seq<HeaderLine>, i: nat)
    requires i < |lines| && (forall l :: l in lines ==> LineInRange(l)) && BuildLines(b, lines).Some?
    ensures forall l :: l in lines[..i + 1] ==> LineInRange(l)
    ensures BuildLines(b, lines[..i]).Some? && BuildLines(b, lines[..i + 1]).Some? && LineInRange(lines[i])
    ensures var before := BuildLines(b, lines[..i]).value;
            && BuildLine(before.b, lines[i]).Some?
            && var last := BuildLine(before.b, lines[i]).value;
               BuildLines(b, lines[..i + 1]).value == BuiltLines(last.b, before.locs + [last.loc])
  {
    hide BuildLine;
    BuildLinesPrefix(b, lines, i);
    BuildLinesPrefix(b, lines, i + 1);
    assert lines[..i + 1][..i] == lines[..i];
  }

  lemma LocsPositive(buf: bytes, locs: seq<nat>, lines: seq<HeaderLine>)
    requires LinesAt(buf, locs, lines)
    ensures forall i :: 0 <= i < |locs| ==> 0 < locs[i] <= |buf|
  {
  }

  lemma TableSteps(buf: bytes, adds: seq<Add>, fields: nat, vtables: seq<nat>) returns (p: Pending)
    requires AddsOk(adds, fields, |buf|) && Table(buf, adds, fields, vtables).Some? && VTablesOk(buf, vtables)
    ensures p == AddAll(buf, adds) && !TooLarge(p, fields)
    ensures |buf| <= |p.buf| && VTablesOk(p.buf, vtables)
    ensures LocsOk(fields, |buf|, |Aligned(p.buf, 4)| + 4, p.locs)
    ensures Table(buf, adds, fields, vtables) == Some(FlatBufferTables.EndTable(|buf|, p, fields, vtables))
  {
    hide Padding, Aligned, LocsOk, TooLarge, VTablesOk, FlatBufferTables.EndTable, AddAll, Extends;
    p := AddAll(buf, adds);
    TableLocsOk(buf, adds, fields);
    ExtendsLength(buf, p.buf);
    VTablesStable(buf, p.buf, vtables);
  }

  /** The intermediate results of BuildLine. */
  lemma LineSteps(b: Builder, l: HeaderLine) returns (b1: bytes, b2: bytes, adds: seq<Add>)
    requires BuilderOk(b) && LineInRange(l) && BuildLine(b, l).Some?
    ensures b1 == AddBytes(b.buf, l.key) && b2 == AddBytes(b1, l.value) && VTablesOk(b2, b.vtables)
    ensures adds == LineAdds(BytesOffset(b.buf, l.key), BytesOffset(b1, l.value), l.id) && AddsOk(adds, 3, |b2|)
    ensures var t := Table(b2, adds, 3, b.vtables);
            t.Some? && BuildLine(b, l) == Some(Built(Builder(t.value.buf, t.value.vtables), t.value.loc))
  {
    hide Table, AddBytes, BytesOffset, LineAdds, VTablesOk, AddsOk, Extends;
    b1 := AddBytes(b.buf, l.key);
    b2 := AddBytes(b1, l.value);
    adds := LineAdds(BytesOffset(b.buf, l.key), BytesOffset(b1, l.value), l.id);
    LineAddsOk(b.buf, l);
    AddBytesReads(b.buf, l.key);
    AddBytesReads(b1, l.value);
    ExtendsTransitive(b.buf, b1, b2);
    VTablesStable(b.buf, b2, b.vtables);
  }

  lemma BlankWritten(buf: bytes, fields: nat, tableSize: nat)
    requires |buf| % 4 == 0
    ensures Push(Push(Zeros(2 * fields) + buf, tableSize, 2), 4 + 2 * fields, 2) == BlankVTable(fields, tableSize) + buf
  {
    hide Padding, Aligned, Le, Extends, ReadLe;
    var z, t := Zeros(2 * fields) + buf, Le(tableSize, 2);
    EvenLengths(|buf|, fields);
    AlignedIsFixed(z, 2);
    AlignedIsFixed(t + z, 2);
    FourPieces(Le(4 + 2 * fields, 2), t, Zeros(2 * fields), buf);
  }

  lemma EvenLengths(size: nat, fields: nat)
    requires size % 4 == 0
    ensures (2 * fields + size) % 2 == 0 && (2 + (2 * fields + size)) % 2 == 0
  {
    var q := size / 4;
    assert 2 * fields + size == 2 * (fields + 2 * q);
  }

  lemma FourPieces(a: bytes, b: bytes, c: bytes, d: bytes)
    ensures a + (b + (c + d)) == a + b + c + d
  {
  }

  ghost predicate Writable(locs: seq<FieldLoc>, size: nat, loc: nat) {
    forall l :: l in locs ==> l.id + 2 <= size && l.off <= loc
  }

  /** Writing the remaining locs into w gives the vtable of all of them. */
  ghost predicate Written(w: bytes, loc: nat, remaining: seq<FieldLoc>, fields: nat, start: nat, locs: seq<FieldLoc>)
    requires Writable(remaining, |w|, loc)
  {
    && start <= loc && (forall l :: l in locs ==> SlotOk(l.id, fields) && l.off <= loc)
    && WriteLocs(w, loc, remaining) == VTable(fields, start, loc, locs)
  }

  lemma WriteStart(fields: nat, start: nat, loc: nat, locs: seq<FieldLoc>)
    requires LocsOk(fields, start, loc, locs)
    ensures Writable(locs[0..], 4 + 2 * fields, loc)
    ensures Written(BlankVTable(fields, loc - start), loc, locs[0..], fields, start, locs)
  {
    hide BlankVTable, WriteLocs;
    assert locs[0..] == locs;
  }

  lemma WriteStep(w: bytes, rest: bytes, loc: nat, locs: seq<FieldLoc>, i: nat, fields: nat, start: nat)
    requires i < |locs| && Writable(locs[i..], |w|, loc) && Written(w, loc, locs[i..], fields, start, locs)
    ensures locs[i].id + 2 <= |w| && locs[i].off <= loc
    ensures var d := Le(loc - locs[i].off, 2);
            var w' := Put(w, locs[i].id, d);
            && Put(w + rest, locs[i].id, d) == w' + rest
            && Writable(locs[i + 1..], |w'|, loc) && Written(w', loc, locs[i + 1..], fields, start, locs)
  {
    hide Le, VTable;
    assert locs[i] in locs[i..];
    assert locs[i..][1..] == locs[i + 1..];
  }

  lemma WriteDone(w: bytes, loc: nat, fields: nat, start: nat, locs: seq<FieldLoc>)
    requires Writable(locs[|locs|..], |w|, loc) && Written(w, loc, locs[|locs|..], fields, start, locs)
    ensures start <= loc && (forall l :: l in locs ==> SlotOk(l.id, fields) && l.off <= loc)
    ensures w == VTable(fields, start, loc, locs)
  {
    hide VTable;
  }

  lemma FindVTableStep(a: bytes, vtables: seq<nat>, v: bytes)
    requires vtables != []
    ensures VTableAt(a, vtables[0], v) ==> FindVTable(a, vtables, v) == Some(vtables[0])
    ensures !VTableAt(a, vtables[0], v) ==> FindVTable(a, vtables, v) == FindVTable(a, vtables[1..], v)
  {
  }

  lemma FindVTableNone(a: bytes, v: bytes)
    ensures FindVTable(a, [], v) == None
  {
  }

  /** Comparing the sizes first keeps the comparison of whole vtables inside the buffer. */
  lemma EarlierVTable(a: bytes, vtables: seq<nat>, v: bytes, c: bytes, i: nat)
    requires i < |vtables| && VTablesOk(a, vtables) && Extends(a, c) && 4 <= |v| && Unle(v[0..2]) == |v|
    ensures 4 <= vtables[i] <= |a| <= |c| && Unle(FromEnd(c, vtables[i], 2)) <= vtables[i]
    ensures var o := vtables[i];
            var same := Unle(FromEnd(c, o, 2)) == |v| && FromEnd(c, o, |v|) == v;
            && (same ==> FindVTable(a, vtables[i..], v) == Some(o))
            && (!same ==> FindVTable(a, vtables[i..], v) == FindVTable(a, vtables[i + 1..], v))
  {
    hide FindVTable, Unle;
    var o := vtables[i];
    assert vtables[i..][1..] == vtables[i + 1..];
    FindVTableStep(a, vtables[i..], v);
    EarlierAt(a, vtables, v, c, o);
  }

  lemma EarlierAt(a: bytes, vtables: seq<nat>, v: bytes, c: bytes, o: nat)
    requires o in vtables && VTablesOk(a, vtables) && Extends(a, c) && 4 <= |v| && Unle(v[0..2]) == |v|
    ensures 4 <= o <= |a| <= |c| && Unle(FromEnd(c, o, 2)) <= o
    ensures VTableAt(a, o, v) <==> Unle(FromEnd(c, o, 2)) == |v| && FromEnd(c, o, |v|) == v
  {
    hide Unle;
    ExtendsSlice(a, c, o, 2);
    if |v| <= o {
      ExtendsSlice(a, c, o, |v|);
      if VTableAt(a, o, v) {
        SliceOfSlice(a, |a| - o, |a| - o + |v|, 0, 2);
      }
    }
  }

  lemma AlignedLength(buf: bytes)
    ensures |Aligned(buf, 4)| % 4 == 0
    ensures Push(buf, 0, 4) == Le(0, 4) + Aligned(buf, 4)
  {
    PaddingAligns(|buf|, 4);
  }

  lemma VTableHead(fields: nat, start: nat, loc: nat, locs: seq<FieldLoc>)
    requires LocsOk(fields, start, loc, locs)
    ensures var v := VTable(fields, start, loc, locs); 4 <= |v| && Unle(v[0..2]) == |v|
  {
    VTableDescribes(fields, start, loc, locs);
  }

  /** The buffer when v has just been written in front of a table whose first word is still zero. */
  function Unlinked(a: bytes, v: bytes): (c: bytes)
    ensures |c| == |v| + 4 + |a|
  {
    v + (Le(0, 4) + a)
  }

  lemma UnlinkedShape(a: bytes, v: bytes)
    ensures var c := Unlinked(a, v);
            && Extends(a, c) && c[..|v|] == v && c[|v|..] == Unlinked(a, [])
  {
    hide Le;
    var c := Unlinked(a, v);
    ExtendsPrepend(v + Le(0, 4), a);
    assert c == (v + Le(0, 4)) + a;
    assert Unlinked(a, []) == Le(0, 4) + a;
  }

  /** A vtable found is older than the table. */
  lemma SharedBefore(a: bytes, vtables: seq<nat>, v: bytes)
    ensures FindVTable(a, vtables, v).Some? ==> FindVTable(a, vtables, v).value <= |a|
  {
  }

  lemma TableFits(p: Pending, fields: nat)
    requires !TooLarge(p, fields)
    ensures |Aligned(p.buf, 4)| + 8 + 2 * fields < 0x8000_0000
  {
  }

  /** The limit is about the buffer at its largest, when the table's vtable has just been written. */
  lemma LargestSize(p: Pending, start: nat, fields: nat)
    requires LocsOk(fields, start, |Aligned(p.buf, 4)| + 4, p.locs)
    ensures var a := Aligned(p.buf, 4);
            TooLarge(p, fields) <==> |Unlinked(a, VTable(fields, start, |a| + 4, p.locs))| >= MAX_BUFFER
  {
    hide Aligned;
  }

  /** Patching the first word of the table gives Link. */
  lemma LinkPatched(a: bytes, v: bytes, vtables: seq<nat>, c: bytes, use: nat)
    requires |a| + 4 + |v| < 0x8000_0000
    requires match FindVTable(a, vtables, v)
             case Some(o) => use == o <= |a| && c == Unlinked(a, [])
             case None => use == |v| + |a| + 4 && c == Unlinked(a, v)
    ensures var r := Link(a, v, vtables);
            var loc := |a| + 4;
            && r.buf == Put(c, |c| - loc, Le(Signed(use - loc), 4)) && r.loc == loc
            && r.vtables == if use == |c| then vtables + [use] else vtables
  {
    hide Le, FindVTable, Unle, Signed, Put, Unlinked;
    if FindVTable(a, vtables, v).None? {
      PatchWord(a, v, Le(Signed(|v|), 4));
    } else {
      var d := Le(Signed(use - (|a| + 4)), 4);
      PatchWord(a, [], d);
      assert [] + (d + a) == d + a;
    }
  }

  lemma PatchWord(a: bytes, v: bytes, d: bytes)
    requires |d| == 4
    ensures Put(Unlinked(a, v), |v|, d) == v + (d + a)
  {
    hide Le;
    var c := Unlinked(a, v);
    assert c[..|v|] == v;
    assert c[|v| + 4..] == a;
  }

  lemma VTableInFrontAt(c: bytes, v: bytes)
    requires 2 <= |v| <= |c| && c[..|v|] == v
    ensures FromEnd(c, |c|, 2) == v[0..2] && FromEnd(c, |c|, |v|) == v
  {
    assert c[..|v|][0..2] == c[0..2];
  }

  lemma PushBytesWritten(buf: bytes, data: bytes)
    ensures Push(data + (Zeros(Padding(|buf| + |data|, 4)) + buf), |data|, 4) == PushBytes(buf, data)
  {
    hide Padding, Le;
    PaddingAligns(|buf| + |data|, 4);
    AlignedIsFixed(data + (Zeros(Padding(|buf| + |data|, 4)) + buf), 4);
  }

  lemma PushRefVectorWritten(buf: bytes, locs: seq<nat>)
    requires forall i :: 0 <= i < |locs| ==> locs[i] <= |buf|
    ensures Push(PushRefs(Zeros(Padding(|buf| + 4 * |locs|, 4)) + buf, locs), |locs|, 4) == PushRefVector(buf, locs)
  {
    hide PushRefs, Push, Padding, Zeros;
  }

  lemma NoMorePadding(size: nat, width: nat)
    requires PowerOfTwoWidth(width) && width <= 4
    ensures Padding(size + Padding(size, 4), width) == 0
  {
    hide Padding;
    var t := size + Padding(size, 4);
    PaddingAlignsTo4(size);
    if width == 1 {
      NoPadding(t);
    } else if width == 2 {
      EvenOfFour(t);
      PaddingAlignsTo2(t);
    } else {
      PaddingAlignsTo4(t);
    }
  }

  lemma EvenOfFour(t: nat)
    requires t % 4 == 0
    ensures t % 2 == 0
  {
    assert t % 2 == (t % 4) % 2;
  }

  lemma PushByte(data: bytes, i: nat, rest: bytes)
    requires i < |data|
    ensures Push(data[i + 1..] + rest, data[i], 1) == data[i..] + rest
  {
    var buf := data[i + 1..] + rest;
    AlignedIsFixed(buf, 1);
    assert Le(data[i], 1) == [data[i]] + Le(0, 0);
    assert [data[i]] + buf == data[i..] + rest;
  }
}
