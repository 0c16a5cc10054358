/**
One table: its fields are stored in front of what is already in the buffer, then a vtable says how far into the
table each field sits. EndTable drops the vtable again when an earlier table left an identical one.
*/
module FlatBufferTables {
  import opened Bytes
  import opened FlatBuffers

  /** Where a field was stored (its distance) and the vtable slot it fills. */
  datatype FieldLoc = FieldLoc(off: nat, id: nat)

  /** One AddElement or AddOffset call; every schema default is zero. */
  datatype Add =
    | Scalar(slot: nat, width: nat, v: nat)
    | Ref(slot: nat, off: nat)
  {
    /** A scalar equal to its default and a null offset are not stored. */
    predicate Stored() {
      match this
      case Scalar(_, _, v) => v != 0
      case Ref(_, off) => off != 0
    }

    ghost predicate Fits(size: nat) {
      match this
      case Scalar(_, width, v) => PowerOfTwoWidth(width) && v < Pow256(width)
      case Ref(_, off) => off <= size
    }

    lemma FitsMore(size: nat, more: nat)
      requires Fits(size) && size <= more
      ensures Fits(more)
    {
    }

    /** The field stored at distance d reads back as what was added. */
    ghost predicate HeldAt(buf: bytes, d: nat) {
      match this
      case Scalar(_, width, v) => ReadLe(buf, |buf| - d, width) == Some(v)
      case Ref(_, off) => off <= d && ReadLe(buf, |buf| - d, 4) == Some(d - off)
    }

    function Width(): nat {
      if Scalar? then width else 4
    }

    /** The distance d is a multiple of the field's width. */
    ghost predicate Sits(d: int) {
      PowerOfTwoWidth(Width()) && d % Width() == 0
    }

    /** A stored field of the table at position t lies at such a distance, and one not stored has no place. */
    ghost predicate Placed(buf: bytes, t: int) {
      var fo := FieldOffset(buf, t, slot);
      fo.Some? && if Stored() then Sits(|buf| - t - fo.value) else fo.value == 0
    }

    /** The accessors of the table at position t give back the scalar, or a pointer to the object referred to. */
    ghost predicate ReadsBack(buf: bytes, t: int) {
      match this
      case Scalar(_, width, v) => GetField(buf, t, slot, width, 0) == Some(v)
      case Ref(_, off) => GetPointer(buf, t, slot) == Some(Some(|buf| - off))
    }

    /** As ReadsBack, and what was not stored reads as the default or the null pointer. */
    ghost predicate Reads(buf: bytes, t: int) {
      match this
      case Scalar(_, width, v) => GetField(buf, t, slot, width, 0) == Some(v)
      case Ref(_, off) => GetPointer(buf, t, slot) == Some(if off == 0 then None else Some(|buf| - off))
    }
  }

  /** A table between StartTable and EndTable. */
  datatype Pending = Pending(buf: bytes, locs: seq<FieldLoc>)

  function AddOne(p: Pending, a: Add): (r: Pending)
    requires a.Fits(|p.buf|)
    ensures Extends(p.buf, r.buf)
  {
    if !a.Stored() then p
    else
      var buf := match a
        case Scalar(_, width, v) => Push(p.buf, v, width)
        case Ref(_, off) => PushRef(p.buf, off);
      Pending(buf, p.locs + [FieldLoc(|buf|, a.slot)])
  }

  /** Every stored field sits behind the start of the table and reads back. */
  ghost predicate Tracked(start: bytes, kept: seq<Add>, p: Pending) {
    && Extends(start, p.buf)
    && |p.locs| == |kept|
    && (forall i :: 0 <= i < |kept| ==> TrackedAt(start, kept[i], p, p.locs[i]))
  }

  ghost predicate TrackedAt(start: bytes, a: Add, p: Pending, l: FieldLoc) {
    l.id == a.slot && |start| < l.off <= |p.buf| && a.Stored() && a.HeldAt(p.buf, l.off) && a.Sits(l.off)
  }

  function Keep(kept: seq<Add>, a: Add): seq<Add> {
    if a.Stored() then kept + [a] else kept
  }

  lemma HeldStable(a: Add, small: bytes, big: bytes, d: nat)
    requires Extends(small, big) && a.HeldAt(small, d)
    ensures a.HeldAt(big, d)
  {
    ReadLeStable(small, big, d, if a.Scalar? then a.width else 4);
  }

  lemma AddedIsHeld(p: Pending, a: Add)
    requires a.Fits(|p.buf|) && a.Stored() && |AddOne(p, a).buf| < U32_LIMIT
    ensures var r := AddOne(p, a).buf; |r| > |p.buf| && a.HeldAt(r, |r|) && a.Sits(|r|)
  {
    match a
    case Scalar(_, width, v) => PushAligns(p.buf, v, width);
    case Ref(_, off) =>
  }

  lemma AddTracked(start: bytes, kept: seq<Add>, p: Pending, a: Add)
    requires Tracked(start, kept, p) && a.Fits(|p.buf|)
    requires |AddOne(p, a).buf| < U32_LIMIT
    ensures Tracked(start, Keep(kept, a), AddOne(p, a))
  {
    hide TrackedAt, Push, PushRef, Extends;
    if a.Stored() {
      var r := AddOne(p, a);
      ExtendsTransitive(start, p.buf, r.buf);
      ExtendsLength(start, p.buf);
      AddedIsTracked(start, p, a);
      var more := Keep(kept, a);
      forall i | 0 <= i < |more|
        ensures TrackedAt(start, more[i], r, r.locs[i])
      {
        if i < |kept| {
          StaysTracked(start, kept[i], p, r, p.locs[i]);
        }
      }
    }
  }

  lemma AddedIsTracked(start: bytes, p: Pending, a: Add)
    requires a.Fits(|p.buf|) && a.Stored() && |AddOne(p, a).buf| < U32_LIMIT && |start| <= |p.buf|
    ensures var r := AddOne(p, a);
            r.locs == p.locs + [FieldLoc(|r.buf|, a.slot)] && TrackedAt(start, a, r, r.locs[|p.locs|])
  {
    hide Push, PushRef, Add.HeldAt, Add.Sits;
    AddedIsHeld(p, a);
  }

  lemma StaysTracked(start: bytes, a: Add, p: Pending, r: Pending, l: FieldLoc)
    requires TrackedAt(start, a, p, l) && Extends(p.buf, r.buf)
    ensures TrackedAt(start, a, r, l)
  {
    hide Add.HeldAt, Add.Sits, Extends;
    ExtendsLength(p.buf, r.buf);
    HeldStable(a, p.buf, r.buf, l.off);
  }

  // ---------- the vtable ----------

  predicate SlotOk(slot: nat, fields: nat) {
    slot % 2 == 0 && 4 <= slot && slot + 2 <= 4 + 2 * fields
  }

  function WriteLocs(v: bytes, loc: nat, locs: seq<FieldLoc>): (r: bytes)
    requires forall l :: l in locs ==> l.id + 2 <= |v| && l.off <= loc
    ensures |r| == |v|
    decreases |locs|
  {
    if locs == [] then v
    else
      assert forall l :: l in locs[1..] ==> l in locs;
      WriteLocs(Put(v, locs[0].id, Le(loc - locs[0].off, 2)), loc, locs[1..])
  }

  lemma {:induction false} UntouchedSlot(v: bytes, loc: nat, locs: seq<FieldLoc>, slot: nat)
    requires forall l :: l in locs ==> l.id + 2 <= |v| && l.off <= loc && l.id % 2 == 0 && l.id != slot
    requires slot % 2 == 0 && slot + 2 <= |v|
    ensures WriteLocs(v, loc, locs)[slot..slot + 2] == v[slot..slot + 2]
    decreases |locs|
  {
    if locs != [] {
      var w := Put(v, locs[0].id, Le(loc - locs[0].off, 2));
      assert w[slot] == v[slot] && w[slot + 1] == v[slot + 1];
      assert w[slot..slot + 2] == v[slot..slot + 2];
      assert forall l :: l in locs[1..] ==> l in locs;
      UntouchedSlot(w, loc, locs[1..], slot);
    }
  }

  ghost predicate DistinctIds(locs: seq<FieldLoc>) {
    forall i, j :: 0 <= i < j < |locs| ==> locs[i].id != locs[j].id
  }

  lemma {:induction false} WrittenSlot(v: bytes, loc: nat, locs: seq<FieldLoc>, i: nat)
    requires forall l :: l in locs ==> l.id + 2 <= |v| && l.off <= loc && l.id % 2 == 0
    requires DistinctIds(locs) && i < |locs|
    ensures WriteLocs(v, loc, locs)[locs[i].id..locs[i].id + 2] == Le(loc - locs[i].off, 2)
    decreases |locs|
  {
    hide Le, Put;
    var w := Put(v, locs[0].id, Le(loc - locs[0].off, 2));
    assert forall l :: l in locs[1..] ==> l in locs;
    if i == 0 {
      UntouchedSlot(w, loc, locs[1..], locs[0].id);
    } else {
      WrittenSlot(w, loc, locs[1..], i - 1);
    }
  }

  function BlankVTable(fields: nat, tableSize: nat): (v: bytes)
    ensures |v| == 4 + 2 * fields
  {
    Le(4 + 2 * fields, 2) + Le(tableSize, 2) + Zeros(2 * fields)
  }

  /** Size of the vtable, size of the table, then one 16-bit entry for each field; 0 means absent. */
  function VTable(fields: nat, start: nat, loc: nat, locs: seq<FieldLoc>): (v: bytes)
    requires start <= loc
    requires forall l :: l in locs ==> SlotOk(l.id, fields) && l.off <= loc
    ensures |v| == 4 + 2 * fields
  {
    var blank := BlankVTable(fields, loc - start);
    assert forall l :: l in locs ==> SlotOk(l.id, fields);
    WriteLocs(blank, loc, locs)
  }

  ghost predicate LocsOk(fields: nat, start: nat, loc: nat, locs: seq<FieldLoc>) {
    && start <= loc && loc - start < U16_LIMIT && 4 + 2 * fields < U16_LIMIT
    && DistinctIds(locs)
    && (forall l :: l in locs ==> SlotOk(l.id, fields) && start < l.off <= loc)
  }

  /** What a reader needs from the vtable v of a table at distance loc. */
  ghost predicate Describes(v: bytes, fields: nat, loc: nat, locs: seq<FieldLoc>) {
    && |v| == 4 + 2 * fields && Unle(v[0..2]) == |v|
    && (forall i :: 0 <= i < |locs| ==>
          locs[i].id + 2 <= |v| && locs[i].off <= loc && Unle(v[locs[i].id..locs[i].id + 2]) == loc - locs[i].off)
    && (forall slot: nat :: SlotOk(slot, fields) && (forall i :: 0 <= i < |locs| ==> locs[i].id != slot) ==>
          Unle(v[slot..slot + 2]) == 0)
  }

  lemma VTableDescribes(fields: nat, start: nat, loc: nat, locs: seq<FieldLoc>)
    requires LocsOk(fields, start, loc, locs)
    ensures Describes(VTable(fields, start, loc, locs), fields, loc, locs)
  {
    hide Unle, Le, VTable;
    var v := VTable(fields, start, loc, locs);
    VTableSize(fields, start, loc, locs);
    forall i | 0 <= i < |locs|
      ensures locs[i].id + 2 <= |v| && locs[i].off <= loc && Unle(v[locs[i].id..locs[i].id + 2]) == loc - locs[i].off
    {
      VTableSlot(fields, start, loc, locs, i);
    }
    forall slot: nat | SlotOk(slot, fields) && (forall i :: 0 <= i < |locs| ==> locs[i].id != slot)
      ensures Unle(v[slot..slot + 2]) == 0
    {
      VTableZero(fields, start, loc, locs, slot);
    }
  }

  lemma VTableSize(fields: nat, start: nat, loc: nat, locs: seq<FieldLoc>)
    requires LocsOk(fields, start, loc, locs)
    ensures Unle(VTable(fields, start, loc, locs)[0..2]) == 4 + 2 * fields
  {
    hide Unle, Le, WriteLocs;
    Widths();
    var blank := BlankVTable(fields, loc - start);
    UntouchedSlot(blank, loc, locs, 0);
    RoundTrip(4 + 2 * fields, 2);
    assert blank[0..2] == Le(4 + 2 * fields, 2);
  }

  lemma VTableSlot(fields: nat, start: nat, loc: nat, locs: seq<FieldLoc>, i: nat)
    requires LocsOk(fields, start, loc, locs) && i < |locs|
    ensures var v := VTable(fields, start, loc, locs);
            && locs[i].id + 2 <= |v| && locs[i].off <= loc
            && Unle(v[locs[i].id..locs[i].id + 2]) == loc - locs[i].off
  {
    hide Unle, Le, WriteLocs, BlankVTable;
    Widths();
    assert locs[i] in locs;
    WrittenSlot(BlankVTable(fields, loc - start), loc, locs, i);
    RoundTrip(loc - locs[i].off, 2);
  }

  lemma VTableZero(fields: nat, start: nat, loc: nat, locs: seq<FieldLoc>, slot: nat)
    requires LocsOk(fields, start, loc, locs) && SlotOk(slot, fields)
    requires forall i :: 0 <= i < |locs| ==> locs[i].id != slot
    ensures Unle(VTable(fields, start, loc, locs)[slot..slot + 2]) == 0
  {
    hide Unle, Le, WriteLocs;
    var blank := BlankVTable(fields, loc - start);
    UntouchedSlot(blank, loc, locs, slot);
    ZeroSlot(blank, slot);
  }

  lemma ZeroSlot(v: bytes, slot: nat)
    requires slot + 2 <= |v| && v[slot] == 0 && v[slot + 1] == 0
    ensures Unle(v[slot..slot + 2]) == 0
  {
    assert v[slot..slot + 2] == [0, 0];
    assert [0, 0][1..] == [0];
  }

  // ---------- EndTable ----------

  /** A vtable that an earlier table left at distance o. */
  ghost predicate VTableAt(buf: bytes, o: nat, v: bytes) {
    |v| <= o <= |buf| && buf[|buf| - o..|buf| - o + |v|] == v
  }

  /** The first earlier vtable with the same bytes. */
  function FindVTable(buf: bytes, vtables: seq<nat>, v: bytes): (r: Option<nat>)
    ensures r.Some? ==> r.value in vtables && VTableAt(buf, r.value, v)
    ensures r.None? ==> forall o :: o in vtables ==> !VTableAt(buf, o, v)
  {
    if vtables == [] then None
    else if |v| <= vtables[0] <= |buf| && buf[|buf| - vtables[0]..|buf| - vtables[0] + |v|] == v then Some(vtables[0])
    else FindVTable(buf, vtables[1..], v)
  }

  /** Every remembered distance is one at which a whole vtable, of the size it claims, starts. */
  ghost predicate VTablesOk(buf: bytes, vtables: seq<nat>) {
    forall o :: o in vtables ==>
      var size := ReadLe(buf, |buf| - o, 2);
      o % 2 == 0 && size.Some? && 4 <= size.value <= o
  }

  lemma VTablesStable(small: bytes, big: bytes, vtables: seq<nat>)
    requires VTablesOk(small, vtables) && Extends(small, big)
    ensures VTablesOk(big, vtables)
  {
    forall o | o in vtables
      ensures ReadLe(big, |big| - o, 2) == ReadLe(small, |small| - o, 2)
    {
      ReadLeStable(small, big, o, 2);
    }
  }

  function Signed(x: int): (u: nat)
    requires -0x8000_0000 <= x < 0x8000_0000
    ensures u < U32_LIMIT
  {
    if x < 0 then x + U32_LIMIT else x
  }

  datatype Ended = Ended(buf: bytes, vtables: seq<nat>, loc: nat)

  /** Put the table's first word, and the vtable v unless an equal one exists, in front of the fields a. */
  function Link(a: bytes, v: bytes, vtables: seq<nat>): (r: Ended)
    requires |a| + 4 + |v| < 0x8000_0000
    ensures Extends(a, r.buf) && r.loc == |a| + 4 <= |r.buf| < 0x8000_0000
  {
    var loc := |a| + 4;
    match FindVTable(a, vtables, v)
    case Some(o) => Ended(Le(Signed(o - loc), 4) + a, vtables, loc)
    case None => Ended(v + (Le(Signed(|v|), 4) + a), vtables + [loc + |v|], loc)
  }

  /** The table finds its vtable, new or shared. */
  lemma LinkFindsVTable(a: bytes, v: bytes, vtables: seq<nat>)
    requires |a| + 4 + |v| < 0x8000_0000
    ensures var r := Link(a, v, vtables);
            var soff := ReadSigned(r.buf, |r.buf| - r.loc);
            && soff.Some? && r.loc + soff.value >= 0
            && VTableAt(r.buf, r.loc + soff.value, v)
  {
    hide ReadLe, FindVTable, Extends, Le, Unle, Signed, ReadSigned, VTableAt;
    match FindVTable(a, vtables, v)
    case Some(o) => LinkShared(a, v, o);
    case None => LinkNew(a, v);
  }

  lemma LinkShared(a: bytes, v: bytes, o: nat)
    requires |a| + 4 + |v| < 0x8000_0000 && VTableAt(a, o, v)
    ensures var buf, loc := Le(Signed(o - (|a| + 4)), 4) + a, |a| + 4;
            ReadSigned(buf, |buf| - loc) == Some(o - loc) && VTableAt(buf, o, v)
  {
    hide Le, Unle, Signed, ReadSigned, Extends;
    var word := Le(Signed(o - (|a| + 4)), 4);
    LinkWord(o - (|a| + 4), a, []);
    assert [] + (word + a) == word + a;
    ExtendsPrepend(word, a);
    VTableAtStable(a, word + a, o, v);
  }

  lemma LinkNew(a: bytes, v: bytes)
    requires |a| + 4 + |v| < 0x8000_0000
    ensures var buf, loc := v + (Le(Signed(|v|), 4) + a), |a| + 4;
            ReadSigned(buf, |buf| - loc) == Some(|v|) && VTableAt(buf, loc + |v|, v)
  {
    hide Le, Unle, Signed, ReadSigned;
    LinkWord(|v|, a, v);
    VTableInFront(v, Le(Signed(|v|), 4) + a);
  }

  lemma LinkWord(x: int, a: bytes, pre: bytes)
    requires -0x8000_0000 <= x < 0x8000_0000
    ensures ReadSigned(pre + (Le(Signed(x), 4) + a), |pre|) == Some(x)
  {
    var buf := pre + (Le(Signed(x), 4) + a);
    assert buf[|pre|..|pre| + 4] == Le(Signed(x), 4);
    Widths();
    RoundTrip(Signed(x), 4);
  }

  lemma VTableAtStable(small: bytes, big: bytes, o: nat, v: bytes)
    requires Extends(small, big) && VTableAt(small, o, v)
    ensures VTableAt(big, o, v)
  {
    ExtendsSlice(small, big, o, |v|);
  }

  lemma VTableInFront(v: bytes, rest: bytes)
    ensures VTableAt(v + rest, |v + rest|, v)
  {
  }

  lemma LinkKeepsVTables(a: bytes, v: bytes, vtables: seq<nat>)
    requires |a| + 4 + |v| < 0x8000_0000 && VTablesOk(a, vtables) && (|a| + |v|) % 2 == 0
    requires 4 <= |v| && Unle(v[0..2]) == |v|
    ensures var r := Link(a, v, vtables); VTablesOk(r.buf, r.vtables)
  {
    var r := Link(a, v, vtables);
    VTablesStable(a, r.buf, vtables);
    if FindVTable(a, vtables, v).None? {
      assert r.buf[0..2] == v[0..2];
      assert ReadLe(r.buf, |r.buf| - (r.loc + |v|), 2) == Some(|v|);
    }
  }

  /** A slot of a table that finds the vtable v reads as v's entry. */
  lemma SlotOfVTable(buf: bytes, loc: nat, v: bytes, slot: nat)
    requires var soff := ReadSigned(buf, |buf| - loc);
             soff.Some? && loc + soff.value >= 0 && VTableAt(buf, loc + soff.value, v)
    requires 4 <= |v| && Unle(v[0..2]) == |v| && slot + 2 <= |v|
    ensures FieldOffset(buf, |buf| - loc, slot) == Some(Unle(v[slot..slot + 2]))
  {
    var at := |buf| - loc - ReadSigned(buf, |buf| - loc).value;
    assert buf[at..at + |v|] == v;
    SliceOfSlice(buf, at, at + |v|, 0, 2);
    SliceOfSlice(buf, at, at + |v|, slot, slot + 2);
  }

  lemma HeldReadsBack(buf: bytes, t: int, d: nat, a: Add)
    requires FieldOffset(buf, t, a.slot) == Some(|buf| - d - t) && |buf| - d > t
    requires a.HeldAt(buf, d)
    ensures a.ReadsBack(buf, t)
  {
  }

  /** A slot of a linked table reads as its vtable entry. */
  lemma LinkEntry(a: bytes, v: bytes, vtables: seq<nat>, slot: nat)
    requires |a| + 4 + |v| < 0x8000_0000 && 4 <= |v| && Unle(v[0..2]) == |v| && slot + 2 <= |v|
    ensures var r := Link(a, v, vtables); FieldOffset(r.buf, |r.buf| - r.loc, slot) == Some(Unle(v[slot..slot + 2]))
  {
    hide Padding, ReadLe, Link, Unle, FieldOffset, FindVTable, ReadSigned, VTableAt;
    LinkFindsVTable(a, v, vtables);
    var r := Link(a, v, vtables);
    SlotOfVTable(r.buf, r.loc, v, slot);
  }

  /** Each stored scalar reads back, and each reference points to the object it was given. */
  lemma LinkReads(start: bytes, kept: seq<Add>, p: Pending, a: bytes, v: bytes, fields: nat, vtables: seq<nat>, i: nat)
    requires Tracked(start, kept, p) && Extends(p.buf, a) && i < |kept|
    requires |a| + 4 + |v| < 0x8000_0000 && Describes(v, fields, |a| + 4, p.locs)
    ensures var r := Link(a, v, vtables);
            kept[i].ReadsBack(r.buf, |r.buf| - r.loc) && kept[i].Placed(r.buf, |r.buf| - r.loc)
  {
    hide Padding, ReadLe, Link, Unle, FieldOffset, FindVTable, Add.Sits;
    var r := Link(a, v, vtables);
    LinkEntry(a, v, vtables, p.locs[i].id);
    ExtendsTransitive(p.buf, a, r.buf);
    HeldStable(kept[i], p.buf, r.buf, p.locs[i].off);
    HeldReadsBack(r.buf, |r.buf| - r.loc, p.locs[i].off, kept[i]);
  }

  // ---------- StartTable ... EndTable ----------

  /** FLATBUFFERS_MAX_BUFFER_SIZE; make_space asserts that the buffer stays below it. */
  const MAX_BUFFER: nat := 0x7FFF_FFFF

  /** A sequence of add calls as generated code makes them: one for each field of the schema at most, in any order. */
  ghost predicate AddsOk(adds: seq<Add>, fields: nat, size: nat) {
    && fields < 0x1000 && |adds| <= fields
    && (forall i :: 0 <= i < |adds| ==> SlotOk(adds[i].slot, fields) && adds[i].Fits(size))
    && DistinctSlots(adds)
  }

  function AddAll(buf: bytes, adds: seq<Add>): (p: Pending)
    requires forall i :: 0 <= i < |adds| ==> adds[i].Fits(|buf|)
    ensures Extends(buf, p.buf) && |p.buf| <= |buf| + 15 * |adds|
  {
    if adds == [] then Pending(buf, [])
    else
      var n := |adds| - 1;
      var p := AddAll(buf, adds[..n]);
      adds[n].FitsMore(|buf|, |p.buf|);
      ExtendsTransitive(buf, p.buf, AddOne(p, adds[n]).buf);
      AddOne(p, adds[n])
  }

  ghost predicate DistinctSlots(adds: seq<Add>) {
    forall i, j :: 0 <= i < j < |adds| ==> adds[i].slot != adds[j].slot
  }

  /** kept are the fields among adds that are stored. */
  ghost predicate KeptOf(adds: seq<Add>, kept: seq<Add>) {
    DistinctSlots(kept) && forall a :: a in kept <==> a in adds && a.Stored()
  }

  lemma KeepOne(adds: seq<Add>, kept: seq<Add>)
    requires adds != [] && DistinctSlots(adds) && KeptOf(adds[..|adds| - 1], kept)
    ensures KeptOf(adds, Keep(kept, adds[|adds| - 1]))
  {
    var n := |adds| - 1;
    assert adds == adds[..n] + [adds[n]];
    forall i | 0 <= i < |kept|
      ensures kept[i].slot != adds[n].slot
    {
      assert kept[i] in adds[..n];
    }
  }

  lemma NothingKept(buf: bytes)
    ensures Tracked(buf, [], Pending(buf, [])) && KeptOf([], [])
  {
  }

  /** The fields that were stored, as AddAll leaves them. */
  lemma {:induction false} AddAllTracked(buf: bytes, adds: seq<Add>) returns (kept: seq<Add>)
    requires forall i :: 0 <= i < |adds| ==> adds[i].Fits(|buf|)
    requires |AddAll(buf, adds).buf| < U32_LIMIT && DistinctSlots(adds)
    ensures Tracked(buf, kept, AddAll(buf, adds)) && KeptOf(adds, kept)
  {
    hide Padding, Aligned, Push, PushRef, ReadLe, AddOne, Add.HeldAt, Tracked, KeptOf, Add.Fits, Keep;
    hide Add.Stored, Extends;
    if adds == [] {
      kept := [];
      NothingKept(buf);
    } else {
      var n := |adds| - 1;
      var p := AddAll(buf, adds[..n]);
      ExtendsLength(buf, p.buf);
      adds[n].FitsMore(|buf|, |p.buf|);
      ExtendsLength(p.buf, AddOne(p, adds[n]).buf);
      var before := AddAllTracked(buf, adds[..n]);
      AddTracked(buf, before, p, adds[n]);
      kept := Keep(before, adds[n]);
      KeepOne(adds, before);
    }
  }

  lemma TrackedLocsOk(start: bytes, kept: seq<Add>, p: Pending, fields: nat, loc: nat)
    requires Tracked(start, kept, p) && |p.buf| <= loc && loc - |start| < U16_LIMIT && 4 + 2 * fields < U16_LIMIT
    requires forall i :: 0 <= i < |kept| ==> SlotOk(kept[i].slot, fields)
    requires DistinctSlots(kept)
    ensures LocsOk(fields, |start|, loc, p.locs)
  {
    forall l | l in p.locs
      ensures SlotOk(l.id, fields) && |start| < l.off <= loc
    {
      var i :| 0 <= i < |p.locs| && p.locs[i] == l;
    }
  }

  /** The assertion of make_space on the largest size the table reaches. */
  predicate TooLarge(p: Pending, fields: nat) {
    |Aligned(p.buf, 4)| + 8 + 2 * fields >= MAX_BUFFER
  }

  lemma TableLocs(buf: bytes, adds: seq<Add>, fields: nat) returns (kept: seq<Add>)
    requires AddsOk(adds, fields, |buf|) && !TooLarge(AddAll(buf, adds), fields)
    ensures var p := AddAll(buf, adds);
            Tracked(buf, kept, p) && LocsOk(fields, |buf|, |Aligned(p.buf, 4)| + 4, p.locs)
    ensures KeptOf(adds, kept)
  {
    kept := AddAllTracked(buf, adds);
    var p := AddAll(buf, adds);
    forall i | 0 <= i < |kept|
      ensures SlotOk(kept[i].slot, fields)
    {
      assert kept[i] in adds;
    }
    TrackedLocsOk(buf, kept, p, fields, |Aligned(p.buf, 4)| + 4);
  }

  lemma TableLocsOk(buf: bytes, adds: seq<Add>, fields: nat)
    requires AddsOk(adds, fields, |buf|) && !TooLarge(AddAll(buf, adds), fields)
    ensures var p := AddAll(buf, adds); LocsOk(fields, |buf|, |Aligned(p.buf, 4)| + 4, p.locs)
  {
    var _ := TableLocs(buf, adds, fields);
  }

  /** EndTable on what the adds stored. */
  function EndTable(start: nat, p: Pending, fields: nat, vtables: seq<nat>): (r: Ended)
    requires !TooLarge(p, fields) && LocsOk(fields, start, |Aligned(p.buf, 4)| + 4, p.locs)
  {
    var a := Aligned(p.buf, 4);
    Link(a, VTable(fields, start, |a| + 4, p.locs), vtables)
  }

  /** A whole table; None when the assertion on the buffer size fails. */
  function Table(buf: bytes, adds: seq<Add>, fields: nat, vtables: seq<nat>): (r: Option<Ended>)
    requires AddsOk(adds, fields, |buf|)
  {
    var p := AddAll(buf, adds);
    if TooLarge(p, fields) then None
    else
      TableLocsOk(buf, adds, fields);
      Some(EndTable(|buf|, p, fields, vtables))
  }

  lemma TableExtends(buf: bytes, adds: seq<Add>, fields: nat, vtables: seq<nat>)
    requires AddsOk(adds, fields, |buf|) && Table(buf, adds, fields, vtables).Some?
    ensures var r := Table(buf, adds, fields, vtables).value;
            Extends(buf, r.buf) && |buf| < r.loc <= |r.buf| < 0x8000_0000
  {
    var p := AddAll(buf, adds);
    TableLocsOk(buf, adds, fields);
    var a := Aligned(p.buf, 4);
    ExtendsTransitive(buf, p.buf, a);
    ExtendsTransitive(buf, a, EndTable(|buf|, p, fields, vtables).buf);
  }

  /** Every field the schema gives the table reads back: stored or elided, whatever the order of the adds and whether
      or not the vtable is shared. A stored one lies at a distance that is a multiple of its width. */
  lemma TableReads(buf: bytes, adds: seq<Add>, fields: nat, vtables: seq<nat>, x: Add)
    requires AddsOk(adds, fields, |buf|) && x in adds
    requires Table(buf, adds, fields, vtables).Some?
    ensures var r := Table(buf, adds, fields, vtables).value;
            x.Reads(r.buf, |r.buf| - r.loc) && x.Placed(r.buf, |r.buf| - r.loc)
  {
    hide Padding, Aligned, Push, PushRef, ReadLe, Extends, AddAll, AddOne, Add.HeldAt, Tracked, Link, VTable;
    hide Describes, LocsOk, Add.Sits, Add.Placed;
    var kept := TableLocs(buf, adds, fields);
    var p := AddAll(buf, adds);
    var a := Aligned(p.buf, 4);
    VTableDescribes(fields, |buf|, |a| + 4, p.locs);
    LinkReadsAll(buf, kept, p, a, VTable(fields, |buf|, |a| + 4, p.locs), adds, fields, vtables, x);
  }

  lemma LinkReadsAll(start: bytes, kept: seq<Add>, p: Pending, a: bytes, v: bytes, adds: seq<Add>, fields: nat,
                     vtables: seq<nat>, x: Add)
    requires Tracked(start, kept, p) && Extends(p.buf, a)
    requires |a| + 4 + |v| < 0x8000_0000 && Describes(v, fields, |a| + 4, p.locs)
    requires DistinctSlots(adds) && x in adds && SlotOk(x.slot, fields)
    requires KeptOf(adds, kept)
    ensures var r := Link(a, v, vtables); x.Reads(r.buf, |r.buf| - r.loc) && x.Placed(r.buf, |r.buf| - r.loc)
  {
    hide Padding, ReadLe, Link, Unle, Extends, FieldOffset, Add.HeldAt, Add.Fits, Add.Sits;
    if x.Stored() {
      var i :| 0 <= i < |kept| && kept[i] == x;
      LinkReads(start, kept, p, a, v, fields, vtables, i);
    } else {
      var j :| 0 <= j < |adds| && adds[j] == x;
      forall i | 0 <= i < |p.locs|
        ensures p.locs[i].id != x.slot
      {
        assert kept[i] in kept;
        var k :| 0 <= k < |adds| && adds[k] == kept[i];
      }
      LinkEntry(a, v, vtables, x.slot);
    }
  }

  lemma TableKeepsVTables(buf: bytes, adds: seq<Add>, fields: nat, vtables: seq<nat>)
    requires AddsOk(adds, fields, |buf|) && VTablesOk(buf, vtables)
    requires Table(buf, adds, fields, vtables).Some?
    ensures var r := Table(buf, adds, fields, vtables).value; VTablesOk(r.buf, r.vtables)
  {
    hide Padding, Aligned, AddAll, VTable, DistinctIds, DistinctSlots, Link, Extends, VTablesOk, SlotOk;
    var p := AddAll(buf, adds);
    var a := Aligned(p.buf, 4);
    TableLocsOk(buf, adds, fields);
    VTableDescribes(fields, |buf|, |a| + 4, p.locs);
    ExtendsTransitive(buf, p.buf, a);
    VTablesStable(buf, a, vtables);
    EvenWithVTable(p.buf, fields);
    LinkKeepsVTables(a, VTable(fields, |buf|, |a| + 4, p.locs), vtables);
  }

  lemma EvenWithVTable(buf: bytes, fields: nat)
    ensures |Aligned(buf, 4)| % 2 == 0 && (|Aligned(buf, 4)| + (4 + 2 * fields)) % 2 == 0
  {
    hide Padding, Aligned;
    AlignedTo4(buf);
    var q := Quotient(|Aligned(buf, 4)|, 4);
    Multiple(|Aligned(buf, 4)|, 2, 2 * q);
    Multiple(|Aligned(buf, 4)| + (4 + 2 * fields), 2, 2 * q + 2 + fields);
  }

  // ---------- where a table lies ----------

  /** The table at distance d and its vtable lie at multiples of the widths of the words they begin with. */
  ghost predicate TableAligned(buf: bytes, d: nat) {
    var soff := ReadSigned(buf, |buf| - d);
    d % 4 == 0 && soff.Some? && (d + soff.value) % 2 == 0
  }

  lemma LinkAligns(a: bytes, v: bytes, vtables: seq<nat>)
    requires |a| + 4 + |v| < 0x8000_0000 && VTablesOk(a, vtables) && |a| % 4 == 0 && (|a| + |v|) % 2 == 0
    ensures var r := Link(a, v, vtables); TableAligned(r.buf, r.loc)
  {
    hide ReadLe, FindVTable, Extends, Le, Unle, Signed, ReadSigned, VTableAt;
    match FindVTable(a, vtables, v)
    case Some(o) => LinkShared(a, v, o);
    case None => LinkNew(a, v);
  }

  lemma TableAligns(buf: bytes, adds: seq<Add>, fields: nat, vtables: seq<nat>)
    requires AddsOk(adds, fields, |buf|) && VTablesOk(buf, vtables)
    requires Table(buf, adds, fields, vtables).Some?
    ensures var r := Table(buf, adds, fields, vtables).value; TableAligned(r.buf, r.loc)
  {
    hide Padding, Aligned, AddAll, VTable, DistinctIds, DistinctSlots, Link, Extends, VTablesOk, SlotOk, TableAligned;
    var p := AddAll(buf, adds);
    var a := Aligned(p.buf, 4);
    TableLocsOk(buf, adds, fields);
    ExtendsTransitive(buf, p.buf, a);
    VTablesStable(buf, a, vtables);
    AlignedTo4(p.buf);
    EvenWithVTable(p.buf, fields);
    LinkAligns(a, VTable(fields, |buf|, |a| + 4, p.locs), vtables);
  }
}
