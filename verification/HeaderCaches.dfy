/**
Header lines as they travel: a literal line has id 0; a line with an id and a key is stored in the receiver's cache
under that id; a line with an id and no key stands for what is stored there.
*/
module HeaderCaches {
  import opened Bytes
  import opened HeaderBlocks

  datatype TxLine = TxLine(id: nat, key: bytes, value: bytes)

  type Cache = seq<Line>

  const NO_LINE := Line([], [])

  function Get(cache: Cache, id: nat): Line {
    if id < |cache| then cache[id] else NO_LINE
  }

  function Pad(cache: Cache, n: nat): (c: Cache)
    ensures |c| >= n
    ensures forall i: nat :: Get(c, i) == Get(cache, i)
  {
    if |cache| >= n then cache else cache + seq(n - |cache|, _ => NO_LINE)
  }

  function Insert(cache: Cache, id: nat, line: Line): Cache {
    Pad(cache, id + 1)[id := line]
  }

  predicate Stores(l: TxLine) {
    l.id != 0 && l.key != []
  }

  function LineOf(l: TxLine): Line {
    Line(l.key, l.value)
  }

  function Stored(cache: Cache, l: TxLine): Cache {
    if Stores(l) then Insert(cache, l.id, LineOf(l)) else cache
  }

  function Resolved(cache: Cache, l: TxLine): Line {
    if l.id != 0 then Get(Stored(cache, l), l.id) else LineOf(l)
  }

  function CacheAfter(cache: Cache, lines: seq<TxLine>): Cache {
    if lines == [] then cache else Stored(CacheAfter(cache, lines[..|lines| - 1]), lines[|lines| - 1])
  }

  /** The lines a frame stands for. */
  function ResolveAll(cache: Cache, lines: seq<TxLine>): (r: seq<Line>)
    ensures |r| == |lines|
  {
    if lines == [] then []
    else
      var init := lines[..|lines| - 1];
      ResolveAll(cache, init) + [Resolved(CacheAfter(cache, init), lines[|lines| - 1])]
  }

  lemma CacheAfterStep(cache: Cache, lines: seq<TxLine>, i: nat)
    requires i < |lines|
    ensures CacheAfter(cache, lines[..i + 1]) == Stored(CacheAfter(cache, lines[..i]), lines[i])
    ensures ResolveAll(cache, lines[..i + 1])
         == ResolveAll(cache, lines[..i]) + [Resolved(CacheAfter(cache, lines[..i]), lines[i])]
  {
    assert lines[..i + 1][..i] == lines[..i];
  }

  lemma {:induction false} ResolveAllAt(cache: Cache, lines: seq<TxLine>, i: nat)
    requires i < |lines|
    ensures ResolveAll(cache, lines)[i] == Resolved(CacheAfter(cache, lines[..i]), lines[i])
    ensures ResolveAll(cache, lines)[..i + 1] == ResolveAll(cache, lines[..i + 1])
    decreases |lines|
  {
    hide CacheAfter, Resolved;
    var n := |lines| - 1;
    if i == n {
      assert lines[..n + 1] == lines;
    } else {
      ResolveAllAt(cache, lines[..n], i);
      assert lines[..n][..i] == lines[..i] && lines[..n][..i + 1] == lines[..i + 1];
    }
  }

  // ---------- what the cache holds ----------

  /** The last line stored under an id. */
  function LastStored(lines: seq<TxLine>, id: nat): Line {
    if lines == [] then NO_LINE
    else
      var l := lines[|lines| - 1];
      if Stores(l) && l.id == id then LineOf(l) else LastStored(lines[..|lines| - 1], id)
  }

  /** Storing changes what is under the id only, and grows the list just up to it, if at all. */
  lemma InsertGet(cache: Cache, id: nat, line: Line, i: nat)
    ensures |Insert(cache, id, line)| == Max(|cache|, id + 1)
    ensures Get(Insert(cache, id, line), i) == if i == id then line else Get(cache, i)
  {
    assert Get(Pad(cache, id + 1), i) == Get(cache, i);
  }

  lemma {:induction false} CacheHoldsLastStored(lines: seq<TxLine>, id: nat)
    ensures Get(CacheAfter([], lines), id) == LastStored(lines, id)
    decreases |lines|
  {
    hide Insert, Get;
    if lines == [] {
      assert Get([], id) == NO_LINE by {
        EmptyCache(id);
      }
    } else {
      var init, l := lines[..|lines| - 1], lines[|lines| - 1];
      CacheHoldsLastStored(init, id);
      InsertGet(CacheAfter([], init), l.id, LineOf(l), id);
    }
  }

  lemma EmptyCache(id: nat)
    ensures Get([], id) == NO_LINE
  {
  }

  lemma {:induction false} CacheAfterAppend(cache: Cache, a: seq<TxLine>, b: seq<TxLine>)
    ensures CacheAfter(CacheAfter(cache, a), b) == CacheAfter(cache, a + b)
    decreases |b|
  {
    hide Stored;
    if b == [] {
      assert a + b == a;
    } else {
      var init := b[..|b| - 1];
      CacheAfterAppend(cache, a, init);
      assert (a + b)[..|a + b| - 1] == a + init;
    }
  }

  /** What a line means to its sender, after everything sent before it on the connection. */
  function Meaning(before: seq<TxLine>, l: TxLine): Line {
    if l.id == 0 || l.key != [] then LineOf(l) else LastStored(before, l.id)
  }

  /** The receiver resolves every line of a frame to what its sender meant. */
  lemma ResolvesAsMeant(before: seq<TxLine>, lines: seq<TxLine>, i: nat)
    requires i < |lines|
    ensures ResolveAll(CacheAfter([], before), lines)[i] == Meaning(before + lines[..i], lines[i])
  {
    hide Insert, Get;
    var cache := CacheAfter([], before);
    ResolveAllAt(cache, lines, i);
    CacheAfterAppend([], before, lines[..i]);
    var now := CacheAfter(cache, lines[..i]);
    CacheHoldsLastStored(before + lines[..i], lines[i].id);
    InsertGet(now, lines[i].id, LineOf(lines[i]), lines[i].id);
  }

  // ---------- the separate size computation ----------

  function SizeOfLine(line: Line): nat {
    |line.key| + |line.value|
  }

  /** What TotalHeaderBlockSize counts for a line: a retrieve is looked up in the cache as it was before the frame. */
  function CountedSize(cache: Cache, l: TxLine): nat {
    (if l.key != [] then |l.key| + |l.value| else SizeOfLine(Get(cache, l.id))) + 2
  }

  function Counted(cache: Cache, lines: seq<TxLine>): nat {
    if lines == [] then 0 else Counted(cache, lines[..|lines| - 1]) + CountedSize(cache, lines[|lines| - 1])
  }

  function TotalHeaderBlockSize(cache: Cache, lines: seq<TxLine>): nat {
    Base(|lines|) + Counted(cache, lines)
  }

  /** The block that is allocated is as large as what is laid out in it. */
  ghost predicate SizeExact(cache: Cache, lines: seq<TxLine>) {
    TotalHeaderBlockSize(cache, lines) == |Layout(ResolveAll(cache, lines))|
  }

  /** It is large enough, so that nothing is written behind it. */
  ghost predicate BlockFits(cache: Cache, lines: seq<TxLine>) {
    |Layout(ResolveAll(cache, lines))| <= TotalHeaderBlockSize(cache, lines)
  }

  /**
  What a sender can see to: a line without a key and an id carries no value, and one that retrieves an id does so in a
  later frame than the one that stores it.
  */
  ghost predicate DisciplinedAt(lines: seq<TxLine>, i: nat)
    requires i < |lines|
  {
    lines[i].key == [] ==>
      if lines[i].id == 0 then lines[i].value == []
      else forall j :: 0 <= j < i ==> !(Stores(lines[j]) && lines[j].id == lines[i].id)
  }

  ghost predicate Disciplined(lines: seq<TxLine>) {
    forall i :: 0 <= i < |lines| ==> DisciplinedAt(lines, i)
  }

  /** Nothing is ever stored under id 0. */
  predicate NoZero(cache: Cache) {
    Get(cache, 0) == NO_LINE
  }

  lemma {:induction false} ZeroStaysFree(cache: Cache, lines: seq<TxLine>)
    requires NoZero(cache)
    ensures NoZero(CacheAfter(cache, lines))
    decreases |lines|
  {
    hide Insert, Get;
    if lines != [] {
      var init, l := lines[..|lines| - 1], lines[|lines| - 1];
      ZeroStaysFree(cache, init);
      InsertGet(CacheAfter(cache, init), l.id, LineOf(l), 0);
    }
  }

  lemma {:induction false} NotStoredHere(cache: Cache, lines: seq<TxLine>, id: nat)
    requires forall l <- lines :: !(Stores(l) && l.id == id)
    ensures Get(CacheAfter(cache, lines), id) == Get(cache, id)
    decreases |lines|
  {
    hide Insert, Get;
    if lines != [] {
      var init, l := lines[..|lines| - 1], lines[|lines| - 1];
      forall x | x in init
        ensures !(Stores(x) && x.id == id)
      {
        assert x in lines;
      }
      NotStoredHere(cache, init, id);
      assert l in lines;
      InsertGet(CacheAfter(cache, init), l.id, LineOf(l), id);
    }
  }

  /** Counted and laid out, line by line, in a disciplined frame. */
  lemma LineCounted(cache: Cache, lines: seq<TxLine>, i: nat)
    requires NoZero(cache) && i < |lines| && DisciplinedAt(lines, i)
    ensures CountedSize(cache, lines[i]) == |Item(ResolveAll(cache, lines)[i])|
  {
    hide Insert, ResolveAll, CacheAfter;
    ResolveAllAt(cache, lines, i);
    var now := CacheAfter(cache, lines[..i]);
    InsertGet(now, lines[i].id, LineOf(lines[i]), lines[i].id);
    if lines[i].key == [] && lines[i].id != 0 {
      NotStoredHere(cache, lines[..i], lines[i].id);
    }
  }

  lemma PrefixParts(cache: Cache, lines: seq<TxLine>, i: nat)
    requires i < |lines|
    ensures Counted(cache, lines[..i + 1]) == Counted(cache, lines[..i]) + CountedSize(cache, lines[i])
    ensures var r := ResolveAll(cache, lines); |Text(r[..i + 1])| == |Text(r[..i])| + |Item(r[i])|
  {
    hide ResolveAll, Item, CountedSize, Text;
    TextAt(ResolveAll(cache, lines), i);
    assert lines[..i + 1][..i] == lines[..i];
  }

  lemma NoLines(cache: Cache, lines: seq<TxLine>)
    ensures Counted(cache, lines[..0]) == 0 && |Text(ResolveAll(cache, lines)[..0])| == 0
  {
  }

  lemma {:induction false} PrefixExact(cache: Cache, lines: seq<TxLine>, i: nat)
    requires NoZero(cache) && i <= |lines| && Disciplined(lines)
    ensures Counted(cache, lines[..i]) == |Text(ResolveAll(cache, lines)[..i])|
  {
    hide ResolveAll, Counted, CountedSize, Text, Item, DisciplinedAt;
    if i == 0 {
      NoLines(cache, lines);
    } else {
      PrefixExact(cache, lines, i - 1);
      PrefixParts(cache, lines, i - 1);
      LineCounted(cache, lines, i - 1);
    }
  }

  lemma WholePrefix(cache: Cache, lines: seq<TxLine>)
    ensures var r := ResolveAll(cache, lines);
            && Counted(cache, lines[..|lines|]) == TotalHeaderBlockSize(cache, lines) - Base(|lines|)
            && |Text(r[..|lines|])| == |Layout(r)| - Base(|lines|)
  {
    hide ResolveAll, Text;
    assert lines[..|lines|] == lines && ResolveAll(cache, lines)[..|lines|] == ResolveAll(cache, lines);
  }

  /** On an empty cache nothing is counted too large, and whatever breaks the discipline is counted too small. */
  lemma EmptyCacheCounts(lines: seq<TxLine>, i: nat)
    requires i < |lines|
    ensures CountedSize([], lines[i]) <= |Item(ResolveAll([], lines)[i])|
    ensures !DisciplinedAt(lines, i) ==> CountedSize([], lines[i]) < |Item(ResolveAll([], lines)[i])|
  {
    hide Insert, ResolveAll, CacheAfter;
    ResolveAllAt([], lines, i);
    var now := CacheAfter([], lines[..i]);
    InsertGet(now, lines[i].id, LineOf(lines[i]), lines[i].id);
    if !DisciplinedAt(lines, i) && lines[i].id != 0 {
      var j :| 0 <= j < i && Stores(lines[j]) && lines[j].id == lines[i].id;
      CacheHoldsLastStored(lines[..i], lines[i].id);
      assert lines[..i][j] == lines[j];
      StoredHasKey(lines[..i], j);
    }
  }

  lemma {:induction false} StoredHasKey(lines: seq<TxLine>, j: nat)
    requires j < |lines| && Stores(lines[j])
    ensures LastStored(lines, lines[j].id).key != []
    decreases |lines|
  {
    var n := |lines| - 1;
    if !(Stores(lines[n]) && lines[n].id == lines[j].id) {
      StoredHasKey(lines[..n], j);
    }
  }

  lemma {:induction false} EmptyCacheFallsShort(lines: seq<TxLine>, i: nat)
    requires i <= |lines|
    ensures Counted([], lines[..i]) <= |Text(ResolveAll([], lines)[..i])|
    ensures (exists k :: 0 <= k < i && !DisciplinedAt(lines, k)) ==>
              Counted([], lines[..i]) < |Text(ResolveAll([], lines)[..i])|
  {
    hide ResolveAll, Counted, CountedSize, Text, Item, DisciplinedAt;
    if i == 0 {
      NoLines([], lines);
    } else {
      EmptyCacheFallsShort(lines, i - 1);
      PrefixParts([], lines, i - 1);
      EmptyCacheCounts(lines, i - 1);
    }
  }

  lemma DisciplinedIsExact(cache: Cache, lines: seq<TxLine>)
    requires NoZero(cache) && Disciplined(lines)
    ensures SizeExact(cache, lines) && BlockFits(cache, lines)
  {
    hide ResolveAll, Counted, Text, Layout, Disciplined;
    PrefixExact(cache, lines, |lines|);
    WholePrefix(cache, lines);
  }

  /**
  The size pass is right, whatever the cache holds, exactly for disciplined frames; and for every other frame there is
  a cache with which the block is too small.
  */
  lemma SizeIsExact(lines: seq<TxLine>)
    ensures Disciplined(lines) <==> forall cache: Cache :: NoZero(cache) ==> SizeExact(cache, lines)
    ensures Disciplined(lines) <==> forall cache: Cache :: NoZero(cache) ==> BlockFits(cache, lines)
  {
    hide ResolveAll, Counted, Text, Layout, DisciplinedAt;
    if Disciplined(lines) {
      forall cache: Cache | NoZero(cache)
        ensures SizeExact(cache, lines) && BlockFits(cache, lines)
      {
        DisciplinedIsExact(cache, lines);
      }
    } else {
      EmptyCacheFallsShort(lines, |lines|);
      WholePrefix([], lines);
      assert NoZero([]) && !SizeExact([], lines) && !BlockFits([], lines);
    }
  }

  /** The same over the caches that frames can leave behind: whatever was sent before on the connection. */
  lemma SizeIsExactOverRuns(lines: seq<TxLine>)
    ensures Disciplined(lines) <==> forall before: seq<TxLine> :: SizeExact(CacheAfter([], before), lines)
    ensures Disciplined(lines) <==> forall before: seq<TxLine> :: BlockFits(CacheAfter([], before), lines)
  {
    hide ResolveAll, Counted, Text, Layout, DisciplinedAt, NoZero;
    if Disciplined(lines) {
      forall before: seq<TxLine>
        ensures SizeExact(CacheAfter([], before), lines) && BlockFits(CacheAfter([], before), lines)
      {
        EmptyHasNoZero();
        ZeroStaysFree([], before);
        DisciplinedIsExact(CacheAfter([], before), lines);
      }
    } else {
      EmptyCacheFallsShort(lines, |lines|);
      WholePrefix([], lines);
      assert CacheAfter([], []) == [];
    }
  }

  lemma EmptyHasNoZero()
    ensures NoZero([])
  {
  }

  /** A frame that stores a line over a shorter one and retrieves it at once is laid out past the end of its block. */
  lemma RetrieveInSameFrame()
    ensures var lines := [TxLine(1, [65], [66, 67]), TxLine(1, [], [])];
            TotalHeaderBlockSize([], lines) < |Layout(ResolveAll([], lines))|
  {
    hide Layout, Text;
    var a, b := TxLine(1, [65], [66, 67]), TxLine(1, [], []);
    var lines := [a, b];
    var line := Line([65], [66, 67]);
    assert lines[..1] == [a] && [a][..0] == [];
    InsertGet([], 1, line, 1);
    assert CacheAfter([], [a]) == Stored([], a);
    assert ResolveAll([], [a]) == [line] by {
      assert ResolveAll([], []) == [];
    }
    assert ResolveAll([], lines) == [line] + [line];
    TextOfTwo(line, line);
    assert Counted([], [a]) == 5 by {
      assert Counted([], []) == 0;
    }
  }

  lemma TextOfTwo(a: Line, b: Line)
    ensures |Text([a] + [b])| == |Item(a)| + |Item(b)|
  {
    assert ([a] + [b])[1..] == [b] && [b][1..] == [];
    assert Text([]) == [];
  }

  // ---------- the class ----------

  class HeaderCacheRecv {
    var items: Cache

    constructor ()
      ensures items == []
    {
      items := [];
    }

    method Put(id: nat, line: Line)
      modifies this
      ensures items == Insert(old(items), id, line)
    {
      while |items| <= id
        invariant items == old(items) + seq(|items| - |old(items)|, _ => NO_LINE)
        invariant |old(items)| <= |items|
        invariant |items| <= if |old(items)| <= id then id + 1 else |old(items)|
        decreases id + 1 - |items|
      {
        items := items + [NO_LINE];
      }
      items := items[id := line];
    }

    method Find(id: nat) returns (line: Line)
      ensures line == Get(items, id)
    {
      if id >= |items| {
        line := Line([], []);
      } else {
        line := items[id];
      }
    }

    method SizeOf(lines: seq<TxLine>) returns (total: nat)
      ensures total == TotalHeaderBlockSize(items, lines)
    {
      total := ENTRY * (|lines| + 1);
      assert lines[..0] == [];
      for i := 0 to |lines|
        invariant total == Base(|lines|) + Counted(items, lines[..i])
      {
        assert lines[..i + 1][..i] == lines[..i];
        var line := lines[i];
        if |line.key| != 0 {
          total := total + |line.key| + |line.value|;
        } else {
          var found := Find(line.id);
          total := total + |found.key| + |found.value|;
        }
        total := total + 2;
      }
      assert lines[..|lines|] == lines;
    }
  }
}
