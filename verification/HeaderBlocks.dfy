/**
The header block of a request: an index of (key start, key length) entries with a terminal entry, then every key and
value followed by a zero byte. The first line is the method and the URI.
*/
module HeaderBlocks {
  import opened Bytes

  datatype Line = Line(key: bytes, value: bytes)

  const ENTRY: nat := 8

  /** An index entry: two 32-bit numbers. */
  function Entry(start: nat, len: nat): (e: bytes)
    ensures |e| == ENTRY
  {
    Le(start, 4) + Le(len, 4)
  }

  function Item(line: Line): (t: bytes)
    ensures |t| == |line.key| + |line.value| + 2
  {
    line.key + [0] + line.value + [0]
  }

  function Entries(lines: seq<Line>, start: nat): (e: bytes)
    ensures |e| == ENTRY * |lines|
  {
    if lines == [] then [] else Entry(start, |lines[0].key|) + Entries(lines[1..], start + |Item(lines[0])|)
  }

  function Text(lines: seq<Line>): bytes {
    if lines == [] then [] else Item(lines[0]) + Text(lines[1..])
  }

  /** Where the text begins. */
  function Base(n: nat): nat {
    ENTRY * (n + 1)
  }

  function Layout(lines: seq<Line>): (block: bytes)
    ensures |block| == Base(|lines|) + |Text(lines)|
  {
    Entries(lines, Base(|lines|)) + Entry(Base(|lines|) + |Text(lines)|, 0) + Text(lines)
  }

  lemma {:induction false} TextAppend(lines: seq<Line>, line: Line)
    ensures Text(lines + [line]) == Text(lines) + Item(line)
  {
    hide Item;
    if lines == [] {
      assert lines + [line] == [line] && [line][1..] == [];
      assert Text([]) == [];
    } else {
      assert (lines + [line])[1..] == lines[1..] + [line];
      TextAppend(lines[1..], line);
      assert Item(lines[0]) + (Text(lines[1..]) + Item(line)) == Item(lines[0]) + Text(lines[1..]) + Item(line);
    }
  }

  lemma {:induction false} EntriesAppend(lines: seq<Line>, line: Line, start: nat)
    ensures Entries(lines + [line], start) == Entries(lines, start) + Entry(start + |Text(lines)|, |line.key|)
  {
    hide Entry, Item;
    if lines == [] {
      assert lines + [line] == [line] && [line][1..] == [];
      assert Entries([], start + |Item(line)|) == [];
    } else {
      var next := start + |Item(lines[0])|;
      assert (lines + [line])[1..] == lines[1..] + [line];
      EntriesAppend(lines[1..], line, next);
      var first, rest := Entry(start, |lines[0].key|), Entries(lines[1..], next);
      var last := Entry(next + |Text(lines[1..])|, |line.key|);
      assert first + (rest + last) == first + rest + last;
    }
  }

  lemma SliceBehind(pre: bytes, t: bytes, a: nat, b: nat)
    requires a <= b <= |t|
    ensures (pre + t)[|pre| + a..|pre| + b] == t[a..b]
  {
  }

  lemma SliceInFront(e: bytes, x: bytes, y: bytes, a: nat, b: nat)
    requires a <= b <= |e|
    ensures (e + x + y)[a..b] == e[a..b]
  {
  }

  lemma {:induction false} TextAt(lines: seq<Line>, i: nat)
    requires i < |lines|
    ensures |Text(lines[..i + 1])| == |Text(lines[..i])| + |Item(lines[i])| <= |Text(lines)|
    ensures Text(lines)[|Text(lines[..i])|..|Text(lines[..i + 1])|] == Item(lines[i])
  {
    hide Item;
    if i == 0 {
      assert lines[..1] == [lines[0]] && lines[..1][1..] == [];
      assert Text(lines[..0]) == [];
    } else {
      TextAt(lines[1..], i - 1);
      assert lines[..i + 1][1..] == lines[1..][..i] && lines[..i][1..] == lines[1..][..i - 1];
      var head, tail := Item(lines[0]), Text(lines[1..]);
      SliceBehind(head, tail, |Text(lines[1..][..i - 1])|, |Text(lines[1..][..i])|);
    }
  }

  lemma {:induction false} EntryAt(lines: seq<Line>, start: nat, i: nat)
    requires i < |lines|
    ensures Entries(lines, start)[ENTRY * i..ENTRY * i + ENTRY] == Entry(start + |Text(lines[..i])|, |lines[i].key|)
  {
    hide Entry, Item;
    if i == 0 {
      assert Text(lines[..0]) == [];
    } else {
      var first := Entry(start, |lines[0].key|);
      var rest := Entries(lines[1..], start + |Item(lines[0])|);
      EntryAt(lines[1..], start + |Item(lines[0])|, i - 1);
      assert lines[..i][1..] == lines[1..][..i - 1];
      SliceBehind(first, rest, ENTRY * (i - 1), ENTRY * (i - 1) + ENTRY);
    }
  }

  // ---------- reading ----------

  function KeyStart(block: bytes, i: nat): nat
    requires ENTRY * i + ENTRY <= |block|
  {
    Unle(block[ENTRY * i..ENTRY * i + 4])
  }

  function KeyLen(block: bytes, i: nat): nat
    requires ENTRY * i + ENTRY <= |block|
  {
    Unle(block[ENTRY * i + 4..ENTRY * i + 8])
  }

  lemma EntryReads(block: bytes, i: nat, start: nat, len: nat)
    requires ENTRY * i + ENTRY <= |block| && start < U32_LIMIT && len < U32_LIMIT
    requires block[ENTRY * i..ENTRY * i + ENTRY] == Entry(start, len)
    ensures KeyStart(block, i) == start && KeyLen(block, i) == len
  {
    hide Le, Unle;
    Widths();
    RoundTrip(start, 4);
    RoundTrip(len, 4);
    var e := block[ENTRY * i..ENTRY * i + ENTRY];
    assert block[ENTRY * i..ENTRY * i + 4] == e[..4] == Le(start, 4);
    assert block[ENTRY * i + 4..ENTRY * i + 8] == e[4..8] == Le(len, 4);
  }

  function StartOf(lines: seq<Line>, i: nat): nat
    requires i <= |lines|
  {
    Base(|lines|) + |Text(lines[..i])|
  }

  /** A block laid out for lines, with anything behind it. */
  ghost predicate IsBlock(block: bytes, lines: seq<Line>) {
    && |Layout(lines)| < U32_LIMIT
    && |Layout(lines)| <= |block| && block[..|Layout(lines)|] == Layout(lines)
  }

  lemma LineStart(block: bytes, lines: seq<Line>, i: nat)
    requires IsBlock(block, lines) && i < |lines|
    ensures ENTRY * i + ENTRY <= |block|
    ensures KeyStart(block, i) == StartOf(lines, i) && KeyLen(block, i) == |lines[i].key|
  {
    hide Entry, Item, Text, Unle, Entries;
    EntryAt(lines, Base(|lines|), i);
    TextAt(lines, i);
    var l, e := Layout(lines), Entries(lines, Base(|lines|));
    var terminal := Entry(Base(|lines|) + |Text(lines)|, 0);
    assert l == e + terminal + Text(lines);
    SliceOfSlice(block, 0, |l|, ENTRY * i, ENTRY * i + ENTRY);
    SliceInFront(e, terminal, Text(lines), ENTRY * i, ENTRY * i + ENTRY);
    EntryReads(block, i, StartOf(lines, i), |lines[i].key|);
  }

  lemma TerminalStart(block: bytes, lines: seq<Line>)
    requires IsBlock(block, lines)
    ensures ENTRY * |lines| + ENTRY <= |block|
    ensures KeyStart(block, |lines|) == StartOf(lines, |lines|) == |Layout(lines)|
  {
    hide Entry, Item, Text, Unle, Entries;
    assert lines[..|lines|] == lines;
    var l, n := Layout(lines), |lines|;
    var e, terminal := Entries(lines, Base(n)), Entry(|l|, 0);
    assert l == e + terminal + Text(lines);
    SliceOfSlice(block, 0, |l|, ENTRY * n, ENTRY * n + ENTRY);
    SliceInFront(e + terminal, Text(lines), [], ENTRY * n, ENTRY * n + ENTRY);
    assert l + [] == l;
    SliceBehind(e, terminal, 0, ENTRY);
    assert terminal[0..ENTRY] == terminal;
    EntryReads(block, n, |l|, 0);
  }

  /** Line i lies where its entry says: key, zero, value, zero, and the next entry's start right behind. */
  lemma LineAt(block: bytes, lines: seq<Line>, i: nat)
    requires IsBlock(block, lines) && i < |lines|
    ensures ENTRY * (i + 1) + ENTRY <= |block|
    ensures var s, k := KeyStart(block, i), |lines[i].key|;
            && KeyLen(block, i) == k
            && KeyStart(block, i + 1) == s + k + 1 + |lines[i].value| + 1 <= |block|
            && block[s..s + k] == lines[i].key && block[s + k] == 0
            && block[s + k + 1..s + k + 1 + |lines[i].value|] == lines[i].value
            && block[s + k + 1 + |lines[i].value|] == 0
  {
    hide Entry, Text, Unle, Entries;
    LineStart(block, lines, i);
    TextAt(lines, i);
    if i + 1 < |lines| {
      LineStart(block, lines, i + 1);
    } else {
      TerminalStart(block, lines);
    }
    var s, n := StartOf(lines, i), |Item(lines[i])|;
    ItemInLayout(lines, i);
    SliceOfSlice(block, 0, |Layout(lines)|, s, s + n);
    ItemParts(block, s, lines[i]);
  }

  lemma ItemInLayout(lines: seq<Line>, i: nat)
    requires i < |lines|
    ensures var s := StartOf(lines, i);
            s + |Item(lines[i])| <= |Layout(lines)| && Layout(lines)[s..s + |Item(lines[i])|] == Item(lines[i])
  {
    hide Entry, Item, Text, Entries;
    TextAt(lines, i);
    var base := Base(|lines|);
    var index := Entries(lines, base) + Entry(base + |Text(lines)|, 0);
    SliceBehind(index, Text(lines), |Text(lines[..i])|, |Text(lines[..i + 1])|);
  }

  lemma ItemParts(block: bytes, s: nat, line: Line)
    requires s + |Item(line)| <= |block| && block[s..s + |Item(line)|] == Item(line)
    ensures var k, v := |line.key|, |line.value|;
            && block[s..s + k] == line.key && block[s + k] == 0
            && block[s + k + 1..s + k + 1 + v] == line.value && block[s + k + 1 + v] == 0
  {
    var k, v, t := |line.key|, |line.value|, Item(line);
    assert t[..k] == line.key && t[k] == 0;
    assert t[k + 1..k + 1 + v] == line.value && t[k + 1 + v] == 0;
    SliceOfSlice(block, s, s + |t|, 0, k);
    SliceOfSlice(block, s, s + |t|, k + 1, k + 1 + v);
    assert block[s + k] == block[s..s + |t|][k] && block[s + k + 1 + v] == block[s..s + |t|][k + 1 + v];
  }
}
