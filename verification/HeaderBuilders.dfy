/** The three builders of a header block: from a frame, from a parsed request text, and for a mocked request. */
module HeaderBuilders {
  import opened Bytes
  import opened HeaderBlocks
  import opened HeaderCaches

  const INT32_LIMIT: nat := 0x8000_0000

  /** How far a block has been filled in: i entries, and the text of the same lines up to hpos. */
  ghost predicate Filled(block: bytes, done: seq<Line>, n: nat, hpos: nat) {
    && |done| <= n
    && hpos == Base(n) + |Text(done)| <= |block|
    && block[..ENTRY * |done|] == Entries(done, Base(n))
    && block[Base(n)..hpos] == Text(done)
  }

  lemma NothingFilled(block: bytes, n: nat)
    requires Base(n) <= |block|
    ensures Filled(block, [], n, Base(n))
  {
  }

  /** Writing one entry and one item extends what is filled. */
  lemma FilledStep(block: bytes, done: seq<Line>, n: nat, hpos: nat, line: Line)
    requires Filled(block, done, n, hpos) && |done| < n && hpos + |Item(line)| <= |block|
    ensures var r := Bytes.Put(Bytes.Put(block, ENTRY * |done|, Entry(hpos, |line.key|)), hpos, Item(line));
            Filled(r, done + [line], n, hpos + |Item(line)|)
  {
    hide Entry, Item, Entries, Text;
    var at, e, t := ENTRY * |done|, Entry(hpos, |line.key|), Item(line);
    EntriesAppend(done, line, Base(n));
    TextAppend(done, line);
    PutTwice(block, at, e, Base(n), hpos, t);
  }

  lemma PutTwice(block: bytes, at: nat, e: bytes, base: nat, hpos: nat, t: bytes)
    requires at + |e| <= base <= hpos && hpos + |t| <= |block|
    ensures var r := Bytes.Put(Bytes.Put(block, at, e), hpos, t);
            && |r| == |block|
            && r[..at + |e|] == block[..at] + e
            && r[base..hpos + |t|] == block[base..hpos] + t
  {
    var b1 := Bytes.Put(block, at, e);
    var r := Bytes.Put(b1, hpos, t);
    assert b1[..at + |e|] == block[..at] + e;
    assert r[..at + |e|] == b1[..at + |e|];
    assert b1[base..hpos] == block[base..hpos];
    assert r[base..hpos + |t|] == b1[base..hpos] + t;
  }

  lemma FilledDone(block: bytes, lines: seq<Line>, hpos: nat)
    requires Filled(block, lines, |lines|, hpos)
    ensures hpos == |Layout(lines)| <= |block|
    ensures Bytes.Put(block, ENTRY * |lines|, Entry(hpos, 0))[..hpos] == Layout(lines)
  {
    hide Entry, Item, Entries, Text;
    var r := Bytes.Put(block, ENTRY * |lines|, Entry(hpos, 0));
    assert r[..hpos] == block[..ENTRY * |lines|] + Entry(hpos, 0) + block[Base(|lines|)..hpos];
  }

  method WriteEntry(hblock: array<byte>, i: nat, start: nat, len: nat)
    requires ENTRY * i + ENTRY <= hblock.Length
    modifies hblock
    ensures hblock[..] == Bytes.Put(old(hblock[..]), ENTRY * i, Entry(start, len))
  {
    Copy(hblock, ENTRY * i, Le(start, 4) + Le(len, 4));
  }

  /** memcpy */
  method Copy(dst: array<byte>, at: nat, src: bytes)
    requires at + |src| <= dst.Length
    modifies dst
    ensures dst[..] == Bytes.Put(old(dst[..]), at, src)
  {
    forall i | 0 <= i < |src| {
      dst[at + i] := src[i];
    }
  }

  lemma PutAdjacent(s: bytes, at: nat, a: bytes, b: bytes)
    requires at + |a| + |b| <= |s|
    ensures Bytes.Put(Bytes.Put(s, at, a), at + |a|, b) == Bytes.Put(s, at, a + b)
  {
  }

  lemma PutApart(s: bytes, at: nat, a: bytes, pos: nat, b: bytes)
    requires at + |a| <= pos && pos + |b| <= |s|
    ensures Bytes.Put(Bytes.Put(s, pos, b), at, a) == Bytes.Put(Bytes.Put(s, at, a), pos, b)
  {
  }

  /** A copy and its terminator. */
  method CopyTerminated(dst: array<byte>, at: nat, src: bytes) returns (next: nat)
    requires at + |src| + 1 <= dst.Length
    modifies dst
    ensures next == at + |src| + 1 && dst[..] == Bytes.Put(old(dst[..]), at, src + [0])
  {
    hide Bytes.Put;
    ghost var was := dst[..];
    Copy(dst, at, src);
    PutOne(was, at, src, 0);
    dst[at + |src|] := 0;
    next := at + |src| + 1;
  }

  /** The body of UnpackHeader's loop: key, zero, index entry, value, zero. */
  method UnpackLine(hblock: array<byte>, i: nat, hpos: nat, line: Line, ghost n: nat, ghost done: seq<Line>)
    returns (next: nat)
    requires Filled(hblock[..], done, n, hpos) && i == |done| < n && hpos + |Item(line)| <= hblock.Length
    modifies hblock
    ensures Filled(hblock[..], done + [line], n, next) && next == hpos + |Item(line)|
  {
    hide Bytes.Put, Entry, Entries, Text, Filled;
    ghost var was, e := hblock[..], Entry(hpos, |line.key|);
    FilledBounds(was, done, n, hpos);
    next := CopyTerminated(hblock, hpos, line.key);
    WriteEntry(hblock, i, hpos, |line.key|);
    next := CopyTerminated(hblock, next, line.value);
    EntryBetween(was, ENTRY * i, e, hpos, line);
    FilledStep(was, done, n, hpos, line);
  }

  /** The order in which a line's parts are written does not matter. */
  lemma EntryBetween(s: bytes, at: nat, e: bytes, hpos: nat, line: Line)
    requires at + |e| <= hpos && hpos + |Item(line)| <= |s|
    ensures var k, v := line.key + [0], line.value + [0]; var done := Bytes.Put(Bytes.Put(s, at, e), hpos, Item(line));
            && Bytes.Put(Bytes.Put(Bytes.Put(s, hpos, k), at, e), hpos + |k|, v) == done
            && Bytes.Put(Bytes.Put(Bytes.Put(s, at, e), hpos, k), hpos + |k|, v) == done
  {
    hide Bytes.Put;
    var k, v := line.key + [0], line.value + [0];
    PutApart(s, at, e, hpos, k);
    PutAdjacent(Bytes.Put(s, at, e), hpos, k, v);
    assert k + v == Item(line);
  }

  lemma FilledBounds(block: bytes, done: seq<Line>, n: nat, hpos: nat)
    requires Filled(block, done, n, hpos) && |done| < n
    ensures ENTRY * |done| + ENTRY <= Base(n) <= hpos <= |block|
  {
  }

  /**
  UnpackHeader: the resolved lines are laid out at the front of the block that was counted for them, and the cache is
  brought up to date. Where the block is too small, the writes would go behind it.
  */
  method UnpackHeader(cache: HeaderCacheRecv, headers: seq<TxLine>) returns (hblock: array<byte>)
    requires BlockFits(cache.items, headers)
    requires TotalHeaderBlockSize(cache.items, headers) < INT32_LIMIT
    modifies cache
    ensures hblock.Length == TotalHeaderBlockSize(old(cache.items), headers)
    ensures IsBlock(hblock[..], ResolveAll(old(cache.items), headers))
    ensures cache.items == CacheAfter(old(cache.items), headers)
  {
    hide Filled, Layout, Text, Entry, Item, Counted, ResolveAll, CacheAfter, Insert, Get;
    var size := cache.SizeOf(headers);
    ghost var before := cache.items;
    ghost var all := ResolveAll(before, headers);
    hblock := new byte[size];
    var hpos: nat := (|headers| + 1) * ENTRY;
    NothingFilled(hblock[..], |headers|);
    StartOfFrame(before, headers);
    for i := 0 to |headers|
      invariant cache.items == CacheAfter(before, headers[..i])
      invariant Filled(hblock[..], all[..i], |headers|, hpos)
    {
      CacheAfterStep(before, headers, i);
      ResolveAllAt(before, headers, i);
      var line := ResolveLine(cache, headers[i]);
      assert all[..i + 1] == all[..i] + [line];
      ItemFits(hblock[..], all, i, hpos);
      hpos := UnpackLine(hblock, i, hpos, line, |headers|, all[..i]);
    }
    assert all[..|headers|] == all && headers[..|headers|] == headers;
    FilledDone(hblock[..], all, hpos);
    WriteEntry(hblock, |headers|, hpos, 0);
  }

  lemma StartOfFrame(before: Cache, headers: seq<TxLine>)
    ensures CacheAfter(before, headers[..0]) == before
    ensures ResolveAll(before, headers)[..0] == []
  {
  }

  /** The items not yet written fit behind those that are. */
  lemma ItemFits(block: bytes, all: seq<Line>, i: nat, hpos: nat)
    requires i < |all| && Filled(block, all[..i], |all|, hpos) && |Layout(all)| <= |block|
    ensures hpos + |Item(all[i])| <= |block|
  {
    hide Text, Entries, Item;
    TextAt(all, i);
  }

  /** What UnpackHeader copies for one line. */
  method ResolveLine(cache: HeaderCacheRecv, l: TxLine) returns (line: Line)
    modifies cache
    ensures cache.items == Stored(old(cache.items), l) && line == Resolved(old(cache.items), l)
  {
    if l.id != 0 {
      if |l.key| != 0 {
        cache.Put(l.id, Line(l.key, l.value));
      }
      line := cache.Find(l.id);
    } else {
      line := Line(l.key, l.value);
    }
  }

  // ---------- the second builder ----------

  method WriteHeaderBlockItem(hblock: array<byte>, ipos: nat, bufpos: nat, line: Line,
                              ghost n: nat, ghost done: seq<Line>)
    returns (nextIpos: nat, nextBufpos: nat)
    requires Filled(hblock[..], done, n, bufpos) && ipos == |done| < n && bufpos + |Item(line)| <= hblock.Length
    modifies hblock
    ensures nextIpos == ipos + 1 && nextBufpos == bufpos + |Item(line)|
    ensures Filled(hblock[..], done + [line], n, nextBufpos)
  {
    hide Bytes.Put, Entry, Entries, Text, Filled;
    ghost var was, e := hblock[..], Entry(bufpos, |line.key|);
    FilledBounds(was, done, n, bufpos);
    WriteEntry(hblock, ipos, bufpos, |line.key|);
    var next := CopyTerminated(hblock, bufpos, line.key);
    next := CopyTerminated(hblock, next, line.value);
    EntryBetween(was, ENTRY * ipos, e, bufpos, line);
    nextIpos := ipos + 1;
    nextBufpos := bufpos + |line.key| + |line.value| + 2;
    FilledStep(was, done, n, bufpos, line);
  }

  function SizeOfLines(lines: seq<Line>): nat {
    if lines == [] then 0 else SizeOfLines(lines[..|lines| - 1]) + |Item(lines[|lines| - 1])|
  }

  lemma {:induction false} SizeOfLinesIsText(lines: seq<Line>)
    ensures SizeOfLines(lines) == |Text(lines)|
    decreases |lines|
  {
    hide Item;
    if lines != [] {
      var init := lines[..|lines| - 1];
      SizeOfLinesIsText(init);
      TextAppend(init, lines[|lines| - 1]);
      assert lines == init + [lines[|lines| - 1]];
    }
  }

  lemma NextPrefix(first: Line, rest: seq<Line>, i: nat)
    requires i < |rest|
    ensures ([first] + rest)[..i + 2] == ([first] + rest)[..i + 1] + [rest[i]]
  {
  }

  /** cb_header_done: the same layout, from the parsed method, URI and headers. */
  method HeaderDone(verb: bytes, uri: bytes, headers: seq<Line>) returns (hblock: array<byte>)
    requires |Layout([Line(verb, uri)] + headers)| < U32_LIMIT
    ensures hblock[..] == Layout([Line(verb, uri)] + headers)
  {
    hide Filled, Layout, Text, Entry, Item, SizeOfLines;
    ghost var all := [Line(verb, uri)] + headers;
    var n := |headers| + 1;
    var total := MeasureHeaders(verb, uri, headers);
    SizeOfLinesIsText(all);
    hblock := new byte[total];
    var ipos: nat, bufpos: nat := 0, ENTRY * (|headers| + 2);
    NothingFilled(hblock[..], n);
    assert all[..0] == [];
    ItemFits(hblock[..], all, 0, bufpos);
    ipos, bufpos := WriteHeaderBlockItem(hblock, ipos, bufpos, Line(verb, uri), n, []);
    assert all[..1] == [] + [Line(verb, uri)];
    for i := 0 to |headers|
      invariant ipos == i + 1 && Filled(hblock[..], all[..i + 1], n, bufpos)
    {
      ItemFits(hblock[..], all, i + 1, bufpos);
      ipos, bufpos := WriteHeaderBlockItem(hblock, ipos, bufpos, headers[i], n, all[..i + 1]);
      NextPrefix(Line(verb, uri), headers, i);
    }
    assert all[..n] == all;
    FilledDone(hblock[..], all, bufpos);
    WriteEntry(hblock, ipos, bufpos, 0);
    assert bufpos == total;
    assert hblock[..] == hblock[..][..bufpos];
  }

  method MeasureHeaders(verb: bytes, uri: bytes, headers: seq<Line>) returns (total: nat)
    ensures total == Base(|headers| + 1) + SizeOfLines([Line(verb, uri)] + headers)
  {
    ghost var all := [Line(verb, uri)] + headers;
    total := ENTRY * (|headers| + 2);
    total := total + |verb| + |uri| + 2;
    assert all[..1] == [Line(verb, uri)] && all[..1][..0] == [];
    for i := 0 to |headers|
      invariant total == Base(|headers| + 1) + SizeOfLines(all[..i + 1])
    {
      total := total + |headers[i].key| + |headers[i].value| + 2;
      assert all[..i + 2][..i + 1] == all[..i + 1] && all[..i + 2][i + 1] == headers[i];
    }
    assert all[..|headers| + 1] == all;
  }

  // ---------- the third builder ----------

  /** CreateMocked appends a terminal line like any other, so two zero bytes follow the layout. */
  method CreateMocked(verb: bytes, uri: bytes, headers: seq<Line>) returns (block: bytes)
    requires |Layout([Line(verb, uri)] + headers)| < INT32_LIMIT
    ensures block == Layout([Line(verb, uri)] + headers) + [0, 0]
    ensures IsBlock(block, [Line(verb, uri)] + headers)
  {
    hide Layout, Text, Entries, Entry, Item;
    ghost var all := [Line(verb, uri)] + headers;
    var kvSize := ENTRY * (2 + |headers|);
    var content, entries := Item(Line(verb, uri)), Entry(kvSize, |verb|);
    assert all[..1] == [] + [Line(verb, uri)];
    TextAppend([], Line(verb, uri));
    EntriesAppend([], Line(verb, uri), kvSize);
    EmptyLines(kvSize);
    assert [] + content == content && [] + entries == entries;
    for i := 0 to |headers|
      invariant content == Text(all[..i + 1]) && entries == Entries(all[..i + 1], kvSize)
    {
      NextPrefix(Line(verb, uri), headers, i);
      TextAppend(all[..i + 1], headers[i]);
      EntriesAppend(all[..i + 1], headers[i], kvSize);
      entries := entries + Entry(kvSize + |content|, |headers[i].key|);
      content := content + Item(headers[i]);
    }
    assert all[..|headers| + 1] == all;
    entries := entries + Entry(kvSize + |content|, 0);
    content := content + [0] + [0];
    block := entries + content;
    MockedLayout(all, kvSize);
    assert Text(all) + [0] + [0] == Text(all) + [0, 0];
    assert block == (entries + Text(all)) + [0, 0];
    assert block[..|Layout(all)|] == Layout(all);
  }

  lemma EmptyLines(start: nat)
    ensures Text([]) == [] && Entries([], start) == []
  {
  }

  lemma MockedLayout(lines: seq<Line>, kvSize: nat)
    requires kvSize == Base(|lines|)
    ensures Layout(lines) == Entries(lines, kvSize) + Entry(kvSize + |Text(lines)|, 0) + Text(lines)
  {
  }
}
