/**
The byte storage of a FlatBuffer under construction: an allocation used from its end towards its start. What a
caller sees is the sequence of used bytes, which only ever grows or shrinks at the front; growing the
allocation never shows.
*/
module VectorsDownward {
  import opened Bytes

  datatype Op = PushOp(data: bytes) | FillOp(n: nat) | PopOp(n: nat)

  /** The byte sequence an operation leaves. */
  function Apply(s: bytes, op: Op): bytes {
    match op
    case PushOp(data) => data + s
    case FillOp(n) => Zeros(n) + s
    case PopOp(n) => if n <= |s| then s[n..] else []
  }

  function ApplyAll(s: bytes, ops: seq<Op>): bytes
    decreases ops
  {
    if ops == [] then s else ApplyAll(Apply(s, ops[0]), ops[1..])
  }

  /** No pop asks for more than is there. */
  predicate Legal(s: bytes, ops: seq<Op>)
    decreases ops
  {
    ops == [] || ((ops[0].PopOp? ==> ops[0].n <= |s|) && Legal(Apply(s, ops[0]), ops[1..]))
  }

  /** alignof(largest_scalar_t) */
  const LARGEST_ALIGN: nat := 8

  lemma EightsAbove(size: nat)
    ensures var q := (size + 7) / 8; size <= q * 8 < size + 8 && q * 8 % 8 == 0
  {
    var q := (size + 7) / 8;
    assert q * 8 == 8 * q;
  }

  lemma EightsBelow(size: nat)
    ensures (size - size % 8) % 8 == 0
  {
    assert size - size % 8 == 8 * (size / 8);
  }

  lemma DropTwice(s: bytes, i: nat, n: nat)
    requires i + n <= |s|
    ensures s[i..][n..] == s[i + n..]
  {
  }

  class VectorDownward {
    var buf: array<byte>
    var cur: nat

    ghost predicate Valid()
      reads this
    {
      cur <= buf.Length && buf.Length % LARGEST_ALIGN == 0
    }

    function Contents(): (s: bytes)
      requires Valid()
      reads this, buf
    {
      buf[cur..]
    }

    constructor (initialSize: nat)
      requires initialSize % LARGEST_ALIGN == 0
      ensures Valid() && fresh(buf) && Contents() == []
    {
      buf := new byte[initialSize];
      cur := initialSize;
    }

    function Size(): (n: nat)
      requires Valid()
      reads this
    {
      buf.Length - cur
    }

    /** How much a full allocation grows by at least: half of it, rounded down. */
    function GrowthPolicy(size: nat): (g: nat)
      ensures g % LARGEST_ALIGN == 0 && g <= size / 2 < g + LARGEST_ALIGN
    {
      EightsBelow(size / 2);
      size / 2 - size / 2 % LARGEST_ALIGN
    }

    function RoundUp(size: nat): (r: nat)
      ensures size <= r < size + LARGEST_ALIGN && r % LARGEST_ALIGN == 0
    {
      EightsAbove(size);
      (size + (LARGEST_ALIGN - 1)) / LARGEST_ALIGN * LARGEST_ALIGN
    }

    /** A larger allocation with at least n free bytes in front, and the same contents at its end. */
    method Reallocate(n: nat)
      requires Valid() && n > cur
      modifies this
      ensures Valid() && fresh(buf) && n <= cur
      ensures buf.Length == RoundUp(old(buf.Length) + Max(n, GrowthPolicy(old(buf.Length))))
      ensures Size() == old(Size()) && Contents() == old(Contents())
    {
      var oldSize := Size();
      var growth := GrowthPolicy(buf.Length);
      var reserved := RoundUp(buf.Length + if n < growth then growth else n);
      var newBuf := new byte[reserved];
      var newCur := reserved - oldSize;
      forall i | 0 <= i < oldSize {
        newBuf[newCur + i] := buf[cur + i];
      }
      assert newBuf[newCur..] == buf[cur..];
      buf, cur := newBuf, newCur;
    }

    /** Make room for n bytes in front. Every byte already there keeps its distance from the end. */
    method MakeSpace(n: nat)
      requires Valid()
      modifies this
      ensures Valid() && (buf == old(buf) || fresh(buf))
      ensures Size() == old(Size()) + n && Contents()[n..] == old(Contents())
      ensures n <= old(cur) <==> buf == old(buf)
    {
      if n > cur {
        Reallocate(n);
      }
      DropTwice(buf[..], cur - n, n);
      assert buf[cur - n..] == buf[..][cur - n..] && buf[cur..] == buf[..][cur..];
      cur := cur - n;
    }

    method Push(data: bytes)
      requires Valid()
      modifies this, buf
      ensures Valid() && (buf == old(buf) || fresh(buf))
      ensures Contents() == data + old(Contents())
    {
      hide Put;
      MakeSpace(|data|);
      var dest, at := buf, cur;
      ghost var was := buf[..];
      assert data[..0] == [];
      PutNothing(was, at);
      for i := 0 to |data|
        invariant buf == dest && cur == at && buf[..] == Put(was, at, data[..i])
      {
        PutOne(was, at, data[..i], data[i]);
        assert data[..i + 1] == data[..i] + [data[i]];
        dest[at + i] := data[i];
      }
      assert data[..|data|] == data;
      PutInFront(was, at, data);
    }

    method Fill(n: nat)
      requires Valid()
      modifies this, buf
      ensures Valid() && (buf == old(buf) || fresh(buf))
      ensures Contents() == Zeros(n) + old(Contents())
    {
      hide Put;
      MakeSpace(n);
      var dest, at := buf, cur;
      ghost var was := buf[..];
      assert Zeros(0) == [];
      PutNothing(was, at);
      for i := 0 to n
        invariant buf == dest && cur == at && buf[..] == Put(was, at, Zeros(i))
      {
        PutOne(was, at, Zeros(i), 0);
        assert Zeros(i + 1) == Zeros(i) + [0];
        dest[at + i] := 0;
      }
      PutInFront(was, at, Zeros(n));
    }

    method Pop(n: nat)
      requires Valid() && n <= Size()
      modifies `cur
      ensures Valid() && Contents() == old(Contents())[n..]
    {
      cur := cur + n;
    }

    /** WriteScalar through data() + pos: overwrite bytes that are already used. */
    method Poke(pos: nat, data: bytes)
      requires Valid() && pos + |data| <= Size()
      modifies buf
      ensures Contents() == Put(old(Contents()), pos, data)
    {
      hide Put;
      ghost var was := buf[..];
      var at := cur + pos;
      assert data[..0] == [];
      PutNothing(was, at);
      for i := 0 to |data|
        invariant buf[..] == Put(was, at, data[..i])
      {
        PutOne(was, at, data[..i], data[i]);
        assert data[..i + 1] == data[..i] + [data[i]];
        buf[at + i] := data[i];
      }
      assert data[..|data|] == data;
      PutDropped(was, cur, pos, data);
      assert was[cur..] == old(Contents());
      assert buf[cur..] == buf[..][cur..];
    }

    /** Any legal sequence of operations, whatever the allocations on the way, acts on the byte sequence alone. */
    method Replay(ops: seq<Op>)
      requires Valid() && Legal(Contents(), ops)
      modifies this, buf
      ensures Valid() && (buf == old(buf) || fresh(buf))
      ensures Contents() == ApplyAll(old(Contents()), ops)
    {
      for i := 0 to |ops|
        invariant Valid() && (buf == old(buf) || fresh(buf))
        invariant Legal(Contents(), ops[i..])
        invariant ApplyAll(Contents(), ops[i..]) == ApplyAll(old(Contents()), ops)
      {
        assert ops[i..][1..] == ops[i + 1..];
        match ops[i] {
          case PushOp(data) => Push(data);
          case FillOp(n) => Fill(n);
          case PopOp(n) => Pop(n);
        }
      }
    }
  }

  lemma PutInFront(s: bytes, cur: nat, d: bytes)
    requires cur + |d| <= |s|
    ensures Put(s, cur, d)[cur..] == d + s[cur..][|d|..]
  {
  }
}
