/**
How the C++ client cuts the server's byte stream into frames: a buffer that is appended to by reads of at most 64 KiB
and compacted by one frame per call. Call is one call of RecvInternal on values; the class method is proved to be it.
*/
module CppReassembly {
  import opened Bytes
  import opened Framing
  import opened Buffers

  const MAX_RECV: nat := 65536
  const MAX_BUF_SIZE: nat := 1024 * 1024
  const MAX_FRAME_SIZE: nat := 100 * 1024 * 1024

  datatype Status = Open | TooBig | Invalid

  /** Received bytes not yet processed, bytes still on the way, and the frames processed so far. */
  datatype Conn = Conn(buffer: bytes, pending: bytes, processed: seq<payload>, status: Status)

  /** The size test is made in 32 bits. */
  predicate NeedsRead(b: bytes) {
    |b| < 8 || |b| < (8 + SizeOf(b)) % U32_LIMIT
  }

  /** A call reads exactly when no frame of acceptable size is complete yet. */
  lemma ReadsUntilComplete(b: bytes)
    requires |b| >= 8 ==> SizeOf(b) <= MAX_FRAME_SIZE
    ensures NeedsRead(b) <==> |b| < 8 || |b| < 8 + SizeOf(b)
  {
  }

  predicate IsInvalid(b: bytes) {
    |b| >= 8 && (MagicOf(b) != MAGIC_FRAME_MARKER || SizeOf(b) > MAX_FRAME_SIZE)
  }

  /** What the transport delivers when it has n bytes at hand. */
  function Taken(c: Conn, n: nat): (k: nat)
    ensures k <= |c.pending| && k <= MAX_RECV
  {
    if NeedsRead(c.buffer) then Min(Min(n, MAX_RECV), |c.pending|) else 0
  }

  function Call(c: Conn, n: nat): Conn {
    if c.status != Open then c
    else if |c.buffer| >= MAX_BUF_SIZE then c.(status := TooBig)
    else
      var k := Taken(c, n);
      Process(c.(buffer := c.buffer + c.pending[..k], pending := c.pending[k..]))
  }

  function Process(c: Conn): Conn {
    if IsInvalid(c.buffer) then c.(status := Invalid)
    else if HasFrame(c.buffer) then
      var n := SizeOf(c.buffer);
      c.(buffer := c.buffer[8 + n..], processed := c.processed + [c.buffer[8..8 + n]])
    else c
  }

  function Run(c: Conn, chops: seq<nat>): Conn
    decreases |chops|
  {
    if chops == [] then c else Run(Call(c, chops[0]), chops[1..])
  }

  // ---------- every run processes the stream's frames in order ----------

  ghost predicate Acceptable(frames: seq<payload>) {
    forall f <- frames :: |f| <= MAX_FRAME_SIZE
  }

  ghost predicate Small(frames: seq<payload>) {
    forall f <- frames :: 8 + |f| <= MAX_BUF_SIZE
  }

  /** The frames processed so far, and the rest still in the buffer or on the way, make up the stream. */
  ghost predicate Tracks(c: Conn, frames: seq<payload>) {
    && |c.processed| <= |frames| && c.processed == frames[..|c.processed|]
    && c.buffer + c.pending == Flatten(frames[|c.processed|..])
  }

  lemma FrontOfFlatten(frames: seq<payload>, b: bytes, pending: bytes)
    requires b + pending == Flatten(frames) && |b| >= 8
    ensures frames != [] && MagicOf(b) == MAGIC_FRAME_MARKER && SizeOf(b) == |frames[0]|
    ensures HasFrame(b) <==> |b| >= 8 + |frames[0]|
    ensures HasFrame(b) ==> b[8..8 + SizeOf(b)] == frames[0]
    ensures HasFrame(b) ==> b[8 + SizeOf(b)..] + pending == Flatten(frames[1..])
  {
    hide Unle, Le, FrameBytes;
    assert frames != [];
    FrameAtFront(frames[0], Flatten(frames[1..]));
    FrontSlice(b, pending, 0, 4);
    FrontSlice(b, pending, 4, 8);
    if HasFrame(b) {
      FrontSlice(b, pending, 8, 8 + SizeOf(b));
      BackSlice(b, pending, 8 + SizeOf(b));
    }
  }

  lemma FrontSlice(b: bytes, rest: bytes, i: nat, j: nat)
    requires i <= j <= |b|
    ensures b[i..j] == (b + rest)[i..j]
  {
  }

  lemma BackSlice(b: bytes, rest: bytes, i: nat)
    requires i <= |b|
    ensures b[i..] + rest == (b + rest)[i..]
  {
  }

  lemma ProcessTracks(c: Conn, frames: seq<payload>)
    requires Tracks(c, frames)
    ensures Tracks(Process(c), frames)
    ensures Acceptable(frames) ==> Process(c).status == c.status
    ensures |Process(c).buffer| <= |c.buffer|
    ensures Process(c).pending == c.pending
  {
    hide HasFrame, Flatten, MagicOf, SizeOf;
    var k := |c.processed|;
    if |c.buffer| >= 8 {
      FrontOfFlatten(frames[k..], c.buffer, c.pending);
      assert frames[k] in frames;
      if HasFrame(c.buffer) {
        assert frames[k..][1..] == frames[k + 1..];
        assert frames[..k + 1] == frames[..k] + [frames[k]];
      }
    } else {
      assert !HasFrame(c.buffer) by {
        Short(c.buffer);
      }
    }
  }

  lemma Short(b: bytes)
    requires |b| < 8
    ensures !HasFrame(b)
  {
  }

  lemma CallTracks(c: Conn, frames: seq<payload>, n: nat)
    requires Tracks(c, frames)
    ensures Tracks(Call(c, n), frames)
    ensures Acceptable(frames) && c.status != Invalid ==> Call(c, n).status != Invalid
  {
    hide Process, Flatten, Taken;
    var k := Taken(c, n);
    assert c.buffer + c.pending == c.buffer + c.pending[..k] + c.pending[k..];
    if c.status == Open && |c.buffer| < MAX_BUF_SIZE {
      ProcessTracks(c.(buffer := c.buffer + c.pending[..k], pending := c.pending[k..]), frames);
    }
  }

  /** For every chopping: in order, one frame a call, the buffer always the unprocessed part of what was read. */
  lemma {:induction false} RunTracks(c: Conn, frames: seq<payload>, chops: seq<nat>)
    requires Tracks(c, frames)
    ensures Tracks(Run(c, chops), frames)
    ensures Acceptable(frames) && c.status != Invalid ==> Run(c, chops).status != Invalid
    decreases |chops|
  {
    hide Call, Tracks, Acceptable;
    if chops != [] {
      CallTracks(c, frames, chops[0]);
      RunTracks(Call(c, chops[0]), frames, chops[1..]);
    }
  }

  /** On any bytes, well formed or not: what is processed, and what can still be found, is what the stream holds. */
  lemma CallSplits(c: Conn, n: nat)
    ensures Call(c, n).processed + Frames(Call(c, n).buffer + Call(c, n).pending)
         == c.processed + Frames(c.buffer + c.pending)
  {
    hide Taken, IsInvalid, SizeOf, HasFrame, Frames;
    if c.status == Open && |c.buffer| < MAX_BUF_SIZE {
      var k := Taken(c, n);
      var b, rest := c.buffer + c.pending[..k], c.pending[k..];
      assert b + rest == c.buffer + c.pending;
      if !IsInvalid(b) && HasFrame(b) {
        HasFrameBounds(b);
        HasFrameAppend(b, rest);
        FramesFirst(b + rest);
        assert c.processed + [b[8..8 + SizeOf(b)]] + Frames(b[8 + SizeOf(b)..] + rest)
            == c.processed + ([b[8..8 + SizeOf(b)]] + Frames(b[8 + SizeOf(b)..] + rest));
      }
    }
  }

  lemma FramesFirst(s: bytes)
    requires HasFrame(s)
    ensures Frames(s) == [s[8..8 + SizeOf(s)]] + Frames(s[8 + SizeOf(s)..])
  {
  }

  lemma {:induction false} RunSplits(c: Conn, chops: seq<nat>)
    ensures Run(c, chops).processed + Frames(Run(c, chops).buffer + Run(c, chops).pending)
         == c.processed + Frames(c.buffer + c.pending)
    decreases |chops|
  {
    hide Call, Frames;
    if chops != [] {
      CallSplits(c, chops[0]);
      RunSplits(Call(c, chops[0]), chops[1..]);
    }
  }

  // ---------- when the buffer limit closes the connection ----------

  ghost predicate Roomy(c: Conn) {
    c.status == Open && |c.buffer| < MAX_BUF_SIZE
  }

  lemma CallStaysRoomy(c: Conn, frames: seq<payload>, n: nat)
    requires Tracks(c, frames) && Small(frames) && Roomy(c)
    ensures Roomy(Call(c, n))
  {
    hide Flatten, MagicOf, SizeOf, HasFrame;
    var k := Taken(c, n);
    var b, rest := c.buffer + c.pending[..k], c.pending[k..];
    assert b + rest == c.buffer + c.pending;
    var i := |c.processed|;
    if |b| >= 8 {
      FrontOfFlatten(frames[i..], b, rest);
      assert frames[i] in frames;
      if |c.buffer| >= 8 {
        FrontOfFlatten(frames[i..], c.buffer, c.pending);
      }
    } else {
      Short(b);
    }
  }

  lemma {:induction false} RunStaysRoomy(c: Conn, frames: seq<payload>, chops: seq<nat>)
    requires Tracks(c, frames) && Small(frames) && Roomy(c)
    ensures Roomy(Run(c, chops))
    decreases |chops|
  {
    hide Call, Tracks, Small, Roomy;
    if chops != [] {
      CallTracks(c, frames, chops[0]);
      CallStaysRoomy(c, frames, chops[0]);
      RunStaysRoomy(Call(c, chops[0]), frames, chops[1..]);
    }
  }

  function Start(frames: seq<payload>): Conn {
    Conn([], Flatten(frames), [], Open)
  }

  lemma StartTracks(frames: seq<payload>)
    ensures Tracks(Start(frames), frames) && Roomy(Start(frames))
  {
    hide Flatten;
    assert frames[0..] == frames;
  }

  ghost predicate Positive(chops: seq<nat>) {
    forall r <- chops :: r > 0
  }

  /** Bytes still to be moved. */
  function Work(c: Conn): nat {
    2 * |c.pending| + |c.buffer|
  }

  /** Unless all is done, an open connection's call moves something or gives up. */
  lemma CallProgresses(c: Conn, frames: seq<payload>, n: nat)
    requires Tracks(c, frames) && Roomy(c) && n > 0 && |c.processed| < |frames|
    ensures Work(Call(c, n)) < Work(c) || Call(c, n).status == Invalid
  {
    hide Flatten, MagicOf, SizeOf, HasFrame;
    var i := |c.processed|;
    var k := Taken(c, n);
    var b, rest := c.buffer + c.pending[..k], c.pending[k..];
    assert b + rest == c.buffer + c.pending;
    FlattenLength(frames[i..]);
    if |c.buffer| >= 8 {
      FrontOfFlatten(frames[i..], c.buffer, c.pending);
    }
    if |b| >= 8 {
      FrontOfFlatten(frames[i..], b, rest);
    } else {
      Short(b);
    }
  }

  lemma FlattenLength(frames: seq<payload>)
    requires frames != []
    ensures |Flatten(frames)| >= 8 + |frames[0]|
  {
  }

  lemma {:induction false} RunFinishes(c: Conn, frames: seq<payload>, chops: seq<nat>)
    requires Tracks(c, frames) && Small(frames) && Roomy(c)
    requires Positive(chops) && |chops| >= Work(c)
    ensures Run(c, chops).processed == frames
    decreases |chops|
  {
    hide Call, Small, Flatten, Work;
    if |c.processed| == |frames| {
      RunTracks(c, frames, chops);
      RunOnlyAdds(c, chops);
    } else {
      assert chops == [] ==> Work(c) == 0;
      WorkLeft(c, frames);
      var n := chops[0];
      assert n in chops;
      CallTracks(c, frames, n);
      CallStaysRoomy(c, frames, n);
      CallProgresses(c, frames, n);
      forall r | r in chops[1..]
        ensures r > 0
      {
        assert r in chops;
      }
      RunFinishes(Call(c, n), frames, chops[1..]);
    }
  }

  lemma WorkLeft(c: Conn, frames: seq<payload>)
    requires Tracks(c, frames) && |c.processed| < |frames|
    ensures Work(c) > 0
  {
    FlattenLength(frames[|c.processed|..]);
  }

  lemma {:induction false} RunOnlyAdds(c: Conn, chops: seq<nat>)
    ensures |c.processed| <= |Run(c, chops).processed|
    decreases |chops|
  {
    if chops != [] {
      CallOnlyAdds(c, chops[0]);
      RunOnlyAdds(Call(c, chops[0]), chops[1..]);
    }
  }

  /** At most one frame a call. */
  lemma CallOnlyAdds(c: Conn, n: nat)
    ensures |c.processed| <= |Call(c, n).processed| <= |c.processed| + 1
  {
  }

  /** Every stream whose frames fit the buffer limit is processed completely, however it is chopped. */
  lemma SmallFramesArrive(frames: seq<payload>, chops: seq<nat>)
    requires Small(frames) && Positive(chops) && |chops| >= 2 * |Flatten(frames)|
    ensures Run(Start(frames), chops).processed == frames && Run(Start(frames), chops).status == Open
  {
    StartTracks(frames);
    RunFinishes(Start(frames), frames, chops);
    RunStaysRoomy(Start(frames), frames, chops);
  }

  // ---------- the limit is exact ----------

  /** Reading byte by byte keeps the buffer within the limit and never takes a frame above it, or gives up. */
  lemma OneByteCall(c: Conn, frames: seq<payload>, j: nat)
    requires Tracks(c, frames) && c.status == Open && |c.buffer| < MAX_BUF_SIZE
    requires |c.processed| <= j < |frames| && 8 + |frames[j]| > MAX_BUF_SIZE
    ensures var d := Call(c, 1);
            Tracks(d, frames) && d.status in {Open, Invalid} && |d.buffer| <= MAX_BUF_SIZE && |d.processed| <= j
  {
    hide Flatten, MagicOf, SizeOf, HasFrame, NeedsRead;
    CallTracks(c, frames, 1);
    var i, k := |c.processed|, Taken(c, 1);
    var b, rest := c.buffer + c.pending[..k], c.pending[k..];
    assert b + rest == c.buffer + c.pending;
    if |b| >= 8 {
      FrontOfFlatten(frames[i..], b, rest);
    } else {
      Short(b);
    }
  }

  lemma {:induction false} BigFrameCloses(c: Conn, frames: seq<payload>, j: nat) returns (chops: seq<nat>)
    requires Tracks(c, frames) && c.status == Open && |c.buffer| <= MAX_BUF_SIZE
    requires |c.processed| <= j < |frames| && 8 + |frames[j]| > MAX_BUF_SIZE
    ensures Positive(chops) && Run(c, chops).status != Open
    ensures Acceptable(frames) ==> Run(c, chops).status == TooBig
    decreases Work(c)
  {
    hide Flatten, Acceptable, Tracks, Process, Taken, Work;
    var d := Call(c, 1);
    CallTracks(c, frames, 1);
    chops := [1];
    assert Run(c, chops) == Run(d, chops[1..]) == d;
    if |c.buffer| < MAX_BUF_SIZE {
      OneByteCall(c, frames, j);
      CallProgresses(c, frames, 1);
    }
    if d.status == Open {
      var more := BigFrameCloses(d, frames, j);
      chops := [1] + more;
      assert chops[1..] == more;
    }
  }

  /** The limit on the buffer is one on frames: the connection survives all choppings exactly when all frames fit. */
  lemma LimitIsExact(frames: seq<payload>)
    ensures Small(frames) <==> forall chops: seq<nat> :: Positive(chops) ==> Run(Start(frames), chops).status == Open
  {
    hide Call, Flatten;
    StartTracks(frames);
    if Small(frames) {
      forall chops: seq<nat> | Positive(chops)
        ensures Run(Start(frames), chops).status == Open
      {
        RunStaysRoomy(Start(frames), frames, chops);
      }
    } else {
      var f :| f in frames && 8 + |f| > MAX_BUF_SIZE;
      var j :| 0 <= j < |frames| && frames[j] == f;
      var chops := BigFrameCloses(Start(frames), frames, j);
    }
  }

  // ---------- the class ----------

  class Receiver {
    var recvBuf: Buffer
    var status: Status
    /** The frames handed to the frame decoder, in order. */
    var processed: seq<payload>

    ghost predicate Valid()
      reads this, recvBuf
    {
      recvBuf.Valid()
    }

    /** Where this connection is, when these bytes are on the way. */
    ghost function State(pending: bytes): Conn
      reads this, recvBuf, recvBuf.data
      requires Valid()
    {
      Conn(recvBuf.Contents(), pending, processed, status)
    }

    constructor ()
      ensures Valid() && State([]) == Start([])
    {
      recvBuf := new Buffer(0);
      status, processed := Open, [];
    }

    /** Transport->Recv(maxRecv, Data + Count): at most n bytes, inside the buffer's capacity. */
    method Receive(pending: bytes, n: nat) returns (k: nat)
      requires Valid() && recvBuf.count + MAX_RECV <= recvBuf.data.Length
      modifies recvBuf`count, recvBuf.data
      ensures Valid() && k == Min(Min(n, MAX_RECV), |pending|)
      ensures recvBuf.Contents() == old(recvBuf.Contents()) + pending[..k]
    {
      k := Min(Min(n, MAX_RECV), |pending|);
      forall i | 0 <= i < k {
        recvBuf.data[recvBuf.count + i] := pending[i];
      }
      recvBuf.count := recvBuf.count + k;
    }

    /** One call; returns how many of the pending bytes it took. */
    method RecvInternal(pending: bytes, n: nat) returns (taken: nat)
      requires Valid()
      modifies this, recvBuf, recvBuf.data
      ensures Valid() && recvBuf == old(recvBuf) && (recvBuf.data == old(recvBuf.data) || fresh(recvBuf.data))
      ensures taken <= |pending| && State(pending[taken..]) == Call(old(State(pending)), n)
    {
      hide MagicOf, SizeOf, NeedsRead, U32_LIMIT;
      assert pending[0..] == pending;
      taken := 0;
      if status != Open {
        return;
      }
      recvBuf.Preallocate(MAX_RECV);
      if recvBuf.count >= MAX_BUF_SIZE {
        status := TooBig;
        return;
      }
      ghost var before := State(pending);
      if NeedsRead(recvBuf.data[..recvBuf.count]) {
        taken := Receive(pending, n);
      }
      assert recvBuf.Contents() == before.buffer + pending[..taken];
      ProcessFrame(pending[taken..]);
    }

    method ProcessFrame(ghost pending: bytes)
      requires Valid() && status == Open
      modifies this`status, this`processed, recvBuf`count, recvBuf.data
      ensures Valid() && State(pending) == Process(old(State(pending)))
    {
      hide MagicOf, SizeOf;
      if recvBuf.count >= 8 {
        var magic, frameSize := MagicOf(recvBuf.data[..recvBuf.count]), SizeOf(recvBuf.data[..recvBuf.count]);
        if magic != MAGIC_FRAME_MARKER || frameSize > MAX_FRAME_SIZE {
          status := Invalid;
          return;
        }
        if recvBuf.count >= frameSize + 8 {
          processed := processed + [recvBuf.data[..recvBuf.count][8..8 + frameSize]];
          recvBuf.EraseFromStart(8 + frameSize);
        }
      }
    }
  }
}
