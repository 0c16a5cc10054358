/**
How the Go server cuts a backend's byte stream into frames: it reads one frame and, speculatively, up to the eight
header bytes of the next. What the network returns for one read is any part of what was asked for. Turn is one turn of
the reading loop on values; the class method is proved to be it.
*/
module GoReassembly {
  import opened Bytes
  import opened Framing

  const FIRST_BUFFER: nat := 1024
  const BUFFER_SLACK: nat := 256
  const LARGEST_NEXT_BUFFER: nat := 10 * 1024 * 1024

  // ---------- what the reader can find in a stream ----------

  /** A frame of size zero looks to the loop like a header that has not arrived. */
  predicate Takeable(s: bytes) {
    HasFrame(s) && SizeOf(s) != 0
  }

  /** The complete frames at the front of a stream, up to the first empty one. */
  function Taken(s: bytes): seq<payload>
    decreases |s|
  {
    if Takeable(s) then [s[8..8 + SizeOf(s)]] + Taken(s[8 + SizeOf(s)..]) else []
  }

  /** What follows them. */
  function Left(s: bytes): (r: bytes)
    ensures !Takeable(r) && |r| <= |s|
    decreases |s|
  {
    if Takeable(s) then Left(s[8 + SizeOf(s)..]) else s
  }

  lemma NothingTaken(s: bytes)
    requires !Takeable(s)
    ensures Taken(s) == [] && Left(s) == s
  {
  }

  /** A stream that arrives in two pieces. */
  lemma {:induction false} TakenAppend(s: bytes, t: bytes)
    ensures Taken(s + t) == Taken(s) + Taken(Left(s) + t)
    ensures Left(s + t) == Left(Left(s) + t)
    decreases |s|
  {
    hide SizeOf, HasFrame;
    if Takeable(s) {
      HasFrameBounds(s);
      HasFrameAppend(s, t);
      TakenAppend(s[8 + SizeOf(s)..], t);
    }
  }

  /** How many frames of a list lie wholly inside the first n bytes, up to the first empty one. */
  function Ready(frames: seq<payload>, n: nat): (k: nat)
    ensures k <= |frames|
  {
    if frames == [] || frames[0] == [] || n < 8 + |frames[0]| then 0
    else 1 + Ready(frames[1..], n - 8 - |frames[0]|)
  }

  /** The first n bytes of a stream of frames. */
  lemma {:induction false} TakenOfPrefix(frames: seq<payload>, n: nat)
    requires n <= |Flatten(frames)|
    ensures var s := Flatten(frames)[..n]; var k := Ready(frames, n);
            && Taken(s) == frames[..k]
            && |Flatten(frames[..k])| <= n && Left(s) == Flatten(frames)[|Flatten(frames[..k])|..n]
    decreases |frames|
  {
    hide SizeOf, HasFrame, FrameBytes;
    assert frames[..0] == [];
    if frames == [] {
      NoFrameInNothing();
    } else if n < 8 + |frames[0]| {
      PrefixOfFrame(frames[0], Flatten(frames[1..]), n);
    } else if frames[0] == [] {
      var tail := Flatten(frames[1..]);
      assert Flatten(frames)[..n] == FrameBytes(frames[0]) + tail[..n - 8];
      FrameAtFront(frames[0], tail[..n - 8]);
    } else {
      var m := n - 8 - |frames[0]|;
      TakenOfPrefix(frames[1..], m);
      var tail := Flatten(frames[1..]);
      assert Flatten(frames)[..n] == FrameBytes(frames[0]) + tail[..m];
      FrameAtFront(frames[0], tail[..m]);
      PrefixBehindFrame(frames, n, Ready(frames[1..], m));
    }
  }

  /** Where the first k frames behind a leading one end, and what lies behind them. */
  lemma PrefixBehindFrame(frames: seq<payload>, n: nat, k: nat)
    requires frames != [] && 8 + |frames[0]| <= n <= |Flatten(frames)| && k < |frames|
    requires |Flatten(frames[1..][..k])| <= n - 8 - |frames[0]|
    ensures frames[..k + 1] == [frames[0]] + frames[1..][..k]
    ensures var inner, m := |Flatten(frames[1..][..k])|, n - 8 - |frames[0]|;
            && |Flatten(frames[..k + 1])| == 8 + |frames[0]| + inner
            && Flatten(frames)[|Flatten(frames[..k + 1])|..n] == Flatten(frames[1..])[inner..m]
  {
    hide FrameBytes, Flatten;
    assert frames == [frames[0]] + frames[1..] && frames[..k + 1] == [frames[0]] + frames[1..][..k];
    FlattenFirst(frames[0], frames[1..]);
    FlattenFirst(frames[0], frames[1..][..k]);
    DropFront(FrameBytes(frames[0]), Flatten(frames[1..]), |Flatten(frames[1..][..k])|, n - 8 - |frames[0]|);
  }

  lemma FlattenFirst(f: payload, rest: seq<payload>)
    ensures Flatten([f] + rest) == FrameBytes(f) + Flatten(rest)
  {
    assert ([f] + rest)[1..] == rest;
  }

  lemma DropFront(a: bytes, b: bytes, i: nat, j: nat)
    requires i <= j <= |b|
    ensures (a + b)[|a| + i..|a| + j] == b[i..j]
  {
  }

  lemma NoFrameInNothing()
    ensures !HasFrame([])
  {
  }

  /** An empty frame and everything behind it is never ready. */
  lemma {:induction false} ReadyStopsAtEmpty(frames: seq<payload>, n: nat, j: nat)
    requires j < |frames| && frames[j] == []
    ensures Ready(frames, n) <= j
  {
    if j > 0 && frames[0] != [] && n >= 8 + |frames[0]| {
      ReadyStopsAtEmpty(frames[1..], n - 8 - |frames[0]|, j - 1);
    }
  }

  /** Without empty frames, all bytes hold all frames. */
  lemma {:induction false} AllReady(frames: seq<payload>)
    requires forall f <- frames :: f != []
    ensures Ready(frames, |Flatten(frames)|) == |frames|
  {
    if frames != [] {
      assert frames[0] in frames;
      forall f | f in frames[1..]
        ensures f != []
      {
        assert f in frames;
      }
      AllReady(frames[1..]);
    }
  }

  // ---------- one turn of the loop ----------

  /** Bytes read and kept, bytes the peer has sent, frames passed on, and whether the connection was dropped. */
  datatype Conn = Conn(kept: bytes, pending: bytes, delivered: seq<payload>, dropped: bool)

  predicate BadMarker(kept: bytes) {
    |kept| >= 8 && MagicOf(kept) != MAGIC_FRAME_MARKER
  }

  /** How many bytes the buffer may hold after the next read. */
  function ReadLimit(kept: bytes): nat {
    if |kept| >= 8 then SizeOf(kept) + 16 else 8
  }

  /** A read that wants this much gets at most what it asks for and what is there. */
  function Got(c: Conn, want: nat): (k: nat)
    ensures k <= |c.pending| && (|c.kept| <= ReadLimit(c.kept) ==> |c.kept| + k <= ReadLimit(c.kept))
  {
    var room := if |c.kept| <= ReadLimit(c.kept) then ReadLimit(c.kept) - |c.kept| else 0;
    Min(Min(want, room), |c.pending|)
  }

  function Turn(c: Conn, want: nat): Conn {
    if c.dropped then c
    else if BadMarker(c.kept) then c.(dropped := true)
    else
      var k := Got(c, want);
      Pass(c.(kept := c.kept + c.pending[..k], pending := c.pending[k..]), if |c.kept| >= 8 then SizeOf(c.kept) else 0)
  }

  /** Passes a complete frame on; frameSize is 0 while the header was not there before the read. */
  function Pass(c: Conn, frameSize: nat): Conn
    requires frameSize < U32_LIMIT
  {
    if frameSize != 0 && |c.kept| >= 8 + frameSize then
      c.(kept := c.kept[8 + frameSize..], delivered := c.delivered + [c.kept[8..8 + frameSize]])
    else c
  }

  function Run(c: Conn, wants: seq<nat>): Conn
    decreases |wants|
  {
    if wants == [] then c else Run(Turn(c, wants[0]), wants[1..])
  }

  function Start(frames: seq<payload>): Conn {
    Conn([], Flatten(frames), [], false)
  }

  /** What is passed on and what is kept are determined by what was read. */
  ghost predicate Reads(c: Conn, received: bytes) {
    c.delivered == Taken(received) && c.kept == Left(received) && |c.kept| <= ReadLimit(c.kept)
  }

  lemma SizeOfHeader(kept: bytes, data: bytes)
    requires |kept| >= 8
    ensures SizeOf(kept + data) == SizeOf(kept) && MagicOf(kept + data) == MagicOf(kept)
  {
    hide Unle;
    assert (kept + data)[4..8] == kept[4..8] && (kept + data)[0..4] == kept[0..4];
  }

  /** A frame and at most eight bytes more: one frame is taken, and the rest is carried over. */
  lemma OneTaken(s: bytes)
    requires Takeable(s) && |s| <= 16 + SizeOf(s)
    ensures Taken(s) == [s[8..8 + SizeOf(s)]] && Left(s) == s[8 + SizeOf(s)..]
  {
    var extra := s[8 + SizeOf(s)..];
    assert |extra| <= 8 && !Takeable(extra);
    NothingTaken(extra);
  }

  /** What the loop finds after a read, by the test it makes. */
  lemma ReadOutcome(kept: bytes, data: bytes)
    requires !BadMarker(kept) && !Takeable(kept) && |kept| + |data| <= ReadLimit(kept)
    ensures var s := kept + data;
            if |kept| >= 8 && SizeOf(kept) != 0 && |s| >= 8 + SizeOf(kept) then
              && Taken(s) == [s[8..8 + SizeOf(kept)]] && Left(s) == s[8 + SizeOf(kept)..]
              && |Left(s)| <= 8
            else
              Taken(s) == [] && Left(s) == s
  {
    hide SizeOf, MagicOf, Taken, Left;
    var s := kept + data;
    if |kept| >= 8 {
      SizeOfHeader(kept, data);
      if SizeOf(kept) != 0 && |s| >= 8 + SizeOf(kept) {
        OneTaken(s);
      } else {
        NothingTaken(s);
      }
    } else {
      NothingTaken(s);
    }
  }

  lemma TurnReads(c: Conn, received: bytes, want: nat)
    requires Reads(c, received)
    ensures c.dropped || BadMarker(c.kept) ==> Reads(Turn(c, want), received) && Turn(c, want).pending == c.pending
    ensures !(c.dropped || BadMarker(c.kept)) ==>
              var k := Got(c, want);
              Reads(Turn(c, want), received + c.pending[..k]) && Turn(c, want).pending == c.pending[k..]
  {
    hide SizeOf, MagicOf, Taken, Left, HasFrame;
    if !c.dropped && !BadMarker(c.kept) {
      var data := c.pending[..Got(c, want)];
      TakenAppend(received, data);
      ReadOutcome(c.kept, data);
      if |c.kept| >= 8 {
        SizeOfHeader(c.kept, data);
      }
    }
  }

  // ---------- every run ----------

  /** The connection has read n bytes of this stream of frames. */
  ghost predicate Follows(c: Conn, frames: seq<payload>, n: nat) {
    && n <= |Flatten(frames)| && c.pending == Flatten(frames)[n..]
    && Reads(c, Flatten(frames)[..n]) && !c.dropped
  }

  /** In a stream of frames, what is kept begins with the marker. */
  lemma {:induction false} KeptMagic(frames: seq<payload>, n: nat)
    requires n <= |Flatten(frames)|
    ensures !BadMarker(Left(Flatten(frames)[..n]))
    decreases |frames|
  {
    hide FrameBytes, SizeOf, MagicOf, HasFrame;
    if frames == [] {
    } else {
      var s, tail := Flatten(frames)[..n], Flatten(frames[1..]);
      if n >= 8 {
        FrameAtFront(frames[0], tail);
        assert Flatten(frames) == s + Flatten(frames)[n..];
        SizeOfHeader(s, Flatten(frames)[n..]);
        MagicOfFrame(Flatten(frames));
      }
      if n < 8 + |frames[0]| {
        PrefixOfFrame(frames[0], tail, n);
      } else {
        var m := n - 8 - |frames[0]|;
        KeptMagic(frames[1..], m);
        assert s == FrameBytes(frames[0]) + tail[..m];
        FrameAtFront(frames[0], tail[..m]);
      }
    }
  }

  lemma MagicOfFrame(s: bytes)
    requires HasFrame(s)
    ensures MagicOf(s) == MAGIC_FRAME_MARKER
  {
  }

  lemma TurnFollows(c: Conn, frames: seq<payload>, n: nat, want: nat)
    requires Follows(c, frames, n)
    ensures Follows(Turn(c, want), frames, n + Got(c, want))
  {
    hide Turn, Got, Reads, BadMarker, Flatten, Left;
    KeptMagic(frames, n);
    ReadsKept(c, Flatten(frames)[..n]);
    TurnReads(c, Flatten(frames)[..n], want);
    TurnNotDropped(c, want);
    var s, k := Flatten(frames), Got(c, want);
    assert s[..n] + s[n..][..k] == s[..n + k] && s[n..][k..] == s[n + k..];
  }

  lemma ReadsKept(c: Conn, received: bytes)
    requires Reads(c, received)
    ensures c.kept == Left(received)
  {
  }

  lemma TurnNotDropped(c: Conn, want: nat)
    requires !c.dropped && !BadMarker(c.kept)
    ensures !Turn(c, want).dropped
  {
  }

  lemma {:induction false} RunFollows(c: Conn, frames: seq<payload>, n: nat, wants: seq<nat>) returns (m: nat)
    requires Follows(c, frames, n)
    ensures n <= m && Follows(Run(c, wants), frames, m)
    decreases |wants|
  {
    hide Turn, Follows, Got;
    m := n;
    if wants != [] {
      TurnFollows(c, frames, n, wants[0]);
      m := RunFollows(Turn(c, wants[0]), frames, n + Got(c, wants[0]), wants[1..]);
    }
  }

  lemma StartFollows(frames: seq<payload>)
    ensures Follows(Start(frames), frames, 0)
  {
    hide Flatten;
    assert Flatten(frames)[..0] == [];
    NoFrameInNothing();
    NothingTaken([]);
  }

  /**
  For every stream of frames and every sizes of reads: what is delivered is exactly the frames wholly inside what was
  read, up to the first empty one, and what is kept is exactly the remainder.
  */
  lemma DeliveredExactly(frames: seq<payload>, wants: seq<nat>)
    ensures var c := Run(Start(frames), wants);
            && |c.pending| <= |Flatten(frames)| && !c.dropped
            && var n := |Flatten(frames)| - |c.pending|;
               && c.delivered == frames[..Ready(frames, n)] && |Flatten(c.delivered)| <= n
               && c.kept == Flatten(frames)[|Flatten(c.delivered)|..n]
  {
    hide Run, Taken, Left, Flatten;
    StartFollows(frames);
    var m := RunFollows(Start(frames), frames, 0, wants);
    TakenOfPrefix(frames, m);
  }

  // ---------- when everything arrives ----------

  /** Behind an empty frame the loop reads eight bytes more, and then asks for none: no turn changes anything again. */
  lemma EmptyFrameStalls(c: Conn, next: bytes, want: nat)
    requires |next| == 8 && c.kept == FrameBytes([]) + next
    ensures Turn(c, want) == c
  {
    FrameAtFront([], next);
    MagicOfFrame(c.kept);
    assert c.kept + [] == c.kept;
    assert c.pending[0..] == c.pending;
  }

  /** Every read asks for at least one byte, except where an empty frame has stalled the loop. */
  lemma ReadAsksForBytes(kept: bytes)
    requires !BadMarker(kept) && !Takeable(kept) && |kept| <= ReadLimit(kept)
    ensures |kept| == ReadLimit(kept) <==> HasFrame(kept) && SizeOf(kept) == 0 && |kept| == 16
  {
  }

  ghost predicate Positive(wants: seq<nat>) {
    forall w <- wants :: w > 0
  }

  /** Without empty frames, a turn reads something as long as something is there. */
  lemma TurnProgresses(c: Conn, frames: seq<payload>, n: nat, want: nat)
    requires Follows(c, frames, n) && want > 0 && c.pending != []
    requires forall f <- frames :: f != []
    ensures Got(c, want) > 0
  {
    hide Flatten, Taken, Left, SizeOf, MagicOf;
    KeptMagic(frames, n);
    LeftTakesNothing(Flatten(frames)[..n]);
    ReadAsksForBytes(c.kept);
    if |c.kept| == ReadLimit(c.kept) {
      TakenOfPrefix(frames, n);
      var k := Ready(frames, n);
      FlattenSplit(frames, k);
      assert c.kept + Flatten(frames)[n..] == Flatten(frames[k..]);
      forall f | f in frames[k..]
        ensures f != []
      {
        assert f in frames;
      }
      KeptFrontFrame(frames[k..], c.kept, Flatten(frames)[n..]);
    }
  }

  lemma LeftTakesNothing(s: bytes)
    ensures !Takeable(Left(s))
  {
  }

  lemma {:induction false} FlattenSplit(frames: seq<payload>, k: nat)
    requires k <= |frames|
    ensures Flatten(frames) == Flatten(frames[..k]) + Flatten(frames[k..])
  {
    hide FrameBytes;
    if k == 0 {
      assert frames[..0] == [] && frames[0..] == frames;
    } else {
      FlattenSplit(frames[1..], k - 1);
      assert frames[1..][..k - 1] == frames[..k][1..] && frames[1..][k - 1..] == frames[k..];
      var a, b, d := FrameBytes(frames[0]), Flatten(frames[1..][..k - 1]), Flatten(frames[k..]);
      assert a + (b + d) == a + b + d;
    }
  }

  /** The header at the front of a stream of frames is that of its first frame. */
  lemma KeptFrontFrame(frames: seq<payload>, kept: bytes, rest: bytes)
    requires kept + rest == Flatten(frames) && |kept| >= 8
    ensures frames != [] && frames[0] in frames && SizeOf(kept) == |frames[0]|
  {
    hide SizeOf, MagicOf, HasFrame, FrameBytes;
    FrameAtFront(frames[0], Flatten(frames[1..]));
    SizeOfHeader(kept, rest);
  }

  lemma {:induction false} RunReadsAll(c: Conn, frames: seq<payload>, n: nat, wants: seq<nat>)
    requires Follows(c, frames, n) && (forall f <- frames :: f != [])
    requires Positive(wants) && |wants| >= |c.pending|
    ensures Run(c, wants).pending == []
    decreases |wants|
  {
    hide Turn, Got, Flatten, Reads;
    if c.pending == [] {
      var m := RunFollows(c, frames, n, wants);
    } else {
      var w := wants[0];
      assert w in wants;
      TurnProgresses(c, frames, n, w);
      TurnFollows(c, frames, n, w);
      forall x | x in wants[1..]
        ensures x > 0
      {
        assert x in wants;
      }
      RunReadsAll(Turn(c, w), frames, n + Got(c, w), wants[1..]);
    }
  }

  lemma AllDelivered(frames: seq<payload>, wants: seq<nat>)
    requires forall f <- frames :: f != []
    requires Positive(wants) && |wants| >= |Flatten(frames)|
    ensures Run(Start(frames), wants).delivered == frames
  {
    hide Run, Flatten, Ready, Turn, Taken, Left, Reads, Takeable;
    StartFollows(frames);
    RunReadsAll(Start(frames), frames, 0, wants);
    DeliveredExactly(frames, wants);
    AllReady(frames);
    assert frames[..|frames|] == frames;
  }

  /** With an empty frame, no sequence of reads delivers that frame or any behind it. */
  lemma NeverPastEmpty(frames: seq<payload>, wants: seq<nat>, j: nat)
    requires j < |frames| && frames[j] == []
    ensures |Run(Start(frames), wants).delivered| <= j
  {
    hide Run, Flatten, Ready;
    DeliveredExactly(frames, wants);
    ReadyStopsAtEmpty(frames, |Flatten(frames)| - |Run(Start(frames), wants).pending|, j);
  }

  ghost predicate AllArrive(frames: seq<payload>) {
    forall wants: seq<nat> :: Positive(wants) && |wants| >= |Flatten(frames)| ==>
      Run(Start(frames), wants).delivered == frames
  }

  /** Enough nonempty reads deliver everything if and only if no frame is empty. */
  lemma AllArriveIff(frames: seq<payload>)
    ensures AllArrive(frames) <==> forall f <- frames :: f != []
  {
    hide Run, Flatten;
    if forall f <- frames :: f != [] {
      forall wants: seq<nat> | Positive(wants) && |wants| >= |Flatten(frames)|
        ensures Run(Start(frames), wants).delivered == frames
      {
        AllDelivered(frames, wants);
      }
    } else {
      var j :| 0 <= j < |frames| && frames[j] == [];
      var wants := seq(|Flatten(frames)|, _ => 1);
      NeverPastEmpty(frames, wants, j);
      assert Positive(wants);
    }
  }

  // ---------- the object ----------

  class FrameReader {
    var buf: array<byte>
    var bufSize: nat
    var nFrames: nat
    /** The frames passed on, in order. */
    var delivered: seq<payload>
    var dropped: bool

    ghost predicate Valid()
      reads this, buf
    {
      bufSize <= buf.Length && nFrames == |delivered| && bufSize <= ReadLimit(buf[..bufSize])
    }

    /** Where this connection is, when these bytes are on the way. */
    ghost function State(pending: bytes): Conn
      requires Valid()
      reads this, buf
    {
      Conn(buf[..bufSize], pending, delivered, dropped)
    }

    constructor ()
      ensures Valid() && fresh(buf) && State([]) == Conn([], [], [], false)
    {
      buf := new byte[FIRST_BUFFER];
      bufSize, nFrames, delivered, dropped := 0, 0, [], false;
    }

    method Grow(maxBufSize: nat)
      requires bufSize <= buf.Length && bufSize <= maxBufSize
      modifies this`buf
      ensures bufSize <= buf.Length == Max(old(buf.Length), maxBufSize)
      ensures buf[..bufSize] == old(buf[..bufSize])
      ensures buf == old(buf) || fresh(buf)
    {
      if buf.Length < maxBufSize {
        var oldBuf := buf;
        buf := new byte[maxBufSize];
        forall i | 0 <= i < bufSize {
          buf[i] := oldBuf[i];
        }
      }
    }

    /** con.Read: fills part of buf[bufSize..maxBufSize] from what the peer has sent. */
    method Read(pending: bytes, want: nat, maxBufSize: nat) returns (nbytes: nat)
      requires bufSize <= maxBufSize <= buf.Length
      modifies buf
      ensures nbytes == Min(Min(want, maxBufSize - bufSize), |pending|)
      ensures buf[..bufSize + nbytes] == old(buf[..bufSize]) + pending[..nbytes]
    {
      nbytes := Min(Min(want, maxBufSize - bufSize), |pending|);
      forall i | 0 <= i < nbytes {
        buf[bufSize + i] := pending[i];
      }
    }

    /** Passes the frame in the buffer on and starts the next buffer with the bytes behind it. */
    method Deliver(frameSize: nat)
      requires 8 + frameSize <= bufSize <= buf.Length && bufSize <= 16 + frameSize
      requires frameSize < U32_LIMIT
      modifies this`buf, this`bufSize, this`nFrames, this`delivered
      ensures nFrames == old(nFrames) + 1 && delivered == old(delivered) + [old(buf[8..8 + frameSize])]
      ensures fresh(buf) && bufSize <= buf.Length
      ensures buf.Length == Min(old(bufSize) + BUFFER_SLACK, LARGEST_NEXT_BUFFER)
      ensures buf[..bufSize] == old(buf[8 + frameSize..bufSize])
    {
      nFrames := nFrames + 1;
      var extraSize := bufSize - (8 + frameSize);
      var extraBytes := buf[8 + frameSize..bufSize];
      delivered := delivered + [buf[8..8 + frameSize]];
      var nextBufSize := bufSize + BUFFER_SLACK;
      if nextBufSize > LARGEST_NEXT_BUFFER {
        nextBufSize := LARGEST_NEXT_BUFFER;
      }
      buf := new byte[nextBufSize];
      bufSize := 0;
      if extraSize != 0 {
        forall i | 0 <= i < extraSize {
          buf[i] := extraBytes[i];
        }
        bufSize := extraSize;
      }
      assert buf[..bufSize] == extraBytes;
    }

    /** One turn of the reading loop; returns how many of the pending bytes it took. */
    method ReadOnce(pending: bytes, want: nat) returns (nbytes: nat)
      requires Valid()
      modifies this, buf
      ensures Valid() && (buf == old(buf) || fresh(buf))
      ensures nbytes <= |pending| && State(pending[nbytes..]) == Turn(old(State(pending)), want)
    {
      hide SizeOf, MagicOf, Pass;
      assert pending[0..] == pending;
      nbytes := 0;
      if dropped {
        return;
      }
      ghost var kept := buf[..bufSize];
      var frameSize := 0;
      var maxBufSize := 8;
      if bufSize >= 8 {
        frameSize := SizeOf(buf[..bufSize]);
        if MagicOf(buf[..bufSize]) != MAGIC_FRAME_MARKER {
          dropped := true;
          return;
        }
        maxBufSize := frameSize + 16;
      }
      Grow(maxBufSize);
      nbytes := Read(pending, want, maxBufSize);
      bufSize := bufSize + nbytes;
      assert buf[..bufSize] == kept + pending[..nbytes];
      LimitAfter(kept, pending[..nbytes]);
      PassOn(frameSize, pending[nbytes..]);
    }

    method PassOn(frameSize: nat, ghost pending: bytes)
      requires Valid() && frameSize < U32_LIMIT && (frameSize != 0 ==> bufSize <= 16 + frameSize)
      modifies this`buf, this`bufSize, this`nFrames, this`delivered
      ensures Valid() && (buf == old(buf) || fresh(buf))
      ensures State(pending) == Pass(old(State(pending)), frameSize)
    {
      hide ReadLimit;
      if frameSize != 0 && bufSize >= 8 + frameSize {
        assert buf[8..8 + frameSize] == buf[..bufSize][8..8 + frameSize];
        assert buf[8 + frameSize..bufSize] == buf[..bufSize][8 + frameSize..];
        Deliver(frameSize);
        ShortWithinLimit(buf[..bufSize]);
      }
    }

    /** Any number of turns over a stream of frames, for any sizes of reads. */
    method HandleBackendConnection(frames: seq<payload>, wants: seq<nat>) returns (n: nat)
      requires Valid() && State([]) == Conn([], [], [], false)
      modifies this, buf
      ensures Valid() && n <= |Flatten(frames)|
      ensures State(Flatten(frames)[n..]) == Run(Start(frames), wants)
    {
      hide Turn, Flatten, Valid;
      var stream := Flatten(frames);
      n := 0;
      assert stream[0..] == stream && wants[0..] == wants;
      for i := 0 to |wants|
        invariant Valid() && n <= |stream| && (buf == old(buf) || fresh(buf))
        invariant Run(State(stream[n..]), wants[i..]) == Run(Start(frames), wants)
      {
        var nbytes := ReadOnce(stream[n..], wants[i]);
        assert stream[n..][nbytes..] == stream[n + nbytes..];
        assert wants[i..][1..] == wants[i + 1..];
        n := n + nbytes;
      }
    }
  }

  lemma ShortWithinLimit(s: bytes)
    requires |s| <= 8
    ensures |s| <= ReadLimit(s)
  {
  }

  /** The limit only grows while a frame is being read. */
  lemma LimitAfter(kept: bytes, data: bytes)
    requires |kept| + |data| <= ReadLimit(kept)
    ensures |kept + data| <= ReadLimit(kept + data)
  {
    hide SizeOf;
    if |kept| >= 8 {
      SizeOfHeader(kept, data);
    }
  }
}
