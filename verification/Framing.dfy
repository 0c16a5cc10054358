/**
The byte stream between server and backend: every frame is a magic marker, its size, and its bytes. Frames and Rest
say what any stream contains, independently of how it was chopped into reads.
*/
module Framing {
  import opened Bytes

  const MAGIC_FRAME_MARKER: nat := 0x4842_6268

  type payload = p: bytes | |p| < U32_LIMIT witness []

  /** A frame as FinishFlatbuffer and endFrameAndSend put it on the wire. */
  function FrameBytes(p: payload): (s: bytes)
    ensures |s| == 8 + |p|
  {
    Le(MAGIC_FRAME_MARKER, 4) + Le(|p|, 4) + p
  }

  function Flatten(frames: seq<payload>): bytes {
    if frames == [] then [] else FrameBytes(frames[0]) + Flatten(frames[1..])
  }

  function MagicOf(s: bytes): nat
    requires |s| >= 8
  {
    Unle(s[0..4])
  }

  function SizeOf(s: bytes): (n: nat)
    requires |s| >= 8
    ensures n < U32_LIMIT
  {
    UnleBound(s[4..8]);
    Widths();
    Unle(s[4..8])
  }

  predicate HasFrame(s: bytes) {
    |s| >= 8 && MagicOf(s) == MAGIC_FRAME_MARKER && |s| >= 8 + SizeOf(s)
  }

  /** The frames that are wholly inside a stream. */
  function Frames(s: bytes): seq<payload>
    decreases |s|
  {
    if HasFrame(s) then [s[8..8 + SizeOf(s)]] + Frames(s[8 + SizeOf(s)..]) else []
  }

  /** What follows them. */
  function Rest(s: bytes): (r: bytes)
    ensures !HasFrame(r) && |r| <= |s|
    decreases |s|
  {
    if HasFrame(s) then Rest(s[8 + SizeOf(s)..]) else s
  }

  lemma {:induction false} LeOfUnle(s: bytes)
    ensures Le(Unle(s), |s|) == s
  {
    if s != [] {
      LeOfUnle(s[1..]);
      SplitByte(s[0], Unle(s[1..]));
    }
  }

  /** The first frame of a stream is read back from its header. */
  lemma FrameAtFront(p: payload, rest: bytes)
    ensures var s := FrameBytes(p) + rest;
            && HasFrame(s) && SizeOf(s) == |p|
            && s[8..8 + |p|] == p && s[8 + |p|..] == rest
  {
    hide Le, Unle;
    Widths();
    RoundTrip(MAGIC_FRAME_MARKER, 4);
    RoundTrip(|p|, 4);
    var s := FrameBytes(p) + rest;
    assert s[0..4] == Le(MAGIC_FRAME_MARKER, 4) && s[4..8] == Le(|p|, 4);
  }

  lemma HeaderIsFrame(s: bytes)
    requires HasFrame(s)
    ensures s == FrameBytes(s[8..8 + SizeOf(s)]) + s[8 + SizeOf(s)..]
  {
    hide Le, Unle;
    LeOfUnle(s[0..4]);
    LeOfUnle(s[4..8]);
    assert s == s[0..4] + s[4..8] + s[8..8 + SizeOf(s)] + s[8 + SizeOf(s)..];
  }

  /** Nothing is lost or reordered. */
  lemma {:induction false} SplitConserves(s: bytes)
    ensures s == Flatten(Frames(s)) + Rest(s)
    decreases |s|
  {
    hide FrameBytes, SizeOf, HasFrame;
    if HasFrame(s) {
      HasFrameBounds(s);
      var rest := s[8 + SizeOf(s)..];
      HeaderIsFrame(s);
      SplitConserves(rest);
      assert Frames(s)[1..] == Frames(rest);
    }
  }

  lemma HasFrameBounds(s: bytes)
    requires HasFrame(s)
    ensures |s| >= 8 && |s| >= 8 + SizeOf(s)
  {
  }

  /** More bytes behind a complete frame do not change it. */
  lemma HasFrameAppend(s: bytes, t: bytes)
    requires HasFrame(s)
    ensures HasFrame(s + t) && SizeOf(s + t) == SizeOf(s)
    ensures (s + t)[8..8 + SizeOf(s)] == s[8..8 + SizeOf(s)]
    ensures (s + t)[8 + SizeOf(s)..] == s[8 + SizeOf(s)..] + t
  {
    HeaderIsFrame(s);
    var p, rest := s[8..8 + SizeOf(s)], s[8 + SizeOf(s)..];
    FrameAtFront(p, rest + t);
    assert s + t == FrameBytes(p) + (rest + t);
  }

  /** Fewer bytes than the frame at the front hold no frame. */
  lemma PrefixOfFrame(p: payload, rest: bytes, n: nat)
    requires n < 8 + |p|
    ensures !HasFrame((FrameBytes(p) + rest)[..n])
  {
    hide Unle, Le;
    FrameAtFront(p, rest);
    var s := FrameBytes(p) + rest;
    if n >= 8 {
      assert s[..n][4..8] == s[4..8];
    }
  }
}
