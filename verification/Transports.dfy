/** End to end: frames built on one side, chopped anywhere on the way, and read on the other side. */
module Transports {
  import opened Bytes
  import opened FlatBuffers
  import opened TxFrames
  import opened FlatBufferBuilders
  import opened Framing
  import Go = GoReassembly
  import Cpp = CppReassembly

  /** The end of FinishFlatbuffer: the finished flatbuffer gets its size and the marker in front. */
  method PrependFrameHeader(b: FlatBufferBuilder)
    requires b.Valid() && |b.Contents()| < U32_LIMIT
    modifies b.vec, b.vec.buf
    ensures b.Valid() && b.Contents() == FrameBytes(old(b.Contents()))
  {
    hide Le;
    var len := b.GetSize();
    b.SizeIsLength();
    ghost var p := b.Contents();
    b.vec.Push(Le(len, 4));
    b.vec.Push(Le(MAGIC_FRAME_MARKER, 4));
    assert Le(MAGIC_FRAME_MARKER, 4) + (Le(|p|, 4) + p) == FrameBytes(p);
  }

  /** A frame's flatbuffer, for some alignment of its contents. */
  ghost predicate Encodes(p: payload, f: Frame) {
    && FrameInRange(f)
    && exists align :: PowerOfTwoWidth(align) && BuildFrame(f, align) == Some(p)
  }

  ghost predicate AllEncode(payloads: seq<payload>, frames: seq<Frame>) {
    |payloads| == |frames| && forall i :: 0 <= i < |frames| ==> Encodes(payloads[i], frames[i])
  }

  lemma EncodedReads(p: payload, f: Frame)
    requires Encodes(p, f)
    ensures ReadFrame(p) == Some(f) && p != []
  {
    hide BuildFrame, ReadFrame;
    var align :| PowerOfTwoWidth(align) && BuildFrame(f, align) == Some(p);
    FrameRoundTrip(f, align);
    NothingReads();
  }

  lemma NothingReads()
    ensures ReadFrame([]).None?
  {
  }

  /** However the stream of encoded frames is chopped, the C++ client reads back exactly these frames, in order. */
  lemma FramesReachClient(payloads: seq<payload>, frames: seq<Frame>, chops: seq<nat>)
    requires AllEncode(payloads, frames) && Cpp.Small(payloads)
    requires Cpp.Positive(chops) && |chops| >= 2 * |Flatten(payloads)|
    ensures var got := Cpp.Run(Cpp.Start(payloads), chops).processed;
            |got| == |frames| && forall i :: 0 <= i < |frames| ==> ReadFrame(got[i]) == Some(frames[i])
  {
    hide Encodes, ReadFrame, Cpp.Run, Flatten, Cpp.Small;
    Cpp.SmallFramesArrive(payloads, chops);
    forall i | 0 <= i < |frames|
      ensures ReadFrame(payloads[i]) == Some(frames[i])
    {
      EncodedReads(payloads[i], frames[i]);
    }
  }

  /**
  And the Go server passes on the frames that have arrived completely: they read back in order, all of them once
  everything has been read, which happens after enough reads.
  */
  method FramesReachServer(reader: Go.FrameReader, payloads: seq<payload>, ghost frames: seq<Frame>, wants: seq<nat>)
    returns (n: nat)
    requires AllEncode(payloads, frames)
    requires reader.Valid() && reader.State([]) == Go.Conn([], [], [], false)
    modifies reader, reader.buf
    ensures n <= |Flatten(payloads)| && |reader.delivered| == Go.Ready(payloads, n) <= |frames|
    ensures forall i :: 0 <= i < |reader.delivered| ==> ReadFrame(reader.delivered[i]) == Some(frames[i])
    ensures n == |Flatten(payloads)| ==> |reader.delivered| == |frames|
    ensures Go.Positive(wants) && |wants| >= |Flatten(payloads)| ==> |reader.delivered| == |frames|
  {
    hide Encodes, ReadFrame, Flatten, Go.Ready, Go.Run, Go.FrameReader.Valid;
    forall i | 0 <= i < |frames|
      ensures ReadFrame(payloads[i]) == Some(frames[i]) && payloads[i] != []
    {
      EncodedReads(payloads[i], frames[i]);
    }
    n := reader.HandleBackendConnection(payloads, wants);
    Go.DeliveredExactly(payloads, wants);
    Go.AllReady(payloads);
    if Go.Positive(wants) && |wants| >= |Flatten(payloads)| {
      Go.AllDelivered(payloads, wants);
    }
  }
}
