/**
The responses sent on one stream: how many body bytes are still owed, and which frames reach the wire. What Send
asserts about its caller is Allowed.
*/
module ResponseRuns {
  import opened Bytes

  datatype StreamKey = StreamKey(channel: nat, stream: nat)

  /** -1 as an unsigned 64-bit number: a chunked body, and the countdown before the first response. */
  const MINUS_ONE: nat := U64_LIMIT - 1

  const STATUS_META_BODY_PART: nat := 1000

  datatype Response = Response(
    key: StreamKey,
    status: nat,
    contentLength: Option<nat>,  // the Content-Length header, as atoi64 reads it into 64 unsigned bits
    body: bytes,
    isFinalChunkedFrame: bool)
  {
    predicate IsBodyPart() {
      status == STATUS_META_BODY_PART
    }
  }

  datatype WireFrame = WireFrame(key: StreamKey, status: nat, isFinal: bool, contentLength: Option<nat>, body: bytes)
  {
    /** Header and Body frames differ in their type, which the status decides. */
    predicate IsHeader() {
      status != STATUS_META_BODY_PART
    }
  }

  /** What the client remembers about a stream's response; Finished when the stream is not registered. */
  datatype Registration = Open(remaining: nat, isResponseHeaderSent: bool) | Finished

  function Registered(): Registration {
    Open(MINUS_ONE, false)
  }

  /** The body length that a header response announces. */
  function Declared(r: Response): nat {
    if r.contentLength.Some? then r.contentLength.value else |r.body|
  }

  /** Owed before the bytes of this response are taken off. */
  function Owed(reg: Registration, r: Response): nat
    requires reg.Open?
  {
    if r.IsBodyPart() then reg.remaining else Declared(r)
  }

  predicate Allowed(reg: Registration, r: Response) {
    reg.Open? ==>
      && (r.IsBodyPart() ==> r.contentLength.None?)
      && r.IsBodyPart() == reg.isResponseHeaderSent
      && |r.body| <= Owed(reg, r)
  }

  predicate IsLast(reg: Registration, r: Response)
    requires reg.Open? && Allowed(reg, r)
  {
    Owed(reg, r) - |r.body| == 0 || r.isFinalChunkedFrame
  }

  function Sent(reg: Registration, r: Response): Registration
    requires Allowed(reg, r)
  {
    if reg.Finished? || IsLast(reg, r) then Finished else Open(Owed(reg, r) - |r.body|, true)
  }

  /** A response without Content-Length gets one if it has a body. */
  function HeaderOnWire(r: Response): Option<nat> {
    if !r.IsBodyPart() && r.contentLength.None? && r.body != [] then Some(|r.body|) else r.contentLength
  }

  function Emitted(reg: Registration, r: Response): seq<WireFrame>
    requires Allowed(reg, r)
  {
    if reg.Finished? then [] else [WireFrame(r.key, r.status, IsLast(reg, r), HeaderOnWire(r), r.body)]
  }

  // ---------- runs ----------

  predicate AllAllowed(reg: Registration, rs: seq<Response>)
    decreases |rs|
  {
    rs == [] || (Allowed(reg, rs[0]) && AllAllowed(Sent(reg, rs[0]), rs[1..]))
  }

  function SentAll(reg: Registration, rs: seq<Response>): Registration
    requires AllAllowed(reg, rs)
    decreases |rs|
  {
    if rs == [] then reg else SentAll(Sent(reg, rs[0]), rs[1..])
  }

  function EmittedAll(reg: Registration, rs: seq<Response>): (out: seq<WireFrame>)
    requires AllAllowed(reg, rs)
    ensures |out| <= |rs|
    decreases |rs|
  {
    if rs == [] then [] else Emitted(reg, rs[0]) + EmittedAll(Sent(reg, rs[0]), rs[1..])
  }

  /** Body bytes in the first n responses. */
  function BodyTotal(rs: seq<Response>, n: nat): nat
    requires n <= |rs|
  {
    if n == 0 then 0 else |rs[0].body| + BodyTotal(rs[1..], n - 1)
  }

  /** The response that a stream's last frame carries: the bytes are complete, or it is flagged. */
  ghost predicate Ends(rs: seq<Response>, i: nat, length: nat)
    requires i < |rs|
  {
    BodyTotal(rs, i + 1) == length || rs[i].isFinalChunkedFrame
  }

  /** Frame i carries response i, within the owed length, and is Final exactly where the response ends. */
  ghost predicate Carries(rs: seq<Response>, out: seq<WireFrame>, i: nat, length: nat)
    requires i < |out| <= |rs|
  {
    && out[i].body == rs[i].body && out[i].status == rs[i].status
    && BodyTotal(rs, i + 1) <= length
    && (out[i].isFinal <==> Ends(rs, i, length))
    && (out[i].isFinal ==> i == |out| - 1)
  }

  /** out is what rs must put on the wire when the stream owes length bytes; frames stop at the first Final only. */
  ghost predicate IsRun(rs: seq<Response>, out: seq<WireFrame>, length: nat) {
    && |out| <= |rs|
    && (forall i :: 0 <= i < |out| ==> Carries(rs, out, i, length))
    && (|out| < |rs| ==> out != [] && out[|out| - 1].isFinal)
  }

  lemma {:induction false} NothingAfterFinished(rs: seq<Response>)
    ensures AllAllowed(Finished, rs) && SentAll(Finished, rs) == Finished && EmittedAll(Finished, rs) == []
    decreases |rs|
  {
    if rs != [] {
      NothingAfterFinished(rs[1..]);
    }
  }

  lemma CarriesShift(r: Response, rest: seq<Response>, f: WireFrame, tail: seq<WireFrame>, i: nat, length: nat)
    requires i < |tail| <= |rest| && |r.body| <= length
    requires Carries(rest, tail, i, length - |r.body|)
    ensures Carries([r] + rest, [f] + tail, i + 1, length)
  {
    var rs, out := [r] + rest, [f] + tail;
    assert rs[1..] == rest && rs[i + 1] == rest[i] && out[i + 1] == tail[i];
    assert BodyTotal(rs, i + 2) == |r.body| + BodyTotal(rest, i + 1);
  }

  /** One more response in front of a run. */
  lemma RunStep(r: Response, rest: seq<Response>, f: WireFrame, tail: seq<WireFrame>, length: nat)
    requires |r.body| <= length && f.body == r.body && f.status == r.status
    requires f.isFinal <==> (|r.body| == length || r.isFinalChunkedFrame)
    requires if f.isFinal then tail == [] else IsRun(rest, tail, length - |r.body|)
    ensures IsRun([r] + rest, [f] + tail, length)
  {
    hide Carries;
    var rs, out := [r] + rest, [f] + tail;
    forall i | 0 <= i < |out|
      ensures Carries(rs, out, i, length)
    {
      if i == 0 {
        CarriesFirst(rs, out, length);
      } else {
        CarriesShift(r, rest, f, tail, i - 1, length);
      }
    }
  }

  lemma CarriesFirst(rs: seq<Response>, out: seq<WireFrame>, length: nat)
    requires rs != [] && out != [] && |out| <= |rs|
    requires |rs[0].body| <= length && out[0].body == rs[0].body && out[0].status == rs[0].status
    requires out[0].isFinal <==> (|rs[0].body| == length || rs[0].isFinalChunkedFrame)
    requires out[0].isFinal ==> |out| == 1
    ensures Carries(rs, out, 0, length)
  {
    assert BodyTotal(rs, 1) == |rs[0].body| + BodyTotal(rs[1..], 0);
  }

  lemma {:induction false} AnyRun(reg: Registration, rs: seq<Response>, length: nat)
    requires reg.Open? && AllAllowed(reg, rs)
    requires rs != [] ==> length == Owed(reg, rs[0])
    ensures IsRun(rs, EmittedAll(reg, rs), length)
    ensures var out := EmittedAll(reg, rs);
            SentAll(reg, rs).Finished? <==> (out != [] && out[|out| - 1].isFinal)
    decreases |rs|
  {
    hide IsRun;
    if rs == [] {
      EmptyRun(length);
    } else {
      var r, rest := rs[0], rs[1..];
      var next := Sent(reg, r);
      var f := Emitted(reg, r)[0];
      assert rs == [r] + rest;
      if next.Finished? {
        NothingAfterFinished(rest);
        RunStep(r, rest, f, [], length);
      } else {
        if rest != [] {
          assert Allowed(next, rest[0]);
        }
        AnyRun(next, rest, length - |r.body|);
        RunStep(r, rest, f, EmittedAll(next, rest), length);
      }
    }
  }

  lemma EmptyRun(length: nat)
    ensures IsRun([], [], length)
  {
  }

  /** The first response is the header and the others are body parts. */
  lemma {:induction false} BodyPartsFollow(reg: Registration, rs: seq<Response>)
    requires reg.Open? && reg.isResponseHeaderSent && AllAllowed(reg, rs)
    ensures forall i :: 0 <= i < |EmittedAll(reg, rs)| ==> !EmittedAll(reg, rs)[i].IsHeader()
    decreases |rs|
  {
    if rs != [] {
      var next := Sent(reg, rs[0]);
      if next.Finished? {
        NothingAfterFinished(rs[1..]);
      } else {
        BodyPartsFollow(next, rs[1..]);
      }
    }
  }

  /** One Header frame, then only Body frames; at most one Final, and that one last; after it, nothing. */
  lemma ResponseRunSafety(rs: seq<Response>)
    requires rs != [] && AllAllowed(Registered(), rs)
    ensures var out := EmittedAll(Registered(), rs);
            && out != []
            && (forall i :: 0 <= i < |out| ==> (out[i].IsHeader() <==> i == 0))
            && IsRun(rs, out, Declared(rs[0]))
            && (out[|out| - 1].isFinal <==> SentAll(Registered(), rs).Finished?)
  {
    hide IsRun;
    AnyRun(Registered(), rs, Declared(rs[0]));
    var next := Sent(Registered(), rs[0]);
    if next.Finished? {
      NothingAfterFinished(rs[1..]);
    } else {
      BodyPartsFollow(next, rs[1..]);
    }
  }

  /** With a Content-Length and no flag, the Final frame is the one that completes the announced bytes. */
  lemma FinalWhenComplete(rs: seq<Response>, i: nat)
    requires rs != [] && AllAllowed(Registered(), rs)
    requires forall r <- rs :: !r.isFinalChunkedFrame
    requires i < |EmittedAll(Registered(), rs)|
    ensures EmittedAll(Registered(), rs)[i].isFinal <==> BodyTotal(rs, i + 1) == Declared(rs[0])
  {
    ResponseRunSafety(rs);
    assert Carries(rs, EmittedAll(Registered(), rs), i, Declared(rs[0]));
    assert rs[i] in rs;
    assert Ends(rs, i, Declared(rs[0])) <==> BodyTotal(rs, i + 1) == Declared(rs[0]);
  }

  /** With Content-Length -1, the Final frame is the flagged one. */
  lemma FinalWhenFlagged(rs: seq<Response>, i: nat)
    requires rs != [] && AllAllowed(Registered(), rs)
    requires rs[0].contentLength == Some(MINUS_ONE)
    requires i < |EmittedAll(Registered(), rs)| && BodyTotal(rs, i + 1) < MINUS_ONE
    ensures EmittedAll(Registered(), rs)[i].isFinal <==> rs[i].isFinalChunkedFrame
  {
    ResponseRunSafety(rs);
    assert Carries(rs, EmittedAll(Registered(), rs), i, Declared(rs[0]));
    assert Ends(rs, i, Declared(rs[0])) <==> rs[i].isFinalChunkedFrame;
  }
}
