/**
The client object whose methods take the steps of Lifecycle, branch by branch. Its invariant is all that one call needs
from the calls before it, so any list of events that Lifecycle allows can be replayed on it.
*/
module Backends {
  import opened Bytes
  import opened ResponseRuns
  import opened Lifecycle
  import opened LifecycleSafety
  import opened BufferedBodies
  import opened StreamResponses
  import Buffers

  lemma ReregisterKeeps(s: State, key: StreamKey, rs: RequestState)
    requires Invariant(s) && key in s.current && rs.request == s.current[key].request
    ensures Invariant(s.(current := s.current[key := rs]))
  {
    hide TotalCapacity, BuffersGood;
    var t := s.(current := s.current[key := rs]);
    forall k | k in t.current
      ensures RegistrationGood(t, k)
    {
      assert RegistrationGood(s, k);
    }
    BuffersStay(s, t);
  }

  lemma BuffersStay(s: State, t: State)
    requires BuffersGood(s) && t.requests == s.requests && t.limits == s.limits
    ensures BuffersGood(t)
  {
  }

  lemma BufferHasLength(s: State, id: nat)
    requires Invariant(s) && IsLive(s, id)
    ensures var r := RequestOf(s, id); r.isBuffered ==> r.contentLength != MINUS_ONE
  {
    assert BufferGood(s.limits, s.requests[id].request);
  }

  /** UnbufferedFrame, for a stream with any kind of request. */
  lemma HandsOver(s: State, f: RxFrame)
    requires f.Body? && (f.key in s.current ==> IsLive(s, s.current[f.key].request)) && !s.panicked
    ensures f.key in s.current && Unbuffered(s, s.current[f.key].request) ==>
              var id := s.current[f.key].request;
              Lifecycle.Recv(s, f) == (s.(frame := InFrame(Some(id), false, f.isFinal, BodyOf(f.body))), true)
  {
    hide Lifecycle.Recv;
    if f.key in s.current && Unbuffered(s, s.current[f.key].request) {
      UnbufferedFrame(s, f, s.current[f.key].request);
    }
  }

  class Backend {
    const limits: Limits
    var requests: seq<Slot>
    var currentRequests: map<StreamKey, RequestState>
    var bufferedRequestsTotalBytes: nat
    var frame: InFrame
    var wire: seq<WireFrame>
    var panicked: bool

    ghost function Abstract(): Lifecycle.State
      reads this
    {
      Lifecycle.State(limits, requests, currentRequests, bufferedRequestsTotalBytes, frame, wire, panicked)
    }

    ghost predicate Valid()
      reads this
    {
      Invariant(Abstract())
    }

    constructor (limits: Limits)
      ensures Valid() && Abstract() == Connected(limits)
    {
      this.limits := limits;
      requests, currentRequests, bufferedRequestsTotalBytes := [], map[], 0;
      frame, wire, panicked := NO_FRAME, [], false;
      new;
      ConnectedGood(limits);
    }

    method RequestFinished(key: StreamKey)
      requires Valid() && key in currentRequests
      modifies this`currentRequests
      ensures Valid() && Abstract() == Unregister(old(Abstract()), key)
    {
      hide Invariant;
      UnregisterKeeps(Abstract(), key);
      currentRequests := currentRequests - {key};
    }

    /** FinishFlatbuffer and the transport. */
    method Transmit(response: Response, isLast: bool)
      modifies this`wire
      ensures wire
           == old(wire) + [WireFrame(response.key, response.status, isLast, HeaderOnWire(response), response.body)]
    {
      var contentLength := response.contentLength;
      if !response.IsBodyPart() && contentLength.None? && |response.body| != 0 {
        contentLength := Some(|response.body|);
      }
      wire := wire + [WireFrame(response.key, response.status, isLast, contentLength, response.body)];
    }

    /** Returns false when the stream is closed. */
    method Send(response: Response) returns (sent: bool)
      requires Valid() && Allowed(RegistrationOf(Abstract(), response.key), response)
      modifies this`currentRequests, this`wire
      ensures Valid() && Abstract() == SendStep(old(Abstract()), response)
      ensures sent == (response.key in old(currentRequests)) && (!sent ==> wire == old(wire))
    {
      hide Invariant;
      ghost var before := Abstract();
      SendKeeps(before, response);
      var key := response.key;
      if key !in currentRequests {
        assert wire + [] == wire;
        return false;
      }
      var rs := currentRequests[key];
      var remaining := rs.responseBodyRemaining;
      if !response.IsBodyPart() {
        if response.contentLength.Some? {
          remaining := response.contentLength.value;
        } else {
          remaining := |response.body|;
        }
      }
      remaining := remaining - |response.body|;
      currentRequests := currentRequests[key := RequestState(rs.request, remaining, true)];
      ReregisterKeeps(before, key, currentRequests[key]);
      var isLast := remaining == 0 || response.isFinalChunkedFrame;
      if isLast {
        RequestFinished(key);
        assert currentRequests == old(currentRequests) - {key};
      }
      Transmit(response, isLast);
      sent := true;
    }

    /** Returns false when the request was refused over quota. A panic ends the program. */
    method ResendWhenBodyIsDone() returns (ok: bool)
      requires Valid() && CanResend(Abstract()) && !panicked
      modifies this
      ensures Valid() && Abstract() == Resend(old(Abstract()))
      ensures ok <==> GetsBuffer(old(Abstract()))
      ensures panicked <==> !Resendable(old(Abstract()))
    {
      hide Invariant;
      ghost var before := Abstract();
      ResendKeeps(before);
      var id := frame.request.value;
      var request := requests[id].request;
      if !frame.isHeader || frame.isLast || request.contentLength == 0 || request.contentLength == MINUS_ONE {
        panicked := true;
        return false;
      }
      var initialSize := Min(limits.initialBufferSize, request.contentLength);
      initialSize := Max(initialSize, |frame.body|);
      initialSize := Max(initialSize, LEAST_BUFFER);
      if initialSize + bufferedRequestsTotalBytes > limits.maxWaitingBufferTotal {
        var _ := Send(StatusOnly(request.key, STATUS_SERVICE_UNAVAILABLE));
        return false;
      }
      request := request.(body := frame.body, capacity := initialSize);
      frame := frame.(body := []);
      bufferedRequestsTotalBytes := bufferedRequestsTotalBytes + request.capacity;
      request := request.(isBuffered := true);
      requests := requests[id := Live(request)];
      ok := true;
    }

    method BadFrame(key: StreamKey, id: nat, status: nat)
      requires Valid() && IsLive(Abstract(), id) && RequestOf(Abstract(), id).key == key
      requires status != STATUS_META_BODY_PART
      modifies this`currentRequests, this`wire
      ensures Valid() && Abstract() == Refuse(old(Abstract()), key, id, status)
    {
      hide Invariant;
      RegisterKeeps(Abstract(), key, id);
      currentRequests := currentRequests[key := RequestState(id, MINUS_ONE, false)];
      var _ := Send(StatusOnly(key, status));
    }

    method RecvHeader(f: RxFrame) returns (received: bool)
      requires Valid() && !panicked && f.Header? && frame == NO_FRAME
      modifies this
      ensures Valid() && (Abstract(), received) == Lifecycle.RecvHeader(old(Abstract()), f)
    {
      hide Invariant, Resend, Refuse, SendStep;
      ghost var before := Abstract();
      HeaderKeeps(before, f);
      ArrivedKeeps(before, f);
      var id := |requests|;
      RegisterKeeps(Arrived(before, f), f.key, id);
      requests := requests + [Live(Request(f.key, f.contentLength, Active, false, [], 0))];
      frame := InFrame(Some(id), true, f.isFinal, if f.body.Some? then f.body.value else []);
      if !f.uriFits {
        BadFrame(f.key, id, STATUS_URI_TOO_LONG);
        return false;
      }
      currentRequests := currentRequests[f.key := RequestState(id, MINUS_ONE, false)];
      if frame.isLast && f.contentLength != MINUS_ONE && f.contentLength != 0 {
        var request := requests[id].request;
        requests := requests[id := Live(request.(isBuffered := true, body := frame.body, capacity := |frame.body|))];
        bufferedRequestsTotalBytes := bufferedRequestsTotalBytes + |frame.body|;
        return true;
      }
      if f.contentLength != MINUS_ONE && f.contentLength <= limits.maxAutoBufferSize && !frame.isLast {
        var ok := ResendWhenBodyIsDone();
        if panicked {
          return false;
        }
        if ok {
          return true;
        }
        frame := NO_FRAME;
        return false;
      }
      received := true;
    }

    method RecvBody(f: RxFrame) returns (received: bool)
      requires Valid() && f.Body? && frame == NO_FRAME
      modifies this
      ensures f.key in old(currentRequests) ==> IsLive(old(Abstract()), old(currentRequests)[f.key].request)
      ensures Valid() && (Abstract(), received) == Lifecycle.RecvBody(old(Abstract()), f)
      ensures f.key in old(currentRequests) && Unbuffered(old(Abstract()), old(currentRequests)[f.key].request) ==>
                && received
                && frame == InFrame(Some(old(currentRequests)[f.key].request), false, f.isFinal, BodyOf(f.body))
    {
      hide Buffers.Grown, Invariant, Refuse, SendStep;
      if f.key !in currentRequests {
        return false;
      }
      ghost var before := Abstract();
      RegisteredKey(before, f.key);
      BodyKeeps(before, f);
      var id := currentRequests[f.key].request;
      BufferHasLength(before, id);
      FrameKeeps(before, InFrame(Some(id), false, f.isFinal, []));
      var request := requests[id].request;
      frame := InFrame(Some(id), false, f.isFinal, []);
      if f.body.None? {
        return true;
      }
      var more := f.body.value;
      if request.isBuffered {
        assert request.contentLength != MINUS_ONE;
        if |request.body| + |frame.body| > request.contentLength {
          BadFrame(f.key, id, STATUS_BAD_REQUEST);
          return false;
        }
        var grows := |request.body| + |more| > request.capacity;
        if grows && bufferedRequestsTotalBytes + request.capacity > limits.maxWaitingBufferTotal {
          BadFrame(f.key, id, STATUS_SERVICE_UNAVAILABLE);
          return false;
        }
        var oldBufCapacity := request.capacity;
        var capacity := Buffers.Grown(request.capacity, |request.body| + |more|);
        request := request.(body := request.body + more, capacity := capacity);
        requests := requests[id := Live(request)];
        bufferedRequestsTotalBytes := bufferedRequestsTotalBytes + request.capacity - oldBufCapacity;
        return true;
      }
      frame := frame.(body := more);
      received := true;
    }

    method RecvControl(f: RxFrame) returns (received: bool)
      requires Valid() && f.Control? && frame == NO_FRAME
      modifies this
      ensures f.key in old(currentRequests) ==> IsLive(old(Abstract()), old(currentRequests)[f.key].request)
      ensures Valid() && (Abstract(), received) == Lifecycle.RecvControl(old(Abstract()), f)
    {
      hide Invariant;
      if f.key !in currentRequests {
        return false;
      }
      ghost var before := Abstract();
      RegisteredKey(before, f.key);
      ControlKeeps(before, f);
      var id := currentRequests[f.key].request;
      FrameKeeps(before, InFrame(Some(id), false, false, []));
      frame := InFrame(Some(id), false, false, []);
      if f.state == Aborted {
        RequestFinished(f.key);
      }
      var request := requests[id].request;
      if f.state == Aborted || request.state != Aborted {
        request := request.(state := f.state);
      }
      requests := requests[id := Live(request)];
      received := true;
    }

    /** For any decoded frame. */
    method Recv(f: RxFrame) returns (received: bool)
      requires Valid() && !panicked
      modifies this
      ensures Enabled(old(Abstract()), Receive(f))
      ensures Valid() && (Abstract(), received) == Lifecycle.Recv(old(Abstract()), f)
      ensures f.Body? && f.key in old(currentRequests) ==>
                var id := old(currentRequests)[f.key].request;
                Unbuffered(old(Abstract()), id) ==>
                  received && frame == InFrame(Some(id), false, f.isFinal, BodyOf(f.body)) && requests == old(requests)
    {
      hide Invariant, Lifecycle.RecvHeader, Lifecycle.RecvBody, Lifecycle.RecvControl;
      ghost var before := Abstract();
      if f.key in currentRequests {
        RegisteredKey(before, f.key);
      }
      FrameKeeps(before, NO_FRAME);
      frame := NO_FRAME;
      match f {
        case Header(_, _, _, _, _) => received := RecvHeader(f);
        case Body(_, _, _) =>
          received := RecvBody(f);
          HandsOver(before, f);
        case Control(_, _) => received := RecvControl(f);
      }
    }

    /** The caller lets go of its frame. */
    method ResetFrame()
      requires Valid()
      modifies this`frame
      ensures Valid() && Abstract() == old(Abstract()).(frame := NO_FRAME)
    {
      hide Invariant;
      FrameKeeps(Abstract(), NO_FRAME);
      frame := NO_FRAME;
    }

    method UnregisterBufferedBytes(n: nat)
      modifies this`bufferedRequestsTotalBytes, this`panicked
      ensures old(bufferedRequestsTotalBytes) < n ==>
                panicked && bufferedRequestsTotalBytes == old(bufferedRequestsTotalBytes)
      ensures n <= old(bufferedRequestsTotalBytes) ==>
                panicked == old(panicked) && bufferedRequestsTotalBytes == old(bufferedRequestsTotalBytes) - n
    {
      if bufferedRequestsTotalBytes < n {
        panicked := true;
        return;
      }
      bufferedRequestsTotalBytes := bufferedRequestsTotalBytes - n;
    }

    /** The request's destructor, which never panics. */
    method DestroyRequest(id: nat)
      requires Valid() && !panicked && IsLive(Abstract(), id) && Unreferenced(Abstract(), id)
      modifies this
      ensures Valid() && !panicked && Abstract() == Destroy(old(Abstract()), id)
    {
      hide Invariant, Unreferenced;
      DestroyKeeps(Abstract(), id);
      if requests[id].request.isBuffered {
        UnregisterBufferedBytes(requests[id].request.capacity);
        if panicked {
          return;
        }
      }
      requests := requests[id := Destroyed];
    }

    method Perform(e: Event)
      requires Valid() && Enabled(Abstract(), e)
      modifies this
      ensures Valid() && Abstract() == Step(old(Abstract()), e)
    {
      hide Invariant, Lifecycle.Recv, Resend, SendStep, Destroy;
      match e {
        case Receive(f) => var _ := Recv(f);
        case ResendWhenBodyIsDone => var _ := ResendWhenBodyIsDone();
        case Send(r) => var _ := Send(r);
        case ResetFrame => ResetFrame();
        case DestroyRequest(id) => DestroyRequest(id);
      }
    }

    /** Whatever happens, the object is where the run of its events leads. */
    method Replay(events: seq<Event>)
      requires Valid() && Legal(Abstract(), events)
      modifies this
      ensures Valid() && Abstract() == Run(old(Abstract()), events)
    {
      hide Invariant, Step, Enabled;
      ghost var end := Run(Abstract(), events);
      assert events[0..] == events;
      for i := 0 to |events|
        invariant Valid() && Legal(Abstract(), events[i..]) && Run(Abstract(), events[i..]) == end
      {
        assert events[i..][0] == events[i] && events[i..][1..] == events[i + 1..];
        Perform(events[i]);
      }
      assert events[|events|..] == [];
    }
  }

  /**
  A whole connection: after any run from its beginning the object's total is what its requests hold, but for replaced
  allocations; it is within the quota if the run is modest.
  */
  method Session(limits: Limits, events: seq<Event>) returns (b: Backend)
    requires Legal(Connected(limits), events)
    ensures fresh(b) && b.Valid() && b.Abstract() == Run(Connected(limits), events)
    ensures b.bufferedRequestsTotalBytes == TotalCapacity(b.requests) + RunLeak(Connected(limits), events)
    ensures b.bufferedRequestsTotalBytes == TotalCapacity(b.requests) <==> NeverReplaces(Connected(limits), events)
    ensures AllModest(Connected(limits), events) ==> b.bufferedRequestsTotalBytes <= limits.maxWaitingBufferTotal
  {
    hide Invariant, Legal, Run, RunLeak, NeverReplaces, AllModest, TotalCapacity;
    b := new Backend(limits);
    b.Replay(events);
    AccountingConserved(limits, events);
    if AllModest(Connected(limits), events) {
      QuotaKept(limits, events);
    }
  }

  /** What the object has put on the wire for a stream, from its registration on. */
  method RunStream(b: Backend, events: seq<Event>, key: StreamKey)
    requires b.Valid() && Legal(b.Abstract(), events) && Undisturbed(b.Abstract(), events, key)
    requires RegistrationOf(b.Abstract(), key) == Registered() && Responses(events, key) != []
    modifies b
    ensures b.Valid() && b.Abstract() == Run(old(b.Abstract()), events)
    ensures SafeRun(OnWire(b.wire, key), |old(OnWire(b.wire, key))|, Responses(events, key), key !in b.currentRequests)
  {
    hide Invariant, Legal, Undisturbed, Run, OnWire, SafeRun;
    StreamResponseSafety(b.Abstract(), events, key);
    b.Replay(events);
  }
}
