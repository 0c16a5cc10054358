/** The quota on buffered bodies, and what a buffered body holds. */
module BufferedBodies {
  import opened Bytes
  import opened ResponseRuns
  import opened Lifecycle
  import opened LifecycleSafety
  import Buffers

  // ---------- quota ----------

  /** Header-final frames carry no body, and a body frame is no larger than the buffer it goes to. */
  ghost predicate Modest(s: State, e: Event) {
    e.Receive? ==>
      match e.f
      case Header(_, _, body, isFinal, _) => isFinal ==> BodyOf(body) == []
      case Body(key, body, _) =>
        key in s.current && IsLive(s, s.current[key].request) && RequestOf(s, s.current[key].request).isBuffered ==>
          |BodyOf(body)| <= RequestOf(s, s.current[key].request).capacity
      case Control(_, _) => true
  }

  ghost predicate WithinQuota(s: State) {
    s.total <= s.limits.maxWaitingBufferTotal
  }

  lemma HeaderWithinQuota(s: State, f: RxFrame)
    requires Invariant(s) && WithinQuota(s) && f.Header? && (f.isFinal ==> BodyOf(f.body) == [])
    ensures WithinQuota(RecvHeader(s, f).0) && RecvHeader(s, f).0.limits == s.limits
  {
    hide TotalCapacity, BuffersGood, Registrations;
  }

  /** A frame no larger than its buffer grows it at most once. */
  lemma GrowsOnce(capacity: nat, count: nat, more: nat)
    requires count <= capacity && more <= capacity < count + more
    ensures Buffers.Grown(capacity, count + more) == 2 * capacity
  {
  }

  lemma AppendWithinQuota(s: State, id: nat, more: bytes)
    requires WithinQuota(s) && IsLive(s, id)
    requires var r := RequestOf(s, id); |r.body| <= r.capacity && |more| <= r.capacity && !OverQuota(s, r, more)
    ensures WithinQuota(Append(s, id, more)) && Append(s, id, more).limits == s.limits
  {
    hide Buffers.Grown, OverQuota;
    OverQuotaExactly(s, id, more);
  }

  /** For a frame no larger than its buffer, the check refuses exactly what would take the total over the quota. */
  lemma OverQuotaExactly(s: State, id: nat, more: bytes)
    requires WithinQuota(s) && IsLive(s, id)
    requires var r := RequestOf(s, id); |r.body| <= r.capacity && |more| <= r.capacity
    ensures OverQuota(s, RequestOf(s, id), more) <==> !WithinQuota(Append(s, id, more))
  {
    hide Buffers.Grown;
    var r := RequestOf(s, id);
    if |r.body| + |more| > r.capacity {
      GrowsOnce(r.capacity, |r.body|, |more|);
    } else {
      FitsAlready(r.capacity, |r.body| + |more|);
    }
  }

  lemma FitsAlready(capacity: nat, need: nat)
    requires need <= capacity
    ensures Buffers.Grown(capacity, need) == capacity
  {
  }

  lemma BodyWithinQuota(s: State, f: RxFrame)
    requires Invariant(s) && WithinQuota(s) && f.Body? && (f.key in s.current ==> IsLive(s, s.current[f.key].request))
    requires Modest(s, Receive(f))
    ensures WithinQuota(RecvBody(s, f).0) && RecvBody(s, f).0.limits == s.limits
  {
    hide TotalCapacity, Append, Refuse, Invariant;
    if f.key in s.current && f.body.Some? {
      var id := s.current[f.key].request;
      RegisteredKey(s, f.key);
      var t := s.(frame := InFrame(Some(id), false, f.isFinal, []));
      FrameKeeps(s, t.frame);
      RefuseKeeps(t, f.key, id, STATUS_BAD_REQUEST);
      RefuseKeeps(t, f.key, id, STATUS_SERVICE_UNAVAILABLE);
      if RequestOf(s, id).isBuffered && !OverQuota(s, RequestOf(s, id), f.body.value) {
        BufferFits(s, id);
        AppendWithinQuota(t, id, f.body.value);
      }
    }
  }

  lemma BufferFits(s: State, id: nat)
    requires Invariant(s) && IsLive(s, id) && RequestOf(s, id).isBuffered
    ensures |RequestOf(s, id).body| <= RequestOf(s, id).capacity
  {
    assert BufferGood(s.limits, s.requests[id].request);
  }

  lemma StepWithinQuota(s: State, e: Event)
    requires Invariant(s) && WithinQuota(s) && Enabled(s, e) && Modest(s, e)
    ensures WithinQuota(Step(s, e)) && Step(s, e).limits == s.limits
  {
    hide TotalCapacity, RecvHeader, RecvBody, Invariant;
    match e
    case Receive(f) =>
      FrameKeeps(s, NO_FRAME);
      match f {
        case Header(_, _, _, _, _) => HeaderWithinQuota(s.(frame := NO_FRAME), f);
        case Body(_, _, _) => BodyWithinQuota(s.(frame := NO_FRAME), f);
        case Control(_, _) =>
      }
    case ResendWhenBodyIsDone =>
    case Send(r) => SendKeeps(s, r);
    case ResetFrame =>
    case DestroyRequest(id) =>
  }

  ghost predicate AllModest(s: State, events: seq<Event>)
    requires Legal(s, events)
    decreases |events|
  {
    events == [] || (Modest(s, events[0]) && AllModest(Step(s, events[0]), events[1..]))
  }

  /** The quota holds in every state of every such run. */
  lemma {:induction false} RunWithinQuota(s: State, events: seq<Event>)
    requires Invariant(s) && WithinQuota(s)
    requires Legal(s, events) && AllModest(s, events)
    ensures WithinQuota(Run(s, events)) && Run(s, events).limits == s.limits
    decreases |events|
  {
    hide Invariant, WithinQuota, Step, Enabled, Modest, Leak, LeakOf;
    if events != [] {
      StepKeeps(s, events[0]);
      StepWithinQuota(s, events[0]);
      RunWithinQuota(Step(s, events[0]), events[1..]);
    }
  }

  lemma QuotaKept(limits: Limits, events: seq<Event>)
    requires Legal(Connected(limits), events) && AllModest(Connected(limits), events)
    ensures Run(Connected(limits), events).total <= limits.maxWaitingBufferTotal
  {
    ConnectedGood(limits);
    RunWithinQuota(Connected(limits), events);
  }

  // ---------- what panics, and what is refused ----------

  /**
  The client gives up on exactly one kind of frame, a header that is not final and announces no body length, and on
  exactly one kind of call, ResendWhenBodyIsDone on anything but the first frame of a request with a positive length.
  */
  lemma PanicsExactly(s: State, e: Event)
    requires Invariant(s) && Enabled(s, e)
    ensures Step(s, e).panicked <==>
              || (e.Receive? && e.f.Header? && e.f.uriFits && !e.f.isFinal && e.f.contentLength == 0)
              || (e.ResendWhenBodyIsDone? && !Resendable(s))
  {
    hide TotalCapacity, Invariant, Buffers.Grown;
    match e
    case Receive(f) =>
    case ResendWhenBodyIsDone =>
    case Send(r) => SendKeeps(s, r);
    case ResetFrame =>
    case DestroyRequest(id) => DestroyKeeps(s, id);
  }

  /** A body may overrun its Content-Length by its last accepted frame; only the frame after that is refused. */
  lemma OverrunIsCaughtLate(s: State, f: RxFrame)
    requires Invariant(s) && f.Body? && f.body.Some? && f.key in s.current
    requires RequestOf(s, s.current[f.key].request).isBuffered
    requires !OverQuota(s, RequestOf(s, s.current[f.key].request), f.body.value)
    ensures var id := s.current[f.key].request; var r := RequestOf(s, id); var (t, ok) := RecvBody(s, f);
            && (ok <==> |r.body| <= r.contentLength)
            && (ok ==> IsLive(t, id) && RequestOf(t, id).body == r.body + f.body.value)
            && (ok ==> (TooLong(RequestOf(t, id)) <==> |r.body| + |f.body.value| > r.contentLength))
  {
    hide TotalCapacity, Buffers.Grown, Refuse;
    RegisteredKey(s, f.key);
  }

  // ---------- a buffered body is the concatenation of its stream's payloads ----------

  function PayloadOf(e: Event, key: StreamKey): bytes {
    if e.Receive? && e.f.Body? && e.f.key == key then BodyOf(e.f.body) else []
  }

  /** The payloads a stream's body frames carry, in order. */
  function Payloads(events: seq<Event>, key: StreamKey): bytes {
    if events == [] then [] else PayloadOf(events[0], key) + Payloads(events[1..], key)
  }

  ghost predicate Serves(s: State, key: StreamKey, id: nat) {
    key in s.current && s.current[key].request == id
  }

  ghost predicate HasBody(s: State, id: nat, body: bytes) {
    IsLive(s, id) && RequestOf(s, id).isBuffered && RequestOf(s, id).body == body
  }

  lemma AppendBody(s: State, at: nat, more: bytes, id: nat, body: bytes)
    requires IsLive(s, at) && HasBody(s, id, body)
    ensures HasBody(Append(s, at, more), id, if at == id then body + more else body)
    ensures Append(s, at, more).current == s.current && Append(s, at, more).frame == s.frame
  {
    hide Buffers.Grown;
  }

  lemma RefuseBody(s: State, at: StreamKey, r: nat, status: nat, key: StreamKey, id: nat)
    requires status != STATUS_META_BODY_PART
    ensures var t := Refuse(s, at, r, status);
            && t.requests == s.requests && t.frame == s.frame
            && (at == key ==> !Serves(t, key, id)) && (at != key ==> Serves(t, key, id) == Serves(s, key, id))
  {
  }

  lemma BodyStep(s: State, f: RxFrame, key: StreamKey, id: nat, body: bytes)
    requires Invariant(s) && Serves(s, key, id) && HasBody(s, id, body) && f.Body?
    requires f.key in s.current ==> IsLive(s, s.current[f.key].request)
    ensures Serves(RecvBody(s, f).0, key, id) ==> HasBody(RecvBody(s, f).0, id, body + PayloadOf(Receive(f), key))
    ensures !Serves(RecvBody(s, f).0, key, id) ==> !RecvBody(s, f).1
    ensures f.key == key ==> RecvBody(s, f).0.frame.body == []
  {
    hide Append, Refuse, Invariant, OverQuota, TooLong;
    RegisteredKey(s, key);
    assert body + [] == body;
    if f.key in s.current {
      var at := s.current[f.key].request;
      RegisteredKey(s, f.key);
      var t := s.(frame := InFrame(Some(at), false, f.isFinal, []));
      RefuseBody(t, f.key, at, STATUS_BAD_REQUEST, key, id);
      RefuseBody(t, f.key, at, STATUS_SERVICE_UNAVAILABLE, key, id);
      AppendBody(t, at, BodyOf(f.body), id, body);
    }
  }

  lemma HeaderStep(s: State, f: RxFrame, key: StreamKey, id: nat, body: bytes)
    requires Invariant(s) && Serves(s, key, id) && HasBody(s, id, body) && f.Header?
    ensures Serves(RecvHeader(s, f).0, key, id) ==> HasBody(RecvHeader(s, f).0, id, body)
  {
    hide TotalCapacity, Invariant;
  }

  /** ResendWhenBodyIsDone gives this request a new buffer. */
  ghost predicate Rebuffers(s: State, e: Event, id: nat)
    requires Enabled(s, e)
  {
    e.ResendWhenBodyIsDone? && GetsBuffer(s) && s.frame.request == Some(id)
  }

  ghost predicate KeepsBuffer(s: State, events: seq<Event>, id: nat)
    requires Legal(s, events)
    decreases |events|
  {
    events == [] || (!Rebuffers(s, events[0], id) && KeepsBuffer(Step(s, events[0]), events[1..], id))
  }

  lemma StepBody(s: State, e: Event, key: StreamKey, id: nat, body: bytes)
    requires Invariant(s) && Enabled(s, e) && !Rebuffers(s, e, id) && Serves(s, key, id) && HasBody(s, id, body)
    ensures Serves(Step(s, e), key, id) ==> HasBody(Step(s, e), id, body + PayloadOf(e, key))
    ensures id < |Step(s, e).requests|
  {
    hide TotalCapacity, Invariant, RecvHeader, RecvBody;
    assert body + [] == body;
    match e
    case Receive(f) =>
      FrameKeeps(s, NO_FRAME);
      RequestsOnlyGrow(s, e);
      match f {
        case Header(_, _, _, _, _) => HeaderStep(s.(frame := NO_FRAME), f, key, id, body);
        case Body(_, _, _) => BodyStep(s.(frame := NO_FRAME), f, key, id, body);
        case Control(_, _) =>
      }
    case ResendWhenBodyIsDone =>
    case Send(r) => SendKeeps(s, r);
    case ResetFrame =>
    case DestroyRequest(_) =>
  }

  lemma RequestsOnlyGrow(s: State, e: Event)
    requires Enabled(s, e)
    ensures |s.requests| <= |Step(s, e).requests|
  {
    hide TotalCapacity, Buffers.Grown;
  }

  /** A response leaves the stream with its request, or closes it. */
  lemma SendServes(s: State, r: Response, key: StreamKey, id: nat)
    requires Allowed(RegistrationOf(s, r.key), r)
    ensures Serves(SendStep(s, r), key, id) ==> Serves(s, key, id)
  {
    hide Emitted, Sent, Allowed;
  }

  lemma RefuseGone(s: State, at: StreamKey, r: nat, status: nat, key: StreamKey, id: nat)
    requires status != STATUS_META_BODY_PART && r != id && !Serves(s, key, id)
    ensures !Serves(Refuse(s, at, r, status), key, id)
  {
    hide SendStep;
    SendServes(Register(s, at, r), StatusOnly(at, status), key, id);
  }

  lemma HeaderGone(s: State, f: RxFrame, key: StreamKey, id: nat)
    requires f.Header? && id < |s.requests| && !Serves(s, key, id)
    ensures !Serves(RecvHeader(s, f).0, key, id)
  {
    hide SendStep, Refuse;
    var r, a := |s.requests|, Arrived(s, f);
    RefuseGone(a, f.key, r, STATUS_URI_TOO_LONG, key, id);
    SendServes(Register(a, f.key, r), StatusOnly(f.key, STATUS_SERVICE_UNAVAILABLE), key, id);
  }

  lemma BodyGone(s: State, f: RxFrame, key: StreamKey, id: nat)
    requires f.Body? && (f.key in s.current ==> IsLive(s, s.current[f.key].request)) && !Serves(s, key, id)
    ensures !Serves(RecvBody(s, f).0, key, id)
  {
    hide TotalCapacity, Buffers.Grown, Emitted, Sent, Allowed;
  }

  /** A request that no longer serves its stream never does again. */
  lemma StepGone(s: State, e: Event, key: StreamKey, id: nat)
    requires Enabled(s, e) && id < |s.requests| && !Serves(s, key, id)
    ensures !Serves(Step(s, e), key, id)
  {
    hide TotalCapacity, Emitted, Sent, Allowed, RecvHeader, RecvBody;
    if e.Receive? && e.f.Header? {
      HeaderGone(s.(frame := NO_FRAME), e.f, key, id);
    } else if e.Receive? && e.f.Body? {
      BodyGone(s.(frame := NO_FRAME), e.f, key, id);
    }
  }

  lemma {:induction false} RunGone(s: State, events: seq<Event>, key: StreamKey, id: nat)
    requires Legal(s, events) && id < |s.requests| && !Serves(s, key, id)
    ensures !Serves(Run(s, events), key, id)
    decreases |events|
  {
    hide Step, Enabled, Serves;
    if events != [] {
      RequestsOnlyGrow(s, events[0]);
      StepGone(s, events[0], key, id);
      RunGone(Step(s, events[0]), events[1..], key, id);
    }
  }

  /**
  Under any interleaving with other streams: as long as a buffered request still serves its stream, its buffer is the
  body it began with followed by every payload of that stream, in order. Nothing of it was refused on the way. The
  caller must not give the request a second buffer.
  */
  lemma {:induction false} BufferedBodyAgrees(s: State, events: seq<Event>, key: StreamKey, id: nat, body: bytes)
    requires Invariant(s) && Legal(s, events) && KeepsBuffer(s, events, id)
    requires Serves(s, key, id) && HasBody(s, id, body)
    requires Serves(Run(s, events), key, id)
    ensures HasBody(Run(s, events), id, body + Payloads(events, key))
    decreases |events|
  {
    hide Invariant, Step, Enabled, Rebuffers, Serves, HasBody, PayloadOf, Leak, LeakOf;
    if events == [] {
      assert body + Payloads(events, key) == body;
    } else {
      var t := Step(s, events[0]);
      StepKeeps(s, events[0]);
      StepBody(s, events[0], key, id, body);
      if !Serves(t, key, id) {
        RunGone(t, events[1..], key, id);
      }
      var more := PayloadOf(events[0], key);
      BufferedBodyAgrees(t, events[1..], key, id, body + more);
      assert body + more + Payloads(events[1..], key) == body + Payloads(events, key);
    }
  }

  /** An automatically buffered request begins with its header frame's body, which the caller's frame has lost. */
  lemma AutoBufferedBegins(s: State, f: RxFrame)
    requires f.Header? && f.uriFits && AutoBuffered(s, f) && f.contentLength != 0 && RecvHeader(s, f).1
    ensures var t := RecvHeader(s, f).0;
            Serves(t, f.key, |s.requests|) && HasBody(t, |s.requests|, BodyOf(f.body)) && t.frame.body == []
  {
  }

  /**
  A request buffered at its header frame: when Recv returns its final body frame, whatever came in between on this and
  other streams, its buffer is the header frame's body followed by all payloads of its stream, in order, and the
  caller's frame holds no body of its own.
  */
  lemma BufferedUpload(s: State, f: RxFrame, events: seq<Event>, g: RxFrame)
    requires Invariant(s) && Enabled(s, Receive(f)) && f.Header? && f.uriFits && f.contentLength != 0
    requires AutoBuffered(s, f) && Recv(s, f).1
    requires var t, id := Recv(s, f).0, |s.requests|;
             && Legal(t, events) && KeepsBuffer(t, events, id)
             && var u := Run(t, events);
                && g.Body? && g.key == f.key && g.isFinal && Enabled(u, Receive(g))
                && Recv(u, g).1 && Recv(u, g).0.frame.request == Some(id)
    ensures var u, id := Run(Recv(s, f).0, events), |s.requests|;
            && HasBody(Recv(u, g).0, id, BodyOf(f.body) + Payloads(events, f.key) + BodyOf(g.body))
            && Recv(u, g).0.frame == InFrame(Some(id), false, true, [])
  {
    hide Invariant, RecvHeader, RecvBody, Run, Legal, KeepsBuffer, Payloads, Leak, HasBody;
    var t, id := Recv(s, f).0, |s.requests|;
    var u := Run(t, events);
    AutoBufferedBegins(s.(frame := NO_FRAME), f);
    StepKeeps(s, Receive(f));
    FinalFrame(u.(frame := NO_FRAME), g, id);
    BufferedBodyAgrees(t, events, f.key, id, BodyOf(f.body));
    RunKeeps(t, events);
    FrameKeeps(u, NO_FRAME);
    var body := BodyOf(f.body) + Payloads(events, f.key);
    BodyWithoutFrame(u, id, body);
    BodyStep(u.(frame := NO_FRAME), g, f.key, id, body);
  }

  /** A body frame that is returned is one of the request that serves its stream. */
  lemma FinalFrame(s: State, g: RxFrame, id: nat)
    requires g.Body? && (g.key in s.current ==> IsLive(s, s.current[g.key].request)) && RecvBody(s, g).1
    requires RecvBody(s, g).0.frame.request == Some(id)
    ensures Serves(s, g.key, id) && RecvBody(s, g).0.current == s.current
    ensures RecvBody(s, g).0.frame.(body := []) == InFrame(Some(id), false, g.isFinal, [])
  {
    hide Buffers.Grown, TooLong, OverQuota, Refuse;
  }

  lemma BodyWithoutFrame(s: State, id: nat, body: bytes)
    requires HasBody(s, id, body)
    ensures HasBody(s.(frame := NO_FRAME), id, body)
  {
  }

  // ---------- an unbuffered body is handed over frame by frame ----------

  ghost predicate Unbuffered(s: State, id: nat) {
    IsLive(s, id) && !RequestOf(s, id).isBuffered
  }

  /** Unless it is to be buffered, a request begins with its header frame's body in the caller's frame. */
  lemma UnbufferedBegins(s: State, f: RxFrame)
    requires f.Header? && f.uriFits && !AutoBuffered(s, f) && (f.isFinal ==> f.contentLength in {0, MINUS_ONE})
    ensures var t, id := RecvHeader(s, f).0, |s.requests|;
            && RecvHeader(s, f).1 && Serves(t, f.key, id) && Unbuffered(t, id)
            && t.frame == InFrame(Some(id), true, f.isFinal, BodyOf(f.body))
  {
  }

  /** Recv accepts every body frame of such a request, and all it does is hand over the payload. */
  lemma UnbufferedFrame(s: State, f: RxFrame, id: nat)
    requires Enabled(s, Receive(f)) && f.Body? && Serves(s, f.key, id) && Unbuffered(s, id)
    ensures Recv(s, f) == (s.(frame := InFrame(Some(id), false, f.isFinal, BodyOf(f.body))), true)
  {
  }

  /** The bytes that the caller's frame holds after a body frame of the stream. */
  ghost function Handed(s: State, e: Event, key: StreamKey): bytes
    requires Enabled(s, e)
  {
    if e.Receive? && e.f.Body? && e.f.key == key then Step(s, e).frame.body else []
  }

  ghost function HandedAll(s: State, events: seq<Event>, key: StreamKey): bytes
    requires Legal(s, events)
    decreases |events|
  {
    if events == [] then [] else Handed(s, events[0], key) + HandedAll(Step(s, events[0]), events[1..], key)
  }

  lemma HeaderUnbuffered(s: State, f: RxFrame, id: nat)
    requires f.Header? && Unbuffered(s, id)
    ensures Unbuffered(RecvHeader(s, f).0, id)
  {
    hide TotalCapacity, Emitted, Sent, Allowed;
  }

  lemma BodyUnbuffered(s: State, f: RxFrame, id: nat)
    requires f.Body? && (f.key in s.current ==> IsLive(s, s.current[f.key].request)) && Unbuffered(s, id)
    ensures Unbuffered(RecvBody(s, f).0, id)
  {
    hide TotalCapacity, Buffers.Grown, Emitted, Sent, Allowed;
  }

  lemma StepUnbuffered(s: State, e: Event, key: StreamKey, id: nat)
    requires Enabled(s, e) && !Rebuffers(s, e, id) && Serves(s, key, id) && Unbuffered(s, id)
    ensures Unbuffered(Step(s, e), id) && Handed(s, e, key) == PayloadOf(e, key)
  {
    hide TotalCapacity, Emitted, Sent, Allowed, RecvHeader, RecvBody;
    if e.Receive? && e.f.Header? {
      HeaderUnbuffered(s.(frame := NO_FRAME), e.f, id);
    } else if e.Receive? && e.f.Body? {
      BodyUnbuffered(s.(frame := NO_FRAME), e.f, id);
      if e.f.key == key {
        UnbufferedFrame(s, e.f, id);
      }
    }
  }

  /**
  Under any interleaving with other streams: as long as an unbuffered request serves its stream, the bodies handed over
  to the caller are, in order, the payloads of that stream's body frames.
  */
  lemma {:induction false} UnbufferedUpload(s: State, events: seq<Event>, key: StreamKey, id: nat)
    requires Legal(s, events) && KeepsBuffer(s, events, id)
    requires Serves(s, key, id) && Unbuffered(s, id) && Serves(Run(s, events), key, id)
    ensures HandedAll(s, events, key) == Payloads(events, key) && Unbuffered(Run(s, events), id)
    decreases |events|
  {
    hide Step, Enabled, Rebuffers, Serves, PayloadOf, Handed;
    if events != [] {
      var t := Step(s, events[0]);
      StepUnbuffered(s, events[0], key, id);
      RequestsOnlyGrow(s, events[0]);
      if !Serves(t, key, id) {
        RunGone(t, events[1..], key, id);
      }
      UnbufferedUpload(t, events[1..], key, id);
    }
  }

  // ---------- aborted requests ----------

  ghost predicate AbortedWhileLive(s: State, id: nat) {
    id < |s.requests| && (IsLive(s, id) ==> RequestOf(s, id).state == Aborted)
  }

  /** Abort closes the stream for responses and marks the request. */
  lemma AbortCloses(s: State, key: StreamKey)
    requires Invariant(s) && Enabled(s, Receive(Control(key, Aborted))) && key in s.current
    ensures var t := Step(s, Receive(Control(key, Aborted)));
            RegistrationOf(t, key) == Finished && AbortedWhileLive(t, s.current[key].request)
  {
    hide TotalCapacity, Buffers.Grown;
    RegisteredKey(s, key);
  }

  lemma HeaderKeepsAborted(s: State, f: RxFrame, id: nat)
    requires f.Header? && AbortedWhileLive(s, id)
    ensures AbortedWhileLive(RecvHeader(s, f).0, id)
  {
    hide TotalCapacity, Emitted, Sent, Allowed;
  }

  lemma BodyKeepsAborted(s: State, f: RxFrame, id: nat)
    requires f.Body? && (f.key in s.current ==> IsLive(s, s.current[f.key].request)) && AbortedWhileLive(s, id)
    ensures AbortedWhileLive(RecvBody(s, f).0, id)
  {
    hide TotalCapacity, Buffers.Grown, Emitted, Sent, Allowed;
  }

  lemma StepKeepsAborted(s: State, e: Event, id: nat)
    requires Enabled(s, e) && AbortedWhileLive(s, id)
    ensures AbortedWhileLive(Step(s, e), id)
  {
    hide TotalCapacity, Emitted, Sent, Allowed, RecvHeader, RecvBody;
    if e.Receive? && e.f.Header? {
      HeaderKeepsAborted(s.(frame := NO_FRAME), e.f, id);
    } else if e.Receive? && e.f.Body? {
      BodyKeepsAborted(s.(frame := NO_FRAME), e.f, id);
    }
  }

  /** Whatever frames and calls follow, an aborted request never becomes active or paused again. */
  lemma {:induction false} AbortedRequestStays(s: State, events: seq<Event>, id: nat)
    requires Legal(s, events) && AbortedWhileLive(s, id)
    ensures AbortedWhileLive(Run(s, events), id)
    decreases |events|
  {
    hide Step, Enabled, AbortedWhileLive;
    if events != [] {
      StepKeepsAborted(s, events[0], id);
      AbortedRequestStays(Step(s, events[0]), events[1..], id);
    }
  }
}
