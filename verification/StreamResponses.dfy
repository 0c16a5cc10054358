/** The responses of one stream, seen on a wire that all streams share. */
module StreamResponses {
  import opened Bytes
  import opened ResponseRuns
  import opened Lifecycle
  import opened LifecycleSafety

  /** A stream's own frames on the wire. */
  function OnWire(wire: seq<WireFrame>, key: StreamKey): seq<WireFrame> {
    if wire == [] then []
    else OnWire(wire[..|wire| - 1], key) + if wire[|wire| - 1].key == key then [wire[|wire| - 1]] else []
  }

  function ResponseOf(e: Event, key: StreamKey): seq<Response> {
    if e.Send? && e.r.key == key then [e.r] else []
  }

  /** What the caller sends on the stream. */
  function Responses(events: seq<Event>, key: StreamKey): seq<Response> {
    if events == [] then [] else ResponseOf(events[0], key) + Responses(events[1..], key)
  }

  /** The event begins a new registration of the stream, aborts it, or has the client itself answer it. */
  ghost predicate Restarts(s: State, e: Event, key: StreamKey)
    requires Enabled(s, e)
  {
    match e
    case Receive(Header(k, _, _, _, _)) => k == key
    case Receive(Body(k, _, _)) => k == key && k in s.current && !Recv(s, e.f).1
    case Receive(Control(k, state)) => k == key && state == Aborted
    case ResendWhenBodyIsDone => Resendable(s) && ResendExceeds(s) && RequestOf(s, s.frame.request.value).key == key
    case _ => false
  }

  lemma OnWireAppend(wire: seq<WireFrame>, f: WireFrame, key: StreamKey)
    ensures OnWire(wire + [f], key) == OnWire(wire, key) + if f.key == key then [f] else []
  {
    assert (wire + [f])[..|wire|] == wire;
  }

  lemma SendOnWire(s: State, r: Response, key: StreamKey)
    requires Allowed(RegistrationOf(s, r.key), r)
    ensures OnWire(SendStep(s, r).wire, key)
         == OnWire(s.wire, key) + if r.key == key then Emitted(RegistrationOf(s, key), r) else []
    ensures r.key == key ==> RegistrationOf(SendStep(s, r), key) == Sent(RegistrationOf(s, key), r)
    ensures r.key != key ==> RegistrationOf(SendStep(s, r), key) == RegistrationOf(s, key)
  {
    hide OnWire;
    var reg := RegistrationOf(s, r.key);
    if reg.Open? {
      var f := Emitted(reg, r)[0];
      OnWireAppend(s.wire, f, key);
      assert Emitted(reg, r) == [f];
    } else {
      assert s.wire + [] == s.wire;
    }
    assert OnWire(s.wire, key) + [] == OnWire(s.wire, key);
  }

  /** A refusal of another stream. */
  lemma RefuseElsewhere(s: State, k: StreamKey, id: nat, status: nat, key: StreamKey)
    requires k != key && status != STATUS_META_BODY_PART
    ensures OnWire(Refuse(s, k, id, status).wire, key) == OnWire(s.wire, key)
    ensures RegistrationOf(Refuse(s, k, id, status), key) == RegistrationOf(s, key)
  {
    SendOnWire(Register(s, k, id), StatusOnly(k, status), key);
  }

  lemma HeaderElsewhere(s: State, f: RxFrame, key: StreamKey)
    requires f.Header? && f.key != key
    ensures OnWire(RecvHeader(s, f).0.wire, key) == OnWire(s.wire, key)
    ensures RegistrationOf(RecvHeader(s, f).0, key) == RegistrationOf(s, key)
  {
    hide OnWire, SendStep;
    var id, a := |s.requests|, Arrived(s, f);
    RefuseElsewhere(a, f.key, id, STATUS_URI_TOO_LONG, key);
    var t := Register(a, f.key, id);
    SendOnWire(t, StatusOnly(f.key, STATUS_SERVICE_UNAVAILABLE), key);
  }

  lemma BodyQuiet(s: State, f: RxFrame, key: StreamKey)
    requires f.Body? && (f.key in s.current ==> IsLive(s, s.current[f.key].request))
    requires f.key == key && f.key in s.current ==> RecvBody(s, f).1
    ensures OnWire(RecvBody(s, f).0.wire, key) == OnWire(s.wire, key)
    ensures RegistrationOf(RecvBody(s, f).0, key) == RegistrationOf(s, key)
  {
    hide OnWire, Refuse, TooLong, OverQuota;
    if f.key in s.current && f.key != key {
      var id := s.current[f.key].request;
      var t := s.(frame := InFrame(Some(id), false, f.isFinal, []));
      RefuseElsewhere(t, f.key, id, STATUS_BAD_REQUEST, key);
      RefuseElsewhere(t, f.key, id, STATUS_SERVICE_UNAVAILABLE, key);
    }
  }

  lemma StepOnWire(s: State, e: Event, key: StreamKey)
    requires Enabled(s, e) && !Restarts(s, e, key)
    ensures e.Send? && e.r.key == key ==>
              && RegistrationOf(Step(s, e), key) == Sent(RegistrationOf(s, key), e.r)
              && OnWire(Step(s, e).wire, key) == OnWire(s.wire, key) + Emitted(RegistrationOf(s, key), e.r)
    ensures !(e.Send? && e.r.key == key) ==>
              && RegistrationOf(Step(s, e), key) == RegistrationOf(s, key)
              && OnWire(Step(s, e).wire, key) == OnWire(s.wire, key)
  {
    hide OnWire, RecvHeader, RecvBody, SendStep;
    match e
    case Receive(f) =>
      match f {
        case Header(_, _, _, _, _) => HeaderElsewhere(s.(frame := NO_FRAME), f, key);
        case Body(_, _, _) => BodyQuiet(s.(frame := NO_FRAME), f, key);
        case Control(_, _) =>
      }
    case ResendWhenBodyIsDone =>
      SendIfRefused(s, key);
    case Send(r) => SendOnWire(s, r, key);
    case ResetFrame =>
    case DestroyRequest(_) =>
  }

  lemma SendIfRefused(s: State, key: StreamKey)
    requires CanResend(s)
    requires Resendable(s) && ResendExceeds(s) ==> RequestOf(s, s.frame.request.value).key != key
    ensures RegistrationOf(Resend(s), key) == RegistrationOf(s, key)
    ensures OnWire(Resend(s).wire, key) == OnWire(s.wire, key)
  {
    hide OnWire, SendStep;
    if Resendable(s) && ResendExceeds(s) {
      SendOnWire(s, StatusOnly(RequestOf(s, s.frame.request.value).key, STATUS_SERVICE_UNAVAILABLE), key);
    }
  }

  ghost predicate Undisturbed(s: State, events: seq<Event>, key: StreamKey)
    requires Legal(s, events)
    decreases |events|
  {
    events == [] || (!Restarts(s, events[0], key) && Undisturbed(Step(s, events[0]), events[1..], key))
  }

  lemma NoResponses(reg: Registration)
    ensures AllAllowed(reg, []) && SentAll(reg, []) == reg && EmittedAll(reg, []) == []
  {
  }

  lemma SendMatters(s: State, e: Event, key: StreamKey)
    requires Enabled(s, e) && e.Send? && e.r.key == key
    ensures Allowed(RegistrationOf(s, key), e.r)
  {
  }

  lemma OneResponse(reg: Registration, r: Response, rest: seq<Response>, before: seq<WireFrame>)
    requires Allowed(reg, r) && AllAllowed(Sent(reg, r), rest)
    ensures AllAllowed(reg, [r] + rest) && SentAll(reg, [r] + rest) == SentAll(Sent(reg, r), rest)
    ensures before + EmittedAll(reg, [r] + rest) == before + Emitted(reg, r) + EmittedAll(Sent(reg, r), rest)
  {
    hide Allowed, Sent, Emitted;
    assert ([r] + rest)[1..] == rest;
    var a, b := Emitted(reg, r), EmittedAll(Sent(reg, r), rest);
    assert before + (a + b) == before + a + b;
  }

  /** Whatever happens on other streams, a stream's frames are those of its own responses alone. */
  lemma {:induction false} StreamOnWire(s: State, events: seq<Event>, key: StreamKey)
    requires Legal(s, events) && Undisturbed(s, events, key)
    ensures var rs, reg := Responses(events, key), RegistrationOf(s, key);
            && AllAllowed(reg, rs)
            && RegistrationOf(Run(s, events), key) == SentAll(reg, rs)
            && OnWire(Run(s, events).wire, key) == OnWire(s.wire, key) + EmittedAll(reg, rs)
    decreases |events|
  {
    hide OnWire, Step, Restarts, RegistrationOf, Sent, Emitted, Allowed, AllAllowed, SentAll, EmittedAll;
    var reg := RegistrationOf(s, key);
    NoResponses(reg);
    if events == [] {
      assert OnWire(s.wire, key) + [] == OnWire(s.wire, key);
    } else {
      var e, t := events[0], Step(s, events[0]);
      var rest := Responses(events[1..], key);
      StepOnWire(s, e, key);
      StreamOnWire(t, events[1..], key);
      if e.Send? && e.r.key == key {
        assert Responses(events, key) == [e.r] + rest;
        SendMatters(s, e, key);
        OneResponse(reg, e.r, rest, OnWire(s.wire, key));
      } else {
        assert Responses(events, key) == rest;
      }
    }
  }

  /** What a stream's frames look like after n earlier ones, when the responses rs are sent from its registration on. */
  ghost predicate SafeRun(all: seq<WireFrame>, n: nat, rs: seq<Response>, finished: bool)
    requires rs != []
  {
    && n < |all|
    && (forall i :: n <= i < |all| ==> (all[i].IsHeader() <==> i == n))
    && (forall i :: n <= i < |all| - 1 ==> !all[i].isFinal)
    && (all[|all| - 1].isFinal <==> finished)
    && IsRun(rs, all[n..], Declared(rs[0]))
  }

  /** Response safety on the shared wire, from the moment a stream is registered. */
  lemma StreamResponseSafety(s: State, events: seq<Event>, key: StreamKey)
    requires Legal(s, events) && Undisturbed(s, events, key)
    requires RegistrationOf(s, key) == Registered() && Responses(events, key) != []
    ensures var rs, before := Responses(events, key), OnWire(s.wire, key);
            var all := OnWire(Run(s, events).wire, key);
            && before <= all
            && SafeRun(all, |before|, rs, RegistrationOf(Run(s, events), key).Finished?)
  {
    hide OnWire, Legal, Undisturbed, Run, IsRun, EmittedAll;
    StreamOnWire(s, events, key);
    var rs := Responses(events, key);
    ResponseRunSafety(rs);
    var out := EmittedAll(Registered(), rs);
    var all, n := OnWire(Run(s, events).wire, key), |OnWire(s.wire, key)|;
    assert all[n..] == out;
    OnlyLastIsFinal(rs, out, Declared(rs[0]));
    forall i | n <= i < |all|
      ensures all[i] == out[i - n]
    {
    }
  }

  lemma OnlyLastIsFinal(rs: seq<Response>, out: seq<WireFrame>, length: nat)
    requires IsRun(rs, out, length)
    ensures forall i :: 0 <= i < |out| - 1 ==> !out[i].isFinal
  {
    forall i | 0 <= i < |out| - 1
      ensures !out[i].isFinal
    {
      assert Carries(rs, out, i, length);
    }
  }

  // ---------- a refused body frame answers again ----------

  function CountHeaders(wire: seq<WireFrame>): nat {
    if wire == [] then 0 else CountHeaders(wire[..|wire| - 1]) + if wire[|wire| - 1].IsHeader() then 1 else 0
  }

  lemma {:induction false} OnlyFirstIsHeader(out: seq<WireFrame>)
    requires out != [] && forall i :: 0 <= i < |out| ==> (out[i].IsHeader() <==> i == 0)
    ensures CountHeaders(out) == 1
    decreases |out|
  {
    var init := out[..|out| - 1];
    if init == [] {
      assert CountHeaders(init) == 0;
    } else {
      OnlyFirstIsHeader(init);
    }
  }

  lemma CountHeadersAppend(out: seq<WireFrame>, f: WireFrame)
    ensures CountHeaders(out + [f]) == CountHeaders(out) + if f.IsHeader() then 1 else 0
  {
    assert (out + [f])[..|out|] == out;
  }

  lemma RefusedOnWire(s: State, key: StreamKey, id: nat, status: nat)
    requires status != STATUS_META_BODY_PART
    ensures var t := Refuse(s, key, id, status);
            && RegistrationOf(t, key) == Finished
            && OnWire(t.wire, key) == OnWire(s.wire, key) + [WireFrame(key, status, true, None, [])]
  {
    hide OnWire;
    SendOnWire(Register(s, key, id), StatusOnly(key, status), key);
  }

  /** A refusal puts one final Header frame on the wire and closes the stream. */
  lemma RefusalOnWire(s: State, f: RxFrame)
    requires f.Body? && f.key in s.current && IsLive(s, s.current[f.key].request) && !RecvBody(s, f).1
    ensures var t := RecvBody(s, f).0;
            && RegistrationOf(t, f.key) == Finished
            && var r := RequestOf(s, s.current[f.key].request);
               var status := if |r.body| > r.contentLength then STATUS_BAD_REQUEST else STATUS_SERVICE_UNAVAILABLE;
               OnWire(t.wire, f.key) == OnWire(s.wire, f.key) + [WireFrame(f.key, status, true, None, [])]
  {
    hide OnWire, OverQuota, Refuse;
    var id := s.current[f.key].request;
    var t := s.(frame := InFrame(Some(id), false, f.isFinal, []));
    RefusedOnWire(t, f.key, id, STATUS_BAD_REQUEST);
    RefusedOnWire(t, f.key, id, STATUS_SERVICE_UNAVAILABLE);
  }

  /**
  A header frame is refused exactly when its URI has a part too long, or when it is to be buffered automatically and has
  no length, which is a panic, or no room is left. The client is answered, and the caller is left without a frame.
  */
  lemma HeaderRefused(s: State, f: RxFrame)
    requires f.Header? && !s.panicked
    ensures var (t, ok) := RecvHeader(s, f);
            var room := InitialCapacity(s.limits, f.contentLength, |BodyOf(f.body)|) + s.total
                        <= s.limits.maxWaitingBufferTotal;
            && (ok <==> f.uriFits && (AutoBuffered(s, f) ==> f.contentLength != 0 && room))
            && (!ok && !t.panicked ==>
                  && RegistrationOf(t, f.key) == Finished && (f.uriFits ==> t.frame == NO_FRAME)
                  && var status := if f.uriFits then STATUS_SERVICE_UNAVAILABLE else STATUS_URI_TOO_LONG;
                     OnWire(t.wire, f.key) == OnWire(s.wire, f.key) + [WireFrame(f.key, status, true, None, [])])
  {
    hide OnWire, SendStep, InitialCapacity;
    var a, id := Arrived(s, f), |s.requests|;
    RefusedOnWire(a, f.key, id, STATUS_URI_TOO_LONG);
    RefusedOnWire(a, f.key, id, STATUS_SERVICE_UNAVAILABLE);
    SendKeepsPanic(Register(a, f.key, id), StatusOnly(f.key, STATUS_SERVICE_UNAVAILABLE));
  }

  lemma SendKeepsPanic(s: State, r: Response)
    requires Allowed(RegistrationOf(s, r.key), r)
    ensures SendStep(s, r).panicked == s.panicked
  {
    hide Emitted, Sent, Allowed;
  }

  /** The event is a body frame of this stream that is refused. */
  ghost predicate IsRefused(s: State, e: Event, key: StreamKey)
    requires Enabled(s, e)
  {
    e.Receive? && e.f.Body? && e.f.key == key && key in s.current && !Recv(s, e.f).1
  }

  /**
  From a registration over an undisturbed run to a refused body frame: the client sees a second Header frame if and
  only if the stream's response had begun, and otherwise exactly one.
  */
  lemma RefusalAnswersAgain(s: State, events: seq<Event>, e: Event, key: StreamKey)
    requires Legal(s, events) && Undisturbed(s, events, key) && RegistrationOf(s, key) == Registered()
    requires Enabled(Run(s, events), e) && IsRefused(Run(s, events), e, key)
    ensures var all, n := OnWire(Step(Run(s, events), e).wire, key), |OnWire(s.wire, key)|;
            n <= |all| && CountHeaders(all[n..]) == if Responses(events, key) == [] then 1 else 2
  {
    hide OnWire, Legal, Undisturbed, Run, IsRun, EmittedAll, CountHeaders, RecvBody;
    StreamOnWire(s, events, key);
    var rs, before, t := Responses(events, key), OnWire(s.wire, key), Run(s, events);
    var out := EmittedAll(Registered(), rs);
    RefusalOnWire(t.(frame := NO_FRAME), e.f);
    var all := OnWire(Step(t, e).wire, key);
    var f := all[|all| - 1];
    assert all == before + out + [f];
    assert all[|before|..] == out + [f];
    CountHeadersAppend(out, f);
    if rs == [] {
      NothingEmitted();
    } else {
      ResponseRunSafety(rs);
      OnlyFirstIsHeader(out);
    }
  }

  lemma NothingEmitted()
    ensures EmittedAll(Registered(), []) == [] && CountHeaders([]) == 0
  {
  }

  // ---------- a run in which it happens ----------

  function Chunked(key: StreamKey): Response {
    Response(key, 200, Some(MINUS_ONE), [], false)
  }

  /** The buffered request, its response begun, and six of its five bytes received. */
  function Overrun(limits: Limits, key: StreamKey): State {
    State(limits, [Live(Request(key, 5, Active, true, [0, 0, 0, 0, 0, 0], LEAST_BUFFER))],
          map[key := RequestState(0, MINUS_ONE, true)], LEAST_BUFFER, InFrame(Some(0), false, false, []),
          [WireFrame(key, 200, false, Some(MINUS_ONE), [])], false)
  }

  lemma ReachOverrun(limits: Limits, key: StreamKey)
    ensures var s := Buffered(limits, key);
            var events := [Send(Chunked(key))] + [Receive(Body(key, Some([0, 0, 0, 0, 0, 0]), false))];
            && Legal(s, events) && Run(s, events) == Overrun(limits, key)
  {
    hide Run, Legal;
    var s := Buffered(limits, key);
    var s1 := s.(current := map[key := RequestState(0, MINUS_ONE, true)],
                 wire := [WireFrame(key, 200, false, Some(MINUS_ONE), [])]);
    assert SendStep(s, Chunked(key)) == s1;
    var more: bytes, f := [0, 0, 0, 0, 0, 0], Body(key, Some([0, 0, 0, 0, 0, 0]), false);
    assert RecvBody(s1.(frame := NO_FRAME), f).0 == Overrun(limits, key) by {
      var r := Request(key, 5, Active, true, [], LEAST_BUFFER);
      assert r.body + more == more;
      assert Append(s1.(frame := NO_FRAME), 0, more).requests == [Live(r.(body := more))];
    }
    RunOne(s1, Receive(f));
    RunFirst(s, Send(Chunked(key)), [Receive(f)]);
  }

  lemma OverrunRefused(limits: Limits, key: StreamKey)
    ensures var s := Overrun(limits, key); var e := Receive(Body(key, Some([0]), false));
            && Enabled(s, e) && IsRefused(s, e, key)
            && Step(s, e).wire == s.wire + [WireFrame(key, STATUS_BAD_REQUEST, true, None, [])]
  {
  }

  /** One stream, two Header frames: a chunked response begins, and then the upload overruns its Content-Length. */
  lemma TwoHeaders(limits: Limits, key: StreamKey)
    requires limits.maxAutoBufferSize >= 5 && limits.maxWaitingBufferTotal >= LEAST_BUFFER
    ensures var events := [Receive(Header(key, 5, None, false, true))] + ([Send(Chunked(key))] +
                            ([Receive(Body(key, Some([0, 0, 0, 0, 0, 0]), false))] +
                              [Receive(Body(key, Some([0]), false))]));
            && Legal(Connected(limits), events)
            && Run(Connected(limits), events).wire
               == [WireFrame(key, 200, false, Some(MINUS_ONE), []), WireFrame(key, STATUS_BAD_REQUEST, true, None, [])]
  {
    hide Run, Legal, Step, Enabled;
    var s0, s1, s2 := Connected(limits), Buffered(limits, key), Overrun(limits, key);
    var a, b := Receive(Header(key, 5, None, false, true)), Send(Chunked(key));
    var c, d := Receive(Body(key, Some([0, 0, 0, 0, 0, 0]), false)), Receive(Body(key, Some([0]), false));
    BufferedAtHeader(limits, key);
    ReachOverrun(limits, key);
    OverrunRefused(limits, key);
    RunOne(s2, d);
    RunThenOne(s1, b, c, d);
    RunFirst(s0, a, [b] + ([c] + [d]));
  }

  lemma RunThenOne(s: State, b: Event, c: Event, d: Event)
    requires Legal(s, [b] + [c]) && Enabled(Run(s, [b] + [c]), d)
    ensures Legal(s, [b] + ([c] + [d])) && Run(s, [b] + ([c] + [d])) == Step(Run(s, [b] + [c]), d)
  {
    hide Step, Enabled;
    assert ([b] + [c])[1..] == [c] && [c][1..] == [];
    var s1 := Step(s, b);
    RunOne(s1, c);
    var s2 := Step(s1, c);
    RunOne(s2, d);
    RunFirst(s1, c, [d]);
    RunFirst(s, b, [c] + [d]);
  }
}
