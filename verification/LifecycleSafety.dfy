/** What every run of the client's request handling keeps: its accounting, its quota, its registrations. */
module LifecycleSafety {
  import opened Bytes
  import opened ResponseRuns
  import opened Lifecycle
  import Buffers

  // ---------- the shared total ----------

  function TotalCapacity(slots: seq<Slot>): nat {
    if slots == [] then 0 else CapacityOf(slots[0]) + TotalCapacity(slots[1..])
  }

  lemma {:induction false} TotalAppend(slots: seq<Slot>, slot: Slot)
    ensures TotalCapacity(slots + [slot]) == TotalCapacity(slots) + CapacityOf(slot)
  {
    if slots == [] {
      assert slots + [slot] == [slot] && [slot][1..] == [];
    } else {
      assert (slots + [slot])[1..] == slots[1..] + [slot];
      TotalAppend(slots[1..], slot);
    }
  }

  lemma {:induction false} TotalUpdate(slots: seq<Slot>, i: nat, slot: Slot)
    requires i < |slots|
    ensures TotalCapacity(slots[i := slot]) == TotalCapacity(slots) - CapacityOf(slots[i]) + CapacityOf(slot)
  {
    if i > 0 {
      assert slots[i := slot][1..] == slots[1..][i - 1 := slot];
      TotalUpdate(slots[1..], i - 1, slot);
    } else {
      assert slots[i := slot][1..] == slots[1..];
    }
  }

  lemma {:induction false} TotalAtLeast(slots: seq<Slot>, i: nat)
    requires i < |slots|
    ensures TotalCapacity(slots) >= CapacityOf(slots[i])
  {
    if i > 0 {
      TotalAtLeast(slots[1..], i - 1);
    }
  }

  lemma {:induction false} TotalOfDestroyed(slots: seq<Slot>)
    requires forall i :: 0 <= i < |slots| ==> slots[i] == Destroyed
    ensures TotalCapacity(slots) == 0
  {
    if slots != [] {
      TotalOfDestroyed(slots[1..]);
    }
  }

  /** Growing by doubling wastes at most a factor of two; 64 is the first allocation of an empty buffer. */
  predicate CapacityBounded(limits: Limits, r: Request) {
    || r.capacity <= Max(Min(limits.initialBufferSize, r.contentLength), LEAST_BUFFER)
    || r.capacity <= 2 * |r.body|
    || r.capacity == 64
  }

  predicate BufferGood(limits: Limits, r: Request) {
    if r.isBuffered then r.contentLength != MINUS_ONE && |r.body| <= r.capacity && CapacityBounded(limits, r)
    else r.body == [] && r.capacity == 0
  }

  ghost predicate RegistrationGood(s: State, key: StreamKey)
    requires key in s.current
  {
    IsLive(s, s.current[key].request) && RequestOf(s, s.current[key].request).key == key
  }

  ghost predicate Registrations(s: State) {
    forall key :: key in s.current ==> RegistrationGood(s, key)
  }

  ghost predicate BuffersGood(s: State) {
    forall i :: 0 <= i < |s.requests| && s.requests[i].Live? ==> BufferGood(s.limits, s.requests[i].request)
  }

  ghost predicate Invariant(s: State) {
    && TotalCapacity(s.requests) <= s.total
    && Registrations(s) && BuffersGood(s)
    && (s.frame.request.Some? ==> IsLive(s, s.frame.request.value))
  }

  /** Bytes counted for buffers that are no longer there. */
  function Leak(s: State): int {
    s.total - TotalCapacity(s.requests)
  }

  // ---------- the pieces of a step ----------

  lemma SetRequestKeeps(s: State, id: nat, r: Request, total: nat)
    requires Invariant(s) && IsLive(s, id) && r.key == RequestOf(s, id).key && BufferGood(s.limits, r)
    requires total >= s.total - CapacityOf(s.requests[id]) + CapacityOf(Live(r))
    ensures var t := SetRequest(s, id, r).(total := total);
            Invariant(t) && Leak(t) - Leak(s) == total - (s.total - CapacityOf(s.requests[id]) + CapacityOf(Live(r)))
  {
    hide TotalCapacity, CapacityOf, BufferGood;
    TotalUpdate(s.requests, id, Live(r));
    var t := SetRequest(s, id, r).(total := total);
    forall key | key in t.current
      ensures RegistrationGood(t, key)
    {
      assert RegistrationGood(s, key);
    }
  }

  lemma SendKeeps(s: State, r: Response)
    requires Invariant(s) && Allowed(RegistrationOf(s, r.key), r)
    ensures Invariant(SendStep(s, r)) && Leak(SendStep(s, r)) == Leak(s)
    ensures SendStep(s, r).total == s.total && SendStep(s, r).requests == s.requests && SendStep(s, r).frame == s.frame
    ensures SendStep(s, r).limits == s.limits && SendStep(s, r).panicked == s.panicked
  {
    hide Allowed, Emitted, Sent, TotalCapacity, BufferGood;
    var t := SendStep(s, r);
    forall key | key in t.current
      ensures RegistrationGood(t, key)
    {
      assert RegistrationGood(s, key);
    }
  }

  lemma RegisterKeeps(s: State, key: StreamKey, id: nat)
    requires Invariant(s) && IsLive(s, id) && RequestOf(s, id).key == key
    ensures Invariant(Register(s, key, id)) && Leak(Register(s, key, id)) == Leak(s)
  {
    hide TotalCapacity, BufferGood;
    var t := Register(s, key, id);
    forall k | k in t.current
      ensures RegistrationGood(t, k)
    {
      assert k != key ==> RegistrationGood(s, k);
    }
  }

  lemma RefuseKeeps(s: State, key: StreamKey, id: nat, status: nat)
    requires Invariant(s) && IsLive(s, id) && RequestOf(s, id).key == key && status != STATUS_META_BODY_PART
    ensures Invariant(Refuse(s, key, id, status)) && Leak(Refuse(s, key, id, status)) == Leak(s)
    ensures Refuse(s, key, id, status).total == s.total && Refuse(s, key, id, status).panicked == s.panicked
    ensures Refuse(s, key, id, status).limits == s.limits && Refuse(s, key, id, status).requests == s.requests
    ensures Refuse(s, key, id, status).frame == s.frame
  {
    hide Invariant;
    RegisterKeeps(s, key, id);
    SendKeeps(Register(s, key, id), StatusOnly(key, status));
  }

  lemma ArrivedKeeps(s: State, f: RxFrame)
    requires Invariant(s) && f.Header?
    ensures Invariant(Arrived(s, f)) && Leak(Arrived(s, f)) == Leak(s)
  {
    hide TotalCapacity;
    var t := Arrived(s, f);
    TotalAppend(s.requests, t.requests[|s.requests|]);
    forall key | key in t.current
      ensures RegistrationGood(t, key)
    {
      assert RegistrationGood(s, key);
    }
  }

  lemma FrameKeeps(s: State, frame: InFrame)
    requires Invariant(s) && (frame.request.Some? ==> IsLive(s, frame.request.value))
    ensures Invariant(s.(frame := frame)) && Leak(s.(frame := frame)) == Leak(s)
  {
    hide TotalCapacity, BufferGood;
    var t := s.(frame := frame);
    forall key | key in t.current
      ensures RegistrationGood(t, key)
    {
      assert RegistrationGood(s, key);
    }
  }

  /** Giving a request a body and an allocation; what it had before stays counted. */
  lemma BufferKeeps(s: State, id: nat, body: bytes, capacity: nat)
    requires Invariant(s) && IsLive(s, id) && RequestOf(s, id).contentLength != MINUS_ONE
    requires |body| <= capacity
    requires CapacityBounded(s.limits, RequestOf(s, id).(body := body, capacity := capacity))
    ensures var t := SetBuffer(s, id, body, capacity, capacity);
            Invariant(t) && Leak(t) == Leak(s) + CapacityOf(s.requests[id])
  {
    hide Invariant, Leak;
    var r := RequestOf(s, id).(isBuffered := true, body := body, capacity := capacity);
    SetRequestKeeps(s, id, r, s.total + capacity);
  }

  /** What ResendWhenBodyIsDone adds to the total for good: the allocation of a buffer that it replaces. */
  ghost function ResendLeak(s: State): nat
    requires CanResend(s)
  {
    if GetsBuffer(s) then CapacityOf(s.requests[s.frame.request.value]) else 0
  }

  lemma ResendKeeps(s: State)
    requires Invariant(s) && CanResend(s)
    ensures Invariant(Resend(s)) && Leak(Resend(s)) == Leak(s) + ResendLeak(s)
  {
    hide Invariant, Leak, CapacityOf, SendStep;
    var id := s.frame.request.value;
    var r := RequestOf(s, id);
    if !Resendable(s) {
      PanicKeeps(s);
    } else if ResendExceeds(s) {
      SendKeeps(s, StatusOnly(r.key, STATUS_SERVICE_UNAVAILABLE));
    } else {
      var capacity := InitialCapacity(s.limits, r.contentLength, |s.frame.body|);
      BufferKeeps(s, id, s.frame.body, capacity);
      FrameStaysLive(s, id, s.frame.body, capacity);
      FrameKeeps(SetBuffer(s, id, s.frame.body, capacity, capacity), s.frame.(body := []));
    }
  }

  lemma FrameStaysLive(s: State, id: nat, body: bytes, capacity: nat)
    requires s.frame.request == Some(id) && IsLive(s, id)
    ensures IsLive(SetBuffer(s, id, body, capacity, capacity), id)
  {
  }

  lemma AppendKeeps(s: State, id: nat, more: bytes)
    requires Invariant(s) && IsLive(s, id) && RequestOf(s, id).isBuffered
    ensures Invariant(Append(s, id, more)) && Leak(Append(s, id, more)) == Leak(s)
  {
    hide TotalCapacity;
    var r := RequestOf(s, id);
    assert BufferGood(s.limits, r);
    var capacity := Buffers.Grown(r.capacity, |r.body| + |more|);
    Buffers.GrownBound(r.capacity, |r.body| + |more|);
    TotalAtLeast(s.requests, id);
    var grown := r.(isBuffered := true, body := r.body + more, capacity := capacity);
    assert BufferGood(s.limits, grown) by {
      hide Invariant, Buffers.Grown;
    }
    SetRequestKeeps(s, id, grown, s.total - r.capacity + capacity);
  }

  // ---------- steps ----------

  lemma HeaderKeeps(s: State, f: RxFrame)
    requires Invariant(s) && f.Header?
    ensures Invariant(RecvHeader(s, f).0) && Leak(RecvHeader(s, f).0) == Leak(s)
  {
    hide Invariant, Leak, Resend, Refuse, TotalCapacity;
    var id := |s.requests|;
    var a := Arrived(s, f);
    ArrivedKeeps(s, f);
    if !f.uriFits {
      RefuseKeeps(a, f.key, id, STATUS_URI_TOO_LONG);
    } else {
      var t := Register(a, f.key, id);
      RegisterKeeps(a, f.key, id);
      if f.isFinal && f.contentLength != MINUS_ONE && f.contentLength != 0 {
        BufferKeeps(t, id, t.frame.body, |t.frame.body|);
      } else if AutoBuffered(s, f) {
        ResendKeeps(t);
        FrameKeeps(Resend(t), NO_FRAME);
      }
    }
  }

  lemma PanicKeeps(s: State)
    requires Invariant(s)
    ensures Invariant(s.(panicked := true)) && Leak(s.(panicked := true)) == Leak(s)
  {
    hide TotalCapacity, BufferGood;
    forall key | key in s.current
      ensures RegistrationGood(s.(panicked := true), key)
    {
      assert RegistrationGood(s, key);
    }
  }

  lemma BodyKeeps(s: State, f: RxFrame)
    requires Invariant(s) && f.Body?
    requires f.key in s.current ==> IsLive(s, s.current[f.key].request)
    ensures Invariant(RecvBody(s, f).0) && Leak(RecvBody(s, f).0) == Leak(s)
  {
    hide Invariant, Leak, Append, Refuse;
    if f.key in s.current {
      var id := s.current[f.key].request;
      RegisteredKey(s, f.key);
      var t := s.(frame := InFrame(Some(id), false, f.isFinal, []));
      FrameKeeps(s, t.frame);
      if f.body.Some? {
        FrameKeeps(t, t.frame.(body := f.body.value));
        RefuseKeeps(t, f.key, id, STATUS_BAD_REQUEST);
        RefuseKeeps(t, f.key, id, STATUS_SERVICE_UNAVAILABLE);
        if RequestOf(s, id).isBuffered {
          AppendKeeps(t, id, f.body.value);
        }
      }
    }
  }

  lemma RegisteredKey(s: State, key: StreamKey)
    requires Invariant(s) && key in s.current
    ensures IsLive(s, s.current[key].request) && RequestOf(s, s.current[key].request).key == key
  {
    assert RegistrationGood(s, key);
  }

  lemma ControlKeeps(s: State, f: RxFrame)
    requires Invariant(s) && f.Control?
    requires f.key in s.current ==> IsLive(s, s.current[f.key].request)
    ensures Invariant(RecvControl(s, f).0) && Leak(RecvControl(s, f).0) == Leak(s)
  {
    hide TotalCapacity, BufferGood, CapacityOf;
    if f.key in s.current {
      var id := s.current[f.key].request;
      var r := RequestOf(s, id);
      var q := r.(state := NewState(r.state, f.state));
      StateOnly(s, id, q);
      SetRequestKeeps(s, id, q, s.total);
      var u := SetRequest(s, id, q);
      assert u.(total := s.total) == u;
      FrameKeeps(u, InFrame(Some(id), false, false, []));
      var t := u.(frame := InFrame(Some(id), false, false, []));
      UnregisterKeeps(t, f.key);
    }
  }

  lemma StateOnly(s: State, id: nat, q: Request)
    requires Invariant(s) && IsLive(s, id) && q == RequestOf(s, id).(state := q.state)
    ensures BufferGood(s.limits, q) && CapacityOf(Live(q)) == CapacityOf(s.requests[id])
  {
    hide TotalCapacity;
    assert BufferGood(s.limits, RequestOf(s, id));
  }

  lemma UnregisterKeeps(s: State, key: StreamKey)
    requires Invariant(s)
    ensures Invariant(Unregister(s, key)) && Leak(Unregister(s, key)) == Leak(s)
  {
    hide TotalCapacity, BufferGood;
    var t := Unregister(s, key);
    forall k | k in t.current
      ensures RegistrationGood(t, k)
    {
      assert RegistrationGood(s, k);
    }
  }

  /** The destructor's underflow panic is unreachable. */
  lemma DestroyKeeps(s: State, id: nat)
    requires Invariant(s) && IsLive(s, id) && Unreferenced(s, id)
    ensures Invariant(Destroy(s, id)) && Leak(Destroy(s, id)) == Leak(s) && Destroy(s, id).panicked == s.panicked
  {
    hide TotalCapacity, BufferGood, CapacityOf;
    TotalAtLeast(s.requests, id);
    TotalUpdate(s.requests, id, Destroyed);
    var t := Destroy(s, id);
    assert CapacityOf(Destroyed) == 0 by {
      DestroyedHoldsNothing();
    }
    forall key | key in t.current
      ensures RegistrationGood(t, key)
    {
      assert RegistrationGood(s, key);
    }
  }

  lemma DestroyedHoldsNothing()
    ensures CapacityOf(Destroyed) == 0
  {
  }

  ghost function LeakOf(s: State, e: Event): nat
    requires Enabled(s, e)
  {
    if e.ResendWhenBodyIsDone? then ResendLeak(s) else 0
  }

  lemma StepKeeps(s: State, e: Event)
    requires Invariant(s) && Enabled(s, e)
    ensures Invariant(Step(s, e)) && Leak(Step(s, e)) == Leak(s) + LeakOf(s, e)
  {
    hide Invariant, Leak, RecvHeader, RecvBody, RecvControl, SendStep, Resend, ResendLeak, Destroy;
    match e
    case Receive(f) =>
      FrameKeeps(s, NO_FRAME);
      match f {
        case Header(_, _, _, _, _) => HeaderKeeps(s.(frame := NO_FRAME), f);
        case Body(_, _, _) => BodyKeeps(s.(frame := NO_FRAME), f);
        case Control(_, _) => ControlKeeps(s.(frame := NO_FRAME), f);
      }
    case ResendWhenBodyIsDone => ResendKeeps(s);
    case Send(r) => SendKeeps(s, r);
    case ResetFrame => FrameKeeps(s, NO_FRAME);
    case DestroyRequest(id) => DestroyKeeps(s, id);
  }

  ghost function RunLeak(s: State, events: seq<Event>): nat
    requires Legal(s, events)
    decreases |events|
  {
    if events == [] then 0 else LeakOf(s, events[0]) + RunLeak(Step(s, events[0]), events[1..])
  }

  lemma {:induction false} RunKeeps(s: State, events: seq<Event>)
    requires Invariant(s) && Legal(s, events)
    ensures Invariant(Run(s, events)) && Leak(Run(s, events)) == Leak(s) + RunLeak(s, events)
    decreases |events|
  {
    hide Invariant, Leak, LeakOf, Step, Enabled;
    if events != [] {
      StepKeeps(s, events[0]);
      RunKeeps(Step(s, events[0]), events[1..]);
    }
  }

  /** The call replaces an allocation. */
  ghost predicate Replaces(s: State, e: Event)
    requires Enabled(s, e)
  {
    && e.ResendWhenBodyIsDone? && GetsBuffer(s)
    && var r := RequestOf(s, s.frame.request.value);
       r.isBuffered && r.capacity > 0
  }

  ghost predicate NeverReplaces(s: State, events: seq<Event>)
    requires Legal(s, events)
    decreases |events|
  {
    events == [] || (!Replaces(s, events[0]) && NeverReplaces(Step(s, events[0]), events[1..]))
  }

  lemma {:induction false} NoLeakIff(s: State, events: seq<Event>)
    requires Legal(s, events)
    ensures RunLeak(s, events) == 0 <==> NeverReplaces(s, events)
    decreases |events|
  {
    hide Step, Enabled, LeakOf, Replaces;
    if events != [] {
      LeaksIff(s, events[0]);
      NoLeakIff(Step(s, events[0]), events[1..]);
    }
  }

  lemma LeaksIff(s: State, e: Event)
    requires Enabled(s, e)
    ensures LeakOf(s, e) == 0 <==> !Replaces(s, e)
  {
  }

  lemma ConnectedGood(limits: Limits)
    ensures Invariant(Connected(limits)) && Leak(Connected(limits)) == 0
  {
  }

  /**
  In every reachable state the total is the sum of the live buffers and, for good, of the allocations that
  ResendWhenBodyIsDone has replaced. So the total is right, and zero once all requests are gone, exactly if that was
  never called on a request that already had an allocation.
  */
  lemma AccountingConserved(limits: Limits, events: seq<Event>)
    requires Legal(Connected(limits), events)
    ensures var s := Run(Connected(limits), events); var leak := RunLeak(Connected(limits), events);
            && s.total == TotalCapacity(s.requests) + leak
            && (s.total == TotalCapacity(s.requests) <==> NeverReplaces(Connected(limits), events))
            && ((forall i :: 0 <= i < |s.requests| ==> s.requests[i] == Destroyed) ==> s.total == leak)
            && BuffersGood(s)
  {
    hide Leak, NeverReplaces;
    ConnectedGood(limits);
    RunKeeps(Connected(limits), events);
    NoLeakIff(Connected(limits), events);
    var s := Run(Connected(limits), events);
    LeakIs(s);
    LeakIs(Connected(limits));
    if forall i :: 0 <= i < |s.requests| ==> s.requests[i] == Destroyed {
      TotalOfDestroyed(s.requests);
    }
  }

  lemma LeakIs(s: State)
    ensures Leak(s) == s.total - TotalCapacity(s.requests)
  {
  }

  // ---------- a run that replaces an allocation ----------

  lemma RunFirst(s: State, e: Event, rest: seq<Event>)
    requires Enabled(s, e) && Legal(Step(s, e), rest)
    ensures Legal(s, [e] + rest) && Run(s, [e] + rest) == Run(Step(s, e), rest)
  {
    assert ([e] + rest)[1..] == rest;
  }

  lemma RunOne(s: State, e: Event)
    requires Enabled(s, e)
    ensures Legal(s, [e]) && Run(s, [e]) == Step(s, e)
  {
    assert [e][1..] == [];
  }

  /** A request of five bytes, buffered automatically at its header frame. */
  function Buffered(limits: Limits, key: StreamKey): State {
    State(limits, [Live(Request(key, 5, Active, true, [], LEAST_BUFFER))],
          map[key := RequestState(0, MINUS_ONE, false)], LEAST_BUFFER, InFrame(Some(0), true, false, []), [], false)
  }

  lemma BufferedAtHeader(limits: Limits, key: StreamKey)
    requires limits.maxAutoBufferSize >= 5 && limits.maxWaitingBufferTotal >= LEAST_BUFFER
    ensures Enabled(Connected(limits), Receive(Header(key, 5, None, false, true)))
    ensures Step(Connected(limits), Receive(Header(key, 5, None, false, true))) == Buffered(limits, key)
  {
    var f := Header(key, 5, None, false, true);
    var a := Arrived(Connected(limits), f);
    assert a.requests == [Live(Request(key, 5, Active, false, [], 0))];
    var t := Register(a, key, 0);
    assert t.current == map[key := RequestState(0, MINUS_ONE, false)];
    assert GetsBuffer(t);
  }

  /** ResendWhenBodyIsDone called again on the same header frame. */
  lemma BufferedAgain(limits: Limits, key: StreamKey)
    requires limits.maxWaitingBufferTotal >= 2 * LEAST_BUFFER
    ensures var s := Buffered(limits, key);
            && Enabled(s, ResendWhenBodyIsDone) && Replaces(s, ResendWhenBodyIsDone)
            && Step(s, ResendWhenBodyIsDone) == s.(total := 2 * LEAST_BUFFER)
  {
    var s := Buffered(limits, key);
    assert Resend(s).requests == s.requests;
  }

  /** Abort, then the last pointers go. */
  lemma BufferedEnds(limits: Limits, key: StreamKey, total: nat)
    requires total >= LEAST_BUFFER
    ensures var s := Buffered(limits, key).(total := total);
            var events := [Receive(Control(key, Aborted))] + ([ResetFrame] + [DestroyRequest(0)]);
            && Legal(s, events)
            && Run(s, events) == State(limits, [Destroyed], map[], total - LEAST_BUFFER, NO_FRAME, [], false)
  {
    hide Run, Legal;
    var s := Buffered(limits, key).(total := total);
    var s1 := s.(requests := [Live(Request(key, 5, Aborted, true, [], LEAST_BUFFER))], current := map[],
                 frame := InFrame(Some(0), false, false, []));
    assert Step(s, Receive(Control(key, Aborted))) == s1;
    var s2 := s1.(frame := NO_FRAME);
    assert Step(s2, DestroyRequest(0)) == s2.(requests := [Destroyed], total := total - LEAST_BUFFER);
    RunOne(s2, DestroyRequest(0));
    RunFirst(s1, ResetFrame, [DestroyRequest(0)]);
    RunFirst(s, Receive(Control(key, Aborted)), [ResetFrame] + [DestroyRequest(0)]);
  }

  /** Buffering a request twice leaves its first buffer counted when no request is left. */
  lemma BufferingTwice(limits: Limits, key: StreamKey)
    requires limits.maxAutoBufferSize >= 5 && limits.maxWaitingBufferTotal >= 2 * LEAST_BUFFER
    ensures var events := [Receive(Header(key, 5, None, false, true))] + ([ResendWhenBodyIsDone] +
                            ([Receive(Control(key, Aborted))] + ([ResetFrame] + [DestroyRequest(0)])));
            && Legal(Connected(limits), events)
            && var s := Run(Connected(limits), events);
               s.requests == [Destroyed] && s.total == LEAST_BUFFER && !s.panicked
  {
    hide Run, Legal, Step, Enabled;
    var ending := [Receive(Control(key, Aborted))] + ([ResetFrame] + [DestroyRequest(0)]);
    BufferedAtHeader(limits, key);
    BufferedAgain(limits, key);
    BufferedEnds(limits, key, 2 * LEAST_BUFFER);
    RunFirst(Buffered(limits, key), ResendWhenBodyIsDone, ending);
    RunFirst(Connected(limits), Receive(Header(key, 5, None, false, true)), [ResendWhenBodyIsDone] + ending);
  }
}
