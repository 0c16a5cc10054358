/**
Backpressure on one response stream of the Go server. The connection reader puts a backend's frames on a bounded
channel and sends Pause when it fills; the response writer drains the channel and sends Resume when it is nearly
empty. One iteration of the reader on a frame is one step; the writer's iteration is cut into every read and
write of shared state, so that the two interleave in all ways.
*/
module PauseResume {
  import opened Bytes

  const CHAN_SIZE: nat := 200
  const CHAN_HIGH: nat := 15
  const CHAN_LOW: nat := 5

  datatype StreamState = Active | Paused | Aborted

  datatype Control = Pause | Resume | Abort

  /** Where the response writer is. Idle: waiting in its select. Gone: returned. */
  datatype Writer = Idle | Popped | SawPaused | Resuming | TryFromActive | TryFromPaused | Aborting | Gone

  datatype Stream<Frame> = Stream(
    state: StreamState,
    queue: seq<Frame>,
    pushed: seq<Frame>,
    delivered: seq<Frame>,
    sent: seq<Control>,
    writer: Writer)

  function Initial<Frame>(): Stream<Frame> {
    Stream(Active, [], [], [], [], Idle)
  }

  datatype Step<Frame> =
    | Arrive(frame: Frame)  // the reader handles one frame of this stream
    | Pop                   // the writer receives from the channel
    | WriteFails            // writing to the client fails: abortStream
    | WriteEnds             // the frame was the final one
    | GiveUp                // the backend disconnects or the server stops
    | TimeOut               // no frame in time: abortStream
    | SendAbort
    | ReadState
    | ReadLength
    | SendResume
    | CasFromActive         // the first compare-and-swap of setState(Active)
    | CasFromPaused         // the second one

  /** The reader's decision to pause uses the state it loaded before pushing. */
  function Arrived<Frame>(s: Stream<Frame>, frame: Frame): Stream<Frame> {
    if s.state == Aborted then s
    else
      var t := s.(queue := s.queue + [frame], pushed := s.pushed + [frame]);
      if s.state == Active && |t.queue| >= CHAN_HIGH then t.(state := Paused, sent := t.sent + [Pause]) else t
  }

  predicate Enabled<Frame>(s: Stream<Frame>, step: Step<Frame>) {
    match step
    case Arrive(_) => s.state == Aborted || |s.queue| < CHAN_SIZE
    case Pop => s.writer == Idle && s.queue != []
    case WriteFails => s.writer == Popped
    case WriteEnds => s.writer == Popped
    case GiveUp => s.writer == Idle
    case TimeOut => s.writer == Idle
    case SendAbort => s.writer == Aborting
    case ReadState => s.writer == Popped
    case ReadLength => s.writer == SawPaused
    case SendResume => s.writer == Resuming
    case CasFromActive => s.writer == TryFromActive
    case CasFromPaused => s.writer == TryFromPaused
  }

  function Next<Frame>(s: Stream<Frame>, step: Step<Frame>): Stream<Frame>
    requires Enabled(s, step)
  {
    match step
    case Arrive(frame) => Arrived(s, frame)
    case Pop => s.(delivered := s.delivered + [s.queue[0]], queue := s.queue[1..], writer := Popped)
    case WriteFails => s.(state := Aborted, writer := Aborting)
    case WriteEnds => s.(writer := Gone)
    case GiveUp => s.(writer := Gone)
    case TimeOut => s.(state := Aborted, writer := Aborting)
    case SendAbort => s.(sent := s.sent + [Abort], writer := Gone)
    case ReadState => s.(writer := if s.state == Paused then SawPaused else Idle)
    case ReadLength => s.(writer := if |s.queue| <= CHAN_LOW then Resuming else Idle)
    case SendResume => s.(sent := s.sent + [Resume], writer := TryFromActive)
    case CasFromActive => s.(writer := if s.state == Active then Idle else TryFromPaused)
    case CasFromPaused => s.(state := if s.state == Paused then Active else s.state, writer := Idle)
  }

  ghost predicate Legal<Frame>(s: Stream<Frame>, steps: seq<Step<Frame>>)
    decreases steps
  {
    steps == [] || (Enabled(s, steps[0]) && Legal(Next(s, steps[0]), steps[1..]))
  }

  ghost function Run<Frame>(s: Stream<Frame>, steps: seq<Step<Frame>>): Stream<Frame>
    requires Legal(s, steps)
    decreases steps
  {
    if steps == [] then s else Run(Next(s, steps[0]), steps[1..])
  }

  // ---------- what every run keeps ----------

  /** Pause and Resume alternate, beginning with Pause; nothing follows Abort. */
  ghost predicate Alternates(sent: seq<Control>) {
    && (forall i :: 0 <= i < |sent| && sent[i] == Pause ==> i == 0 || sent[i - 1] == Resume)
    && (forall i :: 0 <= i < |sent| && sent[i] == Resume ==> i > 0 && sent[i - 1] == Pause)
    && (forall i :: 0 <= i < |sent| && sent[i] == Abort ==> i == |sent| - 1)
  }

  ghost predicate LastIs(sent: seq<Control>, c: Control) {
    sent != [] && sent[|sent| - 1] == c
  }

  ghost predicate Invariant<Frame>(s: Stream<Frame>) {
    && |s.queue| <= CHAN_SIZE
    && s.delivered + s.queue == s.pushed
    // a paused stream has frames left to drain, or its writer is on the way to looking again
    && (s.state == Paused && s.writer == Idle ==> |s.queue| > CHAN_LOW)
    && (s.writer in {SawPaused, Resuming, TryFromActive, TryFromPaused} ==> s.state == Paused)
    && (s.writer == Aborting ==> s.state == Aborted)
    && (s.state == Aborted ==> s.writer in {Aborting, Gone})
    // the control frames say where the stream is
    && Alternates(s.sent)
    && (s.state == Active ==> !LastIs(s.sent, Pause) && !LastIs(s.sent, Abort))
    && (s.state == Paused ==>
          if s.writer in {TryFromActive, TryFromPaused} then LastIs(s.sent, Resume) else LastIs(s.sent, Pause))
    && (s.writer == Aborting ==> !LastIs(s.sent, Abort))
    && (s.state == Aborted && s.writer == Gone ==> LastIs(s.sent, Abort))
  }

  lemma AlternatesAppend(sent: seq<Control>, c: Control)
    requires Alternates(sent) && !LastIs(sent, Abort)
    requires c == Pause ==> sent == [] || LastIs(sent, Resume)
    requires c == Resume ==> LastIs(sent, Pause)
    ensures Alternates(sent + [c]) && LastIs(sent + [c], c)
  {
  }

  /** The last control frame of an active stream is a Resume, if there is one. */
  lemma LastOfActive(sent: seq<Control>)
    requires !LastIs(sent, Pause) && !LastIs(sent, Abort)
    ensures sent == [] || LastIs(sent, Resume)
  {
  }

  lemma NextKeepsInvariant<Frame>(s: Stream<Frame>, step: Step<Frame>)
    requires Invariant(s) && Enabled(s, step)
    ensures Invariant(Next(s, step))
  {
    hide Alternates, LastIs;
    OneLast(s.sent);
    match step
    case Arrive(frame) =>
      assert s.delivered + (s.queue + [frame]) == s.pushed + [frame];
      if s.state == Active {
        LastOfActive(s.sent);
        AlternatesAppend(s.sent, Pause);
        OneLast(s.sent + [Pause]);
      }
    case Pop =>
      assert s.delivered + [s.queue[0]] + s.queue[1..] == s.delivered + s.queue;
    case SendAbort => AlternatesAppend(s.sent, Abort);
    case SendResume =>
      AlternatesAppend(s.sent, Resume);
      OneLast(s.sent + [Resume]);
    case _ =>
  }

  lemma OneLast(sent: seq<Control>)
    ensures LastIs(sent, Pause) ==> !LastIs(sent, Resume) && !LastIs(sent, Abort)
    ensures LastIs(sent, Resume) ==> !LastIs(sent, Pause) && !LastIs(sent, Abort)
  {
  }

  lemma {:induction false} RunKeepsInvariant<Frame>(s: Stream<Frame>, steps: seq<Step<Frame>>)
    requires Invariant(s) && Legal(s, steps)
    ensures Invariant(Run(s, steps))
    decreases steps
  {
    hide Invariant;
    if steps != [] {
      NextKeepsInvariant(s, steps[0]);
      RunKeepsInvariant(Next(s, steps[0]), steps[1..]);
    }
  }

  /** Over every interleaving from the start of the stream. */
  lemma BackpressureSafety<Frame>(steps: seq<Step<Frame>>)
    requires Legal(Initial(), steps)
    ensures var s := Run(Initial(), steps);
            && (s.state == Paused && s.writer == Idle ==> |s.queue| > CHAN_LOW)
            && Alternates(s.sent) && (s.state == Active ==> !LastIs(s.sent, Pause))
            && |s.queue| <= CHAN_SIZE
            && s.delivered <= s.pushed
  {
    RunKeepsInvariant(Initial(), steps);
  }

  /** Once aborted, a stream stays aborted. */
  lemma {:induction false} AbortedForever<Frame>(s: Stream<Frame>, steps: seq<Step<Frame>>)
    requires s.state == Aborted && Invariant(s) && Legal(s, steps)
    ensures Run(s, steps).state == Aborted
    decreases steps
  {
    hide Alternates;
    if steps != [] {
      NextKeepsInvariant(s, steps[0]);
      AbortedForever(Next(s, steps[0]), steps[1..]);
    }
  }

  // ---------- what a run does, and when ----------

  /** An arrival that finds the stream Active and leaves CHAN_HIGH or more frames queued. */
  ghost predicate FillsUp<Frame>(s: Stream<Frame>, step: Step<Frame>) {
    step.Arrive? && s.state == Active && |s.queue| + 1 >= CHAN_HIGH
  }

  /** The control frames a run owes: a Pause for each such arrival, and what the writer sends. */
  ghost function Controls<Frame>(s: Stream<Frame>, steps: seq<Step<Frame>>): seq<Control>
    requires Legal(s, steps)
    decreases steps
  {
    if steps == [] then []
    else
      (if FillsUp(s, steps[0]) then [Pause]
       else if steps[0].SendResume? then [Resume]
       else if steps[0].SendAbort? then [Abort]
       else [])
      + Controls(Next(s, steps[0]), steps[1..])
  }

  /** The frames that arrive while the stream is not aborted. */
  ghost function Accepted<Frame>(s: Stream<Frame>, steps: seq<Step<Frame>>): seq<Frame>
    requires Legal(s, steps)
    decreases steps
  {
    if steps == [] then []
    else
      (if steps[0].Arrive? && s.state != Aborted then [steps[0].frame] else [])
      + Accepted(Next(s, steps[0]), steps[1..])
  }

  lemma StepDoes<Frame>(s: Stream<Frame>, step: Step<Frame>)
    requires Enabled(s, step)
    ensures Next(s, step).sent == s.sent + (if FillsUp(s, step) then [Pause]
                                            else if step.SendResume? then [Resume]
                                            else if step.SendAbort? then [Abort]
                                            else [])
    ensures Next(s, step).pushed == s.pushed + if step.Arrive? && s.state != Aborted then [step.frame] else []
  {
  }

  /** A run sends exactly the control frames it owes, in order, and queues exactly the frames it accepts. */
  lemma {:induction false} RunDoes<Frame>(s: Stream<Frame>, steps: seq<Step<Frame>>)
    requires Legal(s, steps)
    ensures Run(s, steps).sent == s.sent + Controls(s, steps)
    ensures Run(s, steps).pushed == s.pushed + Accepted(s, steps)
    decreases steps
  {
    hide Next, FillsUp;
    if steps != [] {
      StepDoes(s, steps[0]);
      RunDoes(Next(s, steps[0]), steps[1..]);
    }
  }

  lemma {:induction false} RunInParts<Frame>(s: Stream<Frame>, steps: seq<Step<Frame>>, k: nat)
    requires Legal(s, steps) && k <= |steps|
    ensures Legal(s, steps[..k]) && Legal(Run(s, steps[..k]), steps[k..])
    ensures Run(s, steps) == Run(Run(s, steps[..k]), steps[k..])
    decreases k
  {
    hide Next, Enabled, Run, Legal;
    if k == 0 {
      assert steps[0..] == steps && steps[..0] == [];
      EmptyRun(s);
    } else {
      var first, rest := steps[..k][1..], steps[k..];
      assert first == steps[1..][..k - 1] && steps[..k] == [steps[0]] + first;
      assert steps[1..][k - 1..] == rest && steps == [steps[0]] + steps[1..];
      FirstStep(s, steps[0], steps[1..]);
      RunInParts(Next(s, steps[0]), steps[1..], k - 1);
      MoreSteps(s, steps[0], first);
    }
  }

  lemma FirstStep<Frame>(s: Stream<Frame>, step: Step<Frame>, rest: seq<Step<Frame>>)
    requires Legal(s, [step] + rest)
    ensures Enabled(s, step) && Legal(Next(s, step), rest) && Run(s, [step] + rest) == Run(Next(s, step), rest)
  {
    hide Next, Enabled;
    assert ([step] + rest)[1..] == rest;
  }

  /** The reader never leaves a stream Active with CHAN_HIGH or more frames queued. */
  lemma ActiveBelowHigh<Frame>(steps: seq<Step<Frame>>, frame: Frame)
    requires Legal(Initial(), steps + [Arrive(frame)])
    ensures var s := Run(Initial(), steps + [Arrive(frame)]); s.state == Active ==> |s.queue| < CHAN_HIGH
  {
    hide Enabled;
    LastStep(steps, Arrive(frame));
  }

  lemma LastStep<Frame>(steps: seq<Step<Frame>>, step: Step<Frame>)
    requires Legal(Initial(), steps + [step])
    ensures Legal(Initial(), steps) && Enabled(Run(Initial(), steps), step)
    ensures Run(Initial(), steps + [step]) == Next(Run(Initial(), steps), step)
  {
    hide Next, Enabled;
    var all := steps + [step];
    RunInParts(Initial(), all, |steps|);
    assert all[..|steps|] == steps && all[|steps|..] == [step];
    assert [step][1..] == [];
    var s := Run(Initial(), steps);
    assert Run(Next(s, step), []) == Next(s, step);
  }

  /** The writer, still after its receive at step k and behind a read of the state, found CHAN_LOW or fewer queued. */
  ghost predicate FoundLow<Frame>(steps: seq<Step<Frame>>, k: nat)
    requires Legal(Initial(), steps)
  {
    && k < |steps| && steps[k].ReadLength?
    && Legal(Initial(), steps[..k]) && |Run(Initial(), steps[..k]).queue| <= CHAN_LOW
    && (forall j :: k < j < |steps| ==> steps[j].Arrive?)
  }

  lemma {:induction false} ResumingFoundLow<Frame>(steps: seq<Step<Frame>>) returns (k: nat)
    requires Legal(Initial(), steps) && Run(Initial(), steps).writer == Resuming
    ensures FoundLow(steps, k)
    decreases |steps|
  {
    hide Legal, Run;
    EmptyRun(Initial<Frame>());
    var n := |steps| - 1;
    var before, step := steps[..n], steps[n];
    assert steps == before + [step];
    LastStep(before, step);
    if step.Arrive? {
      k := ResumingFoundLow(before);
      assert before[..k] == steps[..k];
    } else {
      k := n;
    }
  }

  /** Only a writer that has just found CHAN_LOW or fewer frames queued sends a Resume; only arrivals can intervene. */
  lemma ResumeIsEarned<Frame>(steps: seq<Step<Frame>>) returns (k: nat)
    requires Legal(Initial(), steps + [SendResume])
    ensures Legal(Initial(), steps) && FoundLow(steps, k)
  {
    hide Legal, Run, FoundLow;
    LastStep(steps, SendResume);
    k := ResumingFoundLow(steps);
  }

  lemma EmptyRun<Frame>(s: Stream<Frame>)
    ensures Legal(s, []) && Run(s, []) == s
  {
  }

  /** A step that ends the writer's loop. */
  predicate Ends<Frame>(step: Step<Frame>) {
    step.WriteEnds? || step.GiveUp? || step.SendAbort?
  }

  /** A step that gives the stream up. */
  predicate Fails<Frame>(step: Step<Frame>) {
    step.WriteFails? || step.TimeOut?
  }

  lemma {:induction false} GoneFor<Frame>(s: Stream<Frame>, steps: seq<Step<Frame>>)
    requires Legal(s, steps) && s.writer == Gone
    ensures Run(s, steps).writer == Gone
    decreases steps
  {
    if steps != [] {
      GoneFor(Next(s, steps[0]), steps[1..]);
    }
  }

  lemma {:induction false} EndsFrom<Frame>(s: Stream<Frame>, steps: seq<Step<Frame>>)
    requires Invariant(s) && Legal(s, steps) && s.writer != Gone && s.state != Aborted
    ensures Run(s, steps).state == Aborted <==> exists step <- steps :: Fails(step)
    ensures Run(s, steps).writer == Gone <==> exists step <- steps :: Ends(step)
    decreases steps
  {
    if steps != [] {
      var t, rest := Next(s, steps[0]), steps[1..];
      NextKeepsInvariant(s, steps[0]);
      assert steps == [steps[0]] + rest;
      if Fails(steps[0]) {
        AbortedForever(t, rest);
        AbortingEnds(t, rest);
      } else if Ends(steps[0]) {
        GoneFor(t, rest);
        GoneDoesNothing(t, rest);
      } else {
        EndsFrom(t, rest);
      }
    }
  }

  lemma {:induction false} GoneDoesNothing<Frame>(s: Stream<Frame>, steps: seq<Step<Frame>>)
    requires Legal(s, steps) && s.writer == Gone
    ensures forall step <- steps :: step.Arrive?
    ensures s.state != Aborted ==> Run(s, steps).state != Aborted
    decreases steps
  {
    if steps != [] {
      assert steps == [steps[0]] + steps[1..];
      GoneDoesNothing(Next(s, steps[0]), steps[1..]);
    }
  }

  lemma {:induction false} AbortingEnds<Frame>(s: Stream<Frame>, steps: seq<Step<Frame>>)
    requires Legal(s, steps) && s.writer == Aborting
    ensures Run(s, steps).writer == Gone <==> exists step <- steps :: Ends(step)
    decreases steps
  {
    if steps != [] {
      assert steps == [steps[0]] + steps[1..];
      if steps[0].Arrive? {
        AbortingEnds(Next(s, steps[0]), steps[1..]);
      } else {
        assert Ends(steps[0]) && steps[0] in steps;
        GoneFor(Next(s, steps[0]), steps[1..]);
      }
    }
  }

  /**
  A stream is aborted if and only if a write to the client failed or the backend took too long; the writer has returned
  if and only if a frame was final, it gave up, or it has sent the Abort; and it does not return from an aborted
  stream without having sent that.
  */
  lemma HowItEnds<Frame>(steps: seq<Step<Frame>>)
    requires Legal(Initial(), steps)
    ensures var s := Run(Initial(), steps);
            && (s.state == Aborted <==> exists step <- steps :: Fails(step))
            && (s.writer == Gone <==> exists step <- steps :: Ends(step))
            && (s.state == Aborted && s.writer == Gone ==> LastIs(s.sent, Abort))
  {
    hide Legal, Run, Fails, Ends;
    RunKeepsInvariant(Initial(), steps);
    EndsFrom(Initial(), steps);
  }

  // ---------- no stall ----------

  /** What the writer does next when every write succeeds; None when it waits on an empty channel or has returned. */
  function WriterStep<Frame>(s: Stream<Frame>): Option<Step<Frame>> {
    match s.writer
    case Idle => if s.queue == [] then None else Some(Step.Pop)
    case Popped => Some(Step.ReadState)
    case SawPaused => Some(Step.ReadLength)
    case Resuming => Some(Step.SendResume)
    case TryFromActive => Some(Step.CasFromActive)
    case TryFromPaused => Some(Step.CasFromPaused)
    case Aborting => Some(Step.SendAbort)
    case Gone => None
  }

  /** How far the writer of a paused stream is from resuming it. */
  function Distance<Frame>(s: Stream<Frame>): nat {
    3 * |s.queue| + match s.writer
                    case Idle => 6
                    case Popped => 8
                    case SawPaused => 7
                    case Resuming => 3
                    case TryFromActive => 2
                    case TryFromPaused => 1
                    case _ => 0
  }

  /** A paused stream whose backend stays silent is active again after finitely many writer steps: it never stalls. */
  lemma {:induction false} PausedResumes<Frame>(s: Stream<Frame>) returns (steps: seq<Step<Frame>>)
    requires Invariant(s) && s.state == Paused && s.writer != Gone
    ensures Legal(s, steps) && Run(s, steps).state == Active
    ensures |steps| <= Distance(s)
    ensures forall i :: 0 <= i < |steps| ==>
              steps[i] in {Pop, ReadState, ReadLength, SendResume, CasFromActive, CasFromPaused}
    decreases Distance(s)
  {
    hide Alternates;
    var step := WriterStep(s).value;
    var t := Next(s, step);
    NextKeepsInvariant(s, step);
    if t.state == Active {
      steps := [step];
      assert Run(t, []) == t;
      assert steps[1..] == [];
    } else {
      var rest := PausedResumes(t);
      steps := [step] + rest;
      assert steps[1..] == rest;
    }
  }

  // ---------- setState under any number of callers ----------

  /** A call of setState, between its atomic accesses. */
  datatype SetState = FromActive(wanted: StreamState) | FromPaused(wanted: StreamState) | Returned

  /** The next atomic access of a call: a store for Aborted, else a compare-and-swap from Active, then from Paused. */
  function Access(state: StreamState, call: SetState): (StreamState, SetState) {
    match call
    case FromActive(Aborted) => (Aborted, Returned)
    case FromActive(wanted) => if state == Active then (wanted, Returned) else (state, FromPaused(wanted))
    case FromPaused(wanted) => (if state == Paused then wanted else state, Returned)
    case Returned => (state, Returned)
  }

  /** The calls take turns in the given order. */
  function Accesses(state: StreamState, calls: seq<SetState>, order: seq<nat>): (StreamState, seq<SetState>)
    requires forall i <- order :: i < |calls|
    decreases |order|
  {
    if order == [] then (state, calls)
    else
      var i := order[0];
      assert i in order;
      var (next, call) := Access(state, calls[i]);
      var rest := order[1..];
      assert forall i <- rest :: i in order;
      Accesses(next, calls[i := call], rest)
  }

  /** However the accesses of any calls interleave, a stream that is aborted, or that some call aborts, ends aborted. */
  lemma {:induction false} AbortedIsFinal(state: StreamState, calls: seq<SetState>, order: seq<nat>, k: nat)
    requires (forall i <- order :: i < |calls|) && k < |calls|
    requires state == Aborted || (calls[k] == FromActive(Aborted) && k in order)
    ensures Accesses(state, calls, order).0 == Aborted
    decreases |order|
  {
    if order != [] {
      var i := order[0];
      assert i in order;
      var (next, call) := Access(state, calls[i]);
      var rest := order[1..];
      assert forall i <- rest :: i in order;
      assert order == [i] + rest;
      AbortedIsFinal(next, calls[i := call], rest, k);
    }
  }

  lemma OneAccess(state: StreamState, call: SetState, rest: seq<nat>)
    requires forall i <- rest :: i == 0
    ensures var (next, c) := Access(state, call);
            Accesses(state, [call], [0] + rest) == Accesses(next, [c], rest)
  {
    assert ([0] + rest)[1..] == rest;
    assert [call][0 := Access(state, call).1] == [Access(state, call).1];
  }

  /** A call that is not interrupted sets what it is asked for, unless the stream is aborted. */
  lemma AloneSets(state: StreamState, wanted: StreamState)
    ensures Accesses(state, [FromActive(wanted)], [0, 0])
         == (if wanted == Aborted || state != Aborted then wanted else Aborted, [Returned])
  {
    var (s1, c1) := Access(state, FromActive(wanted));
    var (s2, c2) := Access(s1, c1);
    assert Accesses(s2, [c2], []) == (s2, [c2]);
    OneAccess(s1, c1, []);
    OneAccess(state, FromActive(wanted), [0]);
    assert [0] + [] == [0] && [0] + [0] == [0, 0];
  }

  // ---------- the writer without interference ----------

  lemma OneStep<Frame>(s: Stream<Frame>, step: Step<Frame>)
    requires Enabled(s, step)
    ensures Legal(s, [step]) && Run(s, [step]) == Next(s, step)
  {
    assert [step][1..] == [];
  }

  lemma MoreSteps<Frame>(s: Stream<Frame>, step: Step<Frame>, rest: seq<Step<Frame>>)
    requires Enabled(s, step) && Legal(Next(s, step), rest)
    ensures Legal(s, [step] + rest) && Run(s, [step] + rest) == Run(Next(s, step), rest)
  {
    assert ([step] + rest)[1..] == rest;
  }

  function AfterWriteSteps<Frame>(s: Stream<Frame>): seq<Step<Frame>> {
    if s.state != Paused then [ReadState]
    else if |s.queue| > CHAN_LOW then [ReadState] + [ReadLength]
    else [ReadState] + ([ReadLength] + ([SendResume] + ([CasFromActive] + [CasFromPaused])))
  }

  lemma AfterWriteRun<Frame>(s: Stream<Frame>)
    requires s.writer == Popped
    ensures Legal(s, AfterWriteSteps(s))
    ensures var t := Run(s, AfterWriteSteps(s));
            if s.state == Paused && |s.queue| <= CHAN_LOW
            then t == s.(state := Active, sent := s.sent + [Resume], writer := Idle)
            else t == s.(writer := Idle)
  {
    hide Legal, Run;
    if s.state != Paused {
      OneStep(s, ReadState);
    } else {
      var s1 := s.(writer := SawPaused);
      if |s.queue| > CHAN_LOW {
        OneStep(s1, ReadLength);
        MoreSteps(s, ReadState, [ReadLength]);
      } else {
        var s2 := s1.(writer := Resuming);
        var s3 := s2.(sent := s.sent + [Resume], writer := TryFromActive);
        var s4 := s3.(writer := TryFromPaused);
        OneStep(s4, CasFromPaused);
        MoreSteps(s3, CasFromActive, [CasFromPaused]);
        MoreSteps(s2, SendResume, [CasFromActive] + [CasFromPaused]);
        MoreSteps(s1, ReadLength, [SendResume] + ([CasFromActive] + [CasFromPaused]));
        MoreSteps(s, ReadState, [ReadLength] + ([SendResume] + ([CasFromActive] + [CasFromPaused])));
      }
    }
  }

  // ---------- the objects ----------

  class StreamInfo<Frame> {
    var state: StreamState
    var rchan: seq<Frame>

    constructor ()
      ensures state == Active && rchan == []
    {
      state, rchan := Active, [];
    }

    method CompareAndSwap(from: StreamState, to: StreamState) returns (swapped: bool)
      modifies this`state
      ensures swapped == (old(state) == from) && state == if swapped then to else old(state)
    {
      swapped := state == from;
      if swapped {
        state := to;
      }
    }

    /** Without interference. */
    method SetState(s: StreamState)
      modifies this`state
      ensures state == if s == Aborted || old(state) != Aborted then s else Aborted
    {
      if s == Aborted {
        state := s;
      } else {
        var swapped := CompareAndSwap(Active, s);
        if !swapped {
          var _ := CompareAndSwap(Paused, s);
        }
      }
    }
  }

  /** One stream on one backend connection, with what has passed over it. */
  class Connection<Frame> {
    const info: StreamInfo<Frame>
    var sent: seq<Control>
    ghost var pushed: seq<Frame>
    var delivered: seq<Frame>
    ghost var writer: Writer

    ghost function Abstract(): Stream<Frame>
      reads this, info
    {
      Stream(info.state, info.rchan, pushed, delivered, sent, writer)
    }

    constructor ()
      ensures Abstract() == Initial() && fresh(info)
    {
      info := new StreamInfo();
      sent, pushed, delivered, writer := [], [], [], Idle;
    }

    method SendControlFrame(c: Control)
      modifies this`sent
      ensures sent == old(sent) + [c]
    {
      sent := sent + [c];
    }

    /** The part of handleBackendConnection that follows a complete frame. */
    method HandleFrame(frame: Frame)
      requires Enabled(Abstract(), Arrive(frame))
      modifies this, info
      ensures Abstract() == Next(old(Abstract()), Arrive(frame))
    {
      var state := info.state;
      if state != Aborted {
        info.rchan := info.rchan + [frame];
        pushed := pushed + [frame];
      }
      if state == Active && |info.rchan| >= CHAN_HIGH {
        info.SetState(Paused);
        SendControlFrame(Pause);
      }
    }

    /** As many frames as fit, while the writer takes none: from CHAN_HIGH on, the backend is told to pause, once. */
    method HandleFrames(frames: seq<Frame>)
      requires Abstract() == Initial() && |frames| <= CHAN_SIZE
      modifies this, info
      ensures info.rchan == frames
      ensures info.state == if |frames| < CHAN_HIGH then Active else Paused
      ensures sent == if |frames| < CHAN_HIGH then [] else [Pause]
    {
      for i := 0 to |frames|
        invariant info.rchan == frames[..i] && writer == Idle
        invariant info.state == if i < CHAN_HIGH then Active else Paused
        invariant sent == if i < CHAN_HIGH then [] else [Pause]
      {
        HandleFrame(frames[i]);
      }
    }

    /** The writer takes the next frame. */
    method Receive() returns (frame: Frame)
      requires Enabled(Abstract(), Pop)
      modifies this`delivered, this`writer, info`rchan
      ensures frame == old(info.rchan[0])
      ensures Abstract() == Next(old(Abstract()), Pop)
    {
      frame := info.rchan[0];
      info.rchan := info.rchan[1..];
      delivered := delivered + [frame];
      writer := Popped;
    }

    /** What sendResponse does once the frame is written, when nothing interferes: a run of the writer's steps. */
    method AfterWrite() returns (ghost steps: seq<Step<Frame>>)
      requires writer == Popped
      modifies this`sent, this`writer, info`state
      ensures Legal(old(Abstract()), steps) && Abstract() == Run(old(Abstract()), steps)
      ensures writer == Idle
    {
      AfterWriteRun(Abstract());
      steps := AfterWriteSteps(Abstract());
      if info.state == Paused && |info.rchan| <= CHAN_LOW {
        SendControlFrame(Resume);
        info.SetState(Active);
      }
      writer := Idle;
    }
  }
}
