/**
The life of requests inside the C++ client, as steps on values: registration by stream, automatic buffering of request
bodies under a shared quota, responses, and destruction. A request is named by its place in the list of all requests
ever received, which stands for the shared pointers to it; one slot is filled for each and emptied at most once.
*/
module Lifecycle {
  import opened Bytes
  import opened ResponseRuns
  import Buffers

  datatype StreamState = Active | Aborted | Paused

  datatype Request = Request(
    key: StreamKey,
    contentLength: nat,  // MINUS_ONE for a chunked upload, 0 without Content-Length
    state: StreamState,
    isBuffered: bool,
    body: bytes,         // BodyBuffer: its contents
    capacity: nat)       // and its allocation

  datatype Slot = Live(request: Request) | Destroyed

  datatype RequestState = RequestState(request: nat, responseBodyRemaining: nat, isResponseHeaderSent: bool)

  /** The frame object the caller passes to every Recv. */
  datatype InFrame = InFrame(request: Option<nat>, isHeader: bool, isLast: bool, body: bytes)

  datatype Limits = Limits(maxWaitingBufferTotal: nat, maxAutoBufferSize: nat, initialBufferSize: nat)

  datatype State = State(
    limits: Limits,
    requests: seq<Slot>,
    current: map<StreamKey, RequestState>,
    total: nat,                            // BufferedRequestsTotalBytes
    frame: InFrame,
    wire: seq<WireFrame>,
    panicked: bool)

  /** A decoded frame from the server. */
  datatype RxFrame =
    | Header(key: StreamKey, contentLength: nat, body: Option<bytes>, isFinal: bool, uriFits: bool)
    | Body(key: StreamKey, body: Option<bytes>, isFinal: bool)
    | Control(key: StreamKey, state: StreamState)

  const NO_FRAME := InFrame(None, false, false, [])

  const STATUS_BAD_REQUEST: nat := 400
  const STATUS_URI_TOO_LONG: nat := 414
  const STATUS_SERVICE_UNAVAILABLE: nat := 503

  const LEAST_BUFFER: nat := 16

  function Connected(limits: Limits): State {
    State(limits, [], map[], 0, NO_FRAME, [], false)
  }

  // ---------- responses ----------

  function RegistrationOf(s: State, key: StreamKey): Registration {
    if key !in s.current then Finished
    else Open(s.current[key].responseBodyRemaining, s.current[key].isResponseHeaderSent)
  }

  function Register(s: State, key: StreamKey, id: nat): State {
    s.(current := s.current[key := RequestState(id, MINUS_ONE, false)])
  }

  function Unregister(s: State, key: StreamKey): State {
    s.(current := s.current - {key})
  }

  function SendStep(s: State, r: Response): State
    requires Allowed(RegistrationOf(s, r.key), r)
  {
    var reg := RegistrationOf(s, r.key);
    var t := s.(wire := s.wire + Emitted(reg, r));
    if reg.Finished? then t
    else match Sent(reg, r)
      case Finished => Unregister(t, r.key)
      case Open(remaining, sent) =>
        t.(current := t.current[r.key := RequestState(s.current[r.key].request, remaining, sent)])
  }

  function StatusOnly(key: StreamKey, status: nat): Response {
    Response(key, status, None, [], false)
  }

  // ---------- buffering ----------

  ghost predicate IsLive(s: State, id: nat) {
    id < |s.requests| && s.requests[id].Live?
  }

  function RequestOf(s: State, id: nat): Request
    requires IsLive(s, id)
  {
    s.requests[id].request
  }

  function SetRequest(s: State, id: nat, r: Request): State
    requires IsLive(s, id)
  {
    s.(requests := s.requests[id := Live(r)])
  }

  /** Gives request id this body and allocation, and adds to the shared total. */
  function SetBuffer(s: State, id: nat, body: bytes, capacity: nat, added: int): State
    requires IsLive(s, id) && 0 <= s.total + added
  {
    var r := RequestOf(s, id).(isBuffered := true, body := body, capacity := capacity);
    SetRequest(s, id, r).(total := s.total + added)
  }

  function InitialCapacity(limits: Limits, contentLength: nat, bodyLen: nat): nat {
    Max(Max(Min(limits.initialBufferSize, contentLength), bodyLen), LEAST_BUFFER)
  }

  /** The caller's frame is the first one of a request with a positive body length; otherwise the call panics. */
  ghost predicate Resendable(s: State)
    requires s.frame.request.Some? && IsLive(s, s.frame.request.value)
  {
    s.frame.isHeader && !s.frame.isLast && RequestOf(s, s.frame.request.value).contentLength !in {0, MINUS_ONE}
  }

  /** Refused over quota, with a 503 to the client. */
  ghost predicate ResendExceeds(s: State)
    requires s.frame.request.Some? && IsLive(s, s.frame.request.value)
  {
    var r := RequestOf(s, s.frame.request.value);
    InitialCapacity(s.limits, r.contentLength, |s.frame.body|) + s.total > s.limits.maxWaitingBufferTotal
  }

  /** The caller's frame holds a request, and Send's assertions hold if it has to be refused. */
  ghost predicate CanResend(s: State) {
    && s.frame.request.Some? && IsLive(s, s.frame.request.value)
    && var key := RequestOf(s, s.frame.request.value).key;
       Resendable(s) && ResendExceeds(s) ==>
         Allowed(RegistrationOf(s, key), StatusOnly(key, STATUS_SERVICE_UNAVAILABLE))
  }

  ghost function Resend(s: State): State
    requires CanResend(s)
  {
    var id := s.frame.request.value;
    var r := RequestOf(s, id);
    var capacity := InitialCapacity(s.limits, r.contentLength, |s.frame.body|);
    if !Resendable(s) then s.(panicked := true)
    else if ResendExceeds(s) then SendStep(s, StatusOnly(r.key, STATUS_SERVICE_UNAVAILABLE))
    else SetBuffer(s, id, s.frame.body, capacity, capacity).(frame := s.frame.(body := []))
  }

  /** A buffer is given to the request of the caller's frame. */
  ghost predicate GetsBuffer(s: State)
    requires CanResend(s)
  {
    Resendable(s) && !ResendExceeds(s)
  }

  // ---------- receiving ----------

  /** A frame that cannot be accepted ends its stream with an error response. */
  function Refuse(s: State, key: StreamKey, id: nat, status: nat): State
    requires status != STATUS_META_BODY_PART
  {
    SendStep(Register(s, key, id), StatusOnly(key, status))
  }

  function BodyOf(b: Option<bytes>): bytes {
    if b.Some? then b.value else []
  }

  /** UnpackHeader and UnpackBody: a new request. */
  function Arrived(s: State, f: RxFrame): State
    requires f.Header?
  {
    s.(requests := s.requests + [Live(Request(f.key, f.contentLength, Active, false, [], 0))],
       frame := InFrame(Some(|s.requests|), true, f.isFinal, BodyOf(f.body)))
  }

  predicate AutoBuffered(s: State, f: RxFrame)
    requires f.Header?
  {
    f.contentLength != MINUS_ONE && f.contentLength <= s.limits.maxAutoBufferSize && !f.isFinal
  }

  /** The result says whether Recv returned true. */
  ghost function RecvHeader(s: State, f: RxFrame): (State, bool)
    requires f.Header?
  {
    var id := |s.requests|;
    var a := Arrived(s, f);
    if !f.uriFits then (Refuse(a, f.key, id, STATUS_URI_TOO_LONG), false)
    else
      var t := Register(a, f.key, id);
      if f.isFinal && f.contentLength != MINUS_ONE && f.contentLength != 0 then
        (SetBuffer(t, id, t.frame.body, |t.frame.body|, |t.frame.body|), true)
      else if AutoBuffered(s, f) then
        if GetsBuffer(t) then (Resend(t), true)
        else if Resendable(t) then (Resend(t).(frame := NO_FRAME), false)
        else (Resend(t), false)
      else (t, true)
  }

  /** The checks a body frame for a buffered request must pass; the first looks only at earlier bytes. */
  predicate TooLong(r: Request) {
    |r.body| > r.contentLength
  }

  predicate OverQuota(s: State, r: Request, more: bytes) {
    |r.body| + |more| > r.capacity && s.total + r.capacity > s.limits.maxWaitingBufferTotal
  }

  function Append(s: State, id: nat, more: bytes): State
    requires IsLive(s, id)
  {
    var r := RequestOf(s, id);
    var capacity := Buffers.Grown(r.capacity, |r.body| + |more|);
    SetBuffer(s, id, r.body + more, capacity, capacity - r.capacity)
  }

  function RecvBody(s: State, f: RxFrame): (State, bool)
    requires f.Body?
    requires f.key in s.current ==> IsLive(s, s.current[f.key].request)
  {
    if f.key !in s.current then (s, false)
    else
      var id := s.current[f.key].request;
      var r := RequestOf(s, id);
      var t := s.(frame := InFrame(Some(id), false, f.isFinal, []));
      if f.body.None? then (t, true)
      else if !r.isBuffered then (t.(frame := t.frame.(body := f.body.value)), true)
      else if TooLong(r) then (Refuse(t, f.key, id, STATUS_BAD_REQUEST), false)
      else if OverQuota(s, r, f.body.value) then (Refuse(t, f.key, id, STATUS_SERVICE_UNAVAILABLE), false)
      else (Append(t, id, f.body.value), true)
  }

  /** Request::SetState never leaves Aborted. */
  function NewState(was: StreamState, wanted: StreamState): StreamState {
    if wanted == Aborted || was != Aborted then wanted else was
  }

  function RecvControl(s: State, f: RxFrame): (State, bool)
    requires f.Control?
    requires f.key in s.current ==> IsLive(s, s.current[f.key].request)
  {
    if f.key !in s.current then (s, false)
    else
      var id := s.current[f.key].request;
      var r := RequestOf(s, id);
      var q := r.(state := NewState(r.state, f.state));
      var t := SetRequest(s, id, q).(frame := InFrame(Some(id), false, false, []));
      (if f.state == Aborted then Unregister(t, f.key) else t, true)
  }

  ghost function Recv(s: State, f: RxFrame): (State, bool)
    requires f.key in s.current ==> IsLive(s, s.current[f.key].request)
  {
    var t := s.(frame := NO_FRAME);
    match f
    case Header(_, _, _, _, _) => RecvHeader(t, f)
    case Body(_, _, _) => RecvBody(t, f)
    case Control(_, _) => RecvControl(t, f)
  }

  // ---------- destruction ----------

  /** No pointer to the request is left in the registrations or in the caller's frame. */
  ghost predicate Unreferenced(s: State, id: nat) {
    s.frame.request != Some(id) && forall key :: key in s.current ==> s.current[key].request != id
  }

  function CapacityOf(slot: Slot): nat {
    if slot.Live? && slot.request.isBuffered then slot.request.capacity else 0
  }

  /** Request's destructor gives its buffer back to the quota, and panics on underflow. */
  function Destroy(s: State, id: nat): State
    requires IsLive(s, id)
  {
    var freed := CapacityOf(s.requests[id]);
    if s.total < freed then s.(panicked := true)
    else s.(requests := s.requests[id := Destroyed], total := s.total - freed)
  }

  // ---------- runs ----------

  datatype Event =
    | Receive(f: RxFrame)
    | ResendWhenBodyIsDone  // on the caller's frame
    | Send(r: Response)
    | ResetFrame
    | DestroyRequest(id: nat)

  /** What the client's own assertions, and C++'s rules for shared pointers, demand of a caller. */
  ghost predicate Enabled(s: State, e: Event) {
    && !s.panicked
    && match e
       case Receive(f) => f.key in s.current ==> IsLive(s, s.current[f.key].request)
       case ResendWhenBodyIsDone => CanResend(s)
       case Send(r) => Allowed(RegistrationOf(s, r.key), r)
       case ResetFrame => true
       case DestroyRequest(id) => IsLive(s, id) && Unreferenced(s, id)
  }

  ghost function Step(s: State, e: Event): State
    requires Enabled(s, e)
  {
    match e
    case Receive(f) => Recv(s, f).0
    case ResendWhenBodyIsDone => Resend(s)
    case Send(r) => SendStep(s, r)
    case ResetFrame => s.(frame := NO_FRAME)
    case DestroyRequest(id) => Destroy(s, id)
  }

  ghost predicate Legal(s: State, events: seq<Event>)
    decreases |events|
  {
    events == [] || (Enabled(s, events[0]) && Legal(Step(s, events[0]), events[1..]))
  }

  ghost function Run(s: State, events: seq<Event>): State
    requires Legal(s, events)
    decreases |events|
  {
    if events == [] then s else Run(Step(s, events[0]), events[1..])
  }
}
