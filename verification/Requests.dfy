/**
From a frame to what the client does with it: its header lines, the path and query of its URI and its Content-Length,
and the step of the client that they decide.
*/
module Requests {
  import opened Backends
  import opened BufferedBodies
  import Buffers
  import opened Bytes
  import opened Decimals
  import opened HeaderBlocks
  import opened HeaderBuilders
  import opened HeaderCaches
  import opened HeaderLookups
  import opened HttpTexts
  import opened Lifecycle
  import opened LifecycleSafety
  import opened NthMatches
  import opened PackedUris
  import opened ResponseRuns
  import opened TxFrames
  import opened UriRequests

  lemma {:induction false} CStrNulFree(b: bytes)
    ensures NulFree(CStr(b))
  {
    if b != [] && b[0] != 0 {
      CStrNulFree(b[1..]);
    }
  }

  /** The text that Initialize takes for the Content-Length: the first header that a lookup of the name finds. */
  function LengthText(lines: seq<Line>): Option<bytes>
    requires lines != []
  {
    match FindNth(PrefixMarks(lines, CONTENT_LENGTH), 1, 0)
    case None => None
    case Some(i) => Some(CStr(lines[i].value))
  }

  /** The length a header's value stands for. */
  function LengthIn(line: Line): nat {
    AsUnsigned64(SignedValue(CStr(line.value)))
  }

  /** The body length of a request, 0 without a Content-Length. */
  function LengthOf(lines: seq<Line>): nat
    requires lines != []
  {
    match LengthText(lines)
    case None => 0
    case Some(text) => AsUnsigned64(SignedValue(text))
  }

  /** atoi64 does not overflow on it. */
  ghost predicate CanReadLength(lines: seq<Line>)
    requires lines != []
  {
    LengthText(lines).Some? ==> NoOverflow(LengthText(lines).value)
  }

  /**
  The length is taken from the first Content-Length header, in any case, if and only if every header whose name is
  longer has a Content-Length header before it. Otherwise it is that of a header with a longer name.
  */
  lemma LengthIsByName(lines: seq<Line>)
    requires lines != []
    ensures var first := FindNth(NameMarks(lines, CONTENT_LENGTH), 1, 0);
            var found := FindNth(PrefixMarks(lines, CONTENT_LENGTH), 1, 0);
            && (found == first <==> NameComesFirst(lines, CONTENT_LENGTH))
            && (NameComesFirst(lines, CONTENT_LENGTH) ==>
                  LengthOf(lines) == if first.None? then 0 else LengthIn(lines[first.value]))
            && (!NameComesFirst(lines, CONTENT_LENGTH) ==>
                  && found.Some? && ProperlyExtends(lines[found.value].key, CONTENT_LENGTH)
                  && LengthOf(lines) == LengthIn(lines[found.value]))
  {
    hide CStr, FindNth, PrefixMatch, SignedValue, NameComesFirst, ProperlyExtends;
    FirstLookupIsByName(lines, CONTENT_LENGTH);
  }

  /** As for "Content-Length-Hint: 7" in front of "Content-Length: 5". */
  lemma LongerNameSetsLength()
    ensures var hint := CONTENT_LENGTH + [45, 72, 105, 110, 116];
            var lines := [Line([], []), Line(hint, [55]), Line(CONTENT_LENGTH, [53])];
            LengthOf(lines) == 7
  {
    var hint := CONTENT_LENGTH + [45, 72, 105, 110, 116];
    var lines := [Line([], []), Line(hint, [55]), Line(CONTENT_LENGTH, [53])];
    assert PrefixMatch(hint, CONTENT_LENGTH);
    assert PrefixMarks(lines, CONTENT_LENGTH)[1];
    assert CStr([55]) == [55] + CStr([55][1..]) == [55];
    assert Value([55]) == 10 * Value([55][..0]) + 7;
  }

  /** Initialize: reads the Content-Length. */
  method Initialize(request: RequestHeaders, ghost lines: seq<Line>) returns (contentLength: nat)
    requires request.Valid(lines) && CanReadLength(lines)
    ensures contentLength == LengthOf(lines)
  {
    hide IsBlock, CStr, FindNth, PrefixMatch, SignedValue, AsUnsigned64;
    NameIsNulFree();
    var found := request.HeaderByName(CONTENT_LENGTH, 0, lines);
    if found.None? {
      return 0;
    }
    ghost var r := FindNth(PrefixMarks(lines, CONTENT_LENGTH), 1, 0);
    var s, p := request.headerBlock[..], found.value.0;
    HoldsInside(s, p, lines[r.value].value);
    HoldsCStr(s, p, lines[r.value].value);
    var n := Atoi64(CStr(s[p..]));
    contentLength := AsUnsigned64(n);
  }

  lemma NameIsNulFree()
    ensures NulFree(CONTENT_LENGTH)
  {
  }

  /**
  UnpackHeader, Initialize and ParseURI: the lines are what their senders meant, the length is that of the header found
  as Content-Length, and the packed list is that of the first line's value, as the C string it is read as. Not ok
  means a URI with a part too long.
  */
  method ReceiveRequest(cache: HeaderCacheRecv, before: seq<TxLine>, headers: seq<TxLine>)
    returns (request: RequestHeaders, uri: ParsedUri, contentLength: nat, ok: bool, ghost lines: seq<Line>)
    requires cache.items == CacheAfter([], before) && headers != [] && BlockFits(cache.items, headers)
    requires TotalHeaderBlockSize(cache.items, headers) < INT32_LIMIT && CanReadLength(ResolveAll(cache.items, headers))
    modifies cache
    ensures cache.items == CacheAfter([], before + headers)
    ensures request.Valid(lines) && lines == ResolveAll(old(cache.items), headers)
    ensures forall i :: 0 <= i < |lines| ==> lines[i] == Meaning(before + headers[..i], headers[i])
    ensures contentLength == LengthOf(lines) && ok == Fits(CStr(lines[0].value))
    ensures ok ==> Packed(uri.cachedURI[..], UriItems(CStr(lines[0].value)))
  {
    hide CacheAfter, BlockFits, TotalHeaderBlockSize, Meaning, CStr, Fits, Packed, UriItems, IsBlock, CanReadLength;
    request, lines := ReceiveHeaders(cache, before, headers);
    contentLength := Initialize(request, lines);
    var p := request.URI(lines);
    var s := request.headerBlock[..];
    HoldsCStr(s, p, lines[0].value);
    assert p <= |s| by {
      HoldsInside(s, p, lines[0].value);
    }
    CStrNulFree(s[p..]);
    uri := new ParsedUri();
    ok := uri.ParseURI(CStr(s[p..]));
  }

  lemma HoldsInside(s: bytes, p: nat, b: bytes)
    requires Holds(s, p, b)
    ensures p <= |s|
  {
  }

  // ---------- the client's step ----------

  /** No key and no value is a null vector, which the client does not expect. */
  predicate Complete(headers: Option<seq<HeaderLine>>) {
    headers.Some? && headers.value != [] && forall l <- headers.value :: l.key.Some? && l.value.Some?
  }

  function TxLinesIn(headers: seq<HeaderLine>): (lines: seq<TxLine>)
    ensures |lines| == |headers|
  {
    seq(|headers|, i requires 0 <= i < |headers| =>
      TxLine(headers[i].id, BytesIn(headers[i].key), BytesIn(headers[i].value)))
  }

  function KeyOf(f: Frame): StreamKey {
    StreamKey(f.channel, f.stream)
  }

  function DecodedHeader(f: Frame, lines: seq<Line>): RxFrame
    requires lines != []
  {
    Header(KeyOf(f), LengthOf(lines), f.body, IsFinal(f), Fits(CStr(lines[0].value)))
  }

  /** Body and control frames need no header lines. */
  function Decoded(f: Frame): RxFrame
    requires FRAME_BODY <= f.frametype <= FRAME_RESUME
  {
    if f.frametype == FRAME_BODY then Body(KeyOf(f), f.body, IsFinal(f))
    else Control(KeyOf(f), if f.frametype == FRAME_ABORT then Aborted
                           else if f.frametype == FRAME_PAUSE then Paused else Active)
  }

  /** A header frame adds one request, for its stream, and if it is accepted hands over its body or buffers it. */
  lemma HeaderAdds(s: State, f: RxFrame)
    requires f.Header? && (f.key in s.current ==> IsLive(s, s.current[f.key].request))
    ensures var (t, ok), n := Lifecycle.Recv(s, f), |s.requests|;
            && |t.requests| == n + 1 && t.requests[..n] == s.requests && t.requests[n].Live?
            && var r := t.requests[n].request;
               && r.key == f.key && r.contentLength == f.contentLength && r.state == Active
               && (ok ==> Serves(t, f.key, n) && t.frame.request == Some(n) && t.frame.isHeader)
               && (ok ==> t.frame.isLast == f.isFinal)
               && (ok ==> if r.isBuffered then r.body == BytesIn(f.body) else t.frame.body == BytesIn(f.body))
  {
    hide SendStep, Refuse;
    var t := s.(frame := NO_FRAME);
    var a := Arrived(t, f);
    RefuseBody(a, f.key, |s.requests|, STATUS_URI_TOO_LONG, f.key, 0);
    SendKeepsRequests(Register(a, f.key, |s.requests|), StatusOnly(f.key, STATUS_SERVICE_UNAVAILABLE));
  }

  lemma SendKeepsRequests(s: State, r: Response)
    requires Allowed(RegistrationOf(s, r.key), r)
    ensures SendStep(s, r).requests == s.requests
  {
    hide Emitted, Sent, Allowed;
  }

  ghost predicate SameStates(before: seq<Slot>, after: seq<Slot>) {
    && |before| == |after|
    && forall i :: 0 <= i < |before| ==>
         before[i].Live? == after[i].Live? && (before[i].Live? ==> before[i].request.state == after[i].request.state)
  }

  lemma BodyKeepsStates(s: State, f: RxFrame)
    requires f.Body? && (f.key in s.current ==> IsLive(s, s.current[f.key].request))
    ensures SameStates(s.requests, Lifecycle.Recv(s, f).0.requests)
    ensures f.key !in s.current ==> Lifecycle.Recv(s, f) == (s.(frame := NO_FRAME), false)
  {
    hide Buffers.Grown, Emitted, Sent, Allowed;
  }

  /** What each type of frame behind a header does to its stream, whatever it decodes to. */
  lemma FrameTypes(s: State, f: Frame)
    requires FRAME_BODY <= f.frametype <= FRAME_RESUME && Invariant(s)
    requires var key := StreamKey(f.channel, f.stream); key in s.current ==> IsLive(s, s.current[key].request)
    ensures var (t, ok), key := Lifecycle.Recv(s, Decoded(f)), StreamKey(f.channel, f.stream);
            && (key !in s.current ==> !ok && t == s.(frame := NO_FRAME))
            && (f.frametype == FRAME_BODY ==> SameStates(s.requests, t.requests))
            && (key in s.current ==>
                  var id := s.current[key].request;
                  && (f.frametype == FRAME_BODY && Unbuffered(s, id) ==>
                        ok && t == s.(frame := InFrame(Some(id), false, IsFinal(f), BytesIn(f.body))))
                  && (f.frametype != FRAME_BODY ==> ok && IsLive(t, id))
                  && (f.frametype == FRAME_ABORT ==>
                        t.current == s.current - {key} && RequestOf(t, id).state == Aborted)
                  && (f.frametype in {FRAME_PAUSE, FRAME_RESUME} ==>
                        && t.current == s.current
                        && RequestOf(t, id).state
                           == if RequestOf(s, id).state == Aborted then Aborted
                              else if f.frametype == FRAME_PAUSE then Paused else Active))
  {
    hide Lifecycle.RecvBody, Invariant;
    if f.frametype == FRAME_BODY {
      BodyKeepsStates(s, Decoded(f));
      if KeyOf(f) in s.current && Unbuffered(s, s.current[KeyOf(f)].request) {
        UnbufferedHandsOver(s, Decoded(f), s.current[KeyOf(f)].request);
      }
    }
  }

  lemma UnbufferedHandsOver(s: State, f: RxFrame, id: nat)
    requires f.Body? && Serves(s, f.key, id) && Unbuffered(s, id)
    ensures Lifecycle.Recv(s, f) == (s.(frame := InFrame(Some(id), false, f.isFinal, BytesIn(f.body))), true)
  {
  }

  lemma StreamIsLive(backend: Backend, key: StreamKey)
    requires backend.Valid()
    ensures Invariant(backend.Abstract())
    ensures key in backend.currentRequests ==> IsLive(backend.Abstract(), backend.currentRequests[key].request)
  {
    hide Invariant;
    if key in backend.currentRequests {
      RegisteredKey(backend.Abstract(), key);
    }
  }

  /**
  A frame of any known type, after all header lines received before it, makes the client take the step of Lifecycle
  that it decodes to. So an Abort closes its stream and marks the request, a Pause or Resume marks a request that is
  not aborted, a Body frame changes no request's state, and a Header frame begins a request for its stream.
  */
  method ReceiveFrame(backend: Backend, cache: HeaderCacheRecv, before: seq<TxLine>, f: Frame)
    returns (received: bool, after: seq<TxLine>, ghost lines: seq<Line>)
    requires backend.Valid() && !backend.panicked && cache.items == CacheAfter([], before)
    requires f.frametype <= FRAME_RESUME && (f.frametype == FRAME_HEADER ==> Complete(f.headers))
    requires f.frametype == FRAME_HEADER ==>
               var headers := TxLinesIn(f.headers.value);
               && BlockFits(cache.items, headers) && TotalHeaderBlockSize(cache.items, headers) < INT32_LIMIT
               && CanReadLength(ResolveAll(cache.items, headers))
    modifies backend, cache
    ensures backend.Valid() && cache.items == CacheAfter([], after)
    ensures after == before + if f.frametype == FRAME_HEADER then TxLinesIn(f.headers.value) else []
    ensures f.frametype == FRAME_HEADER ==>
              && |lines| == |f.headers.value|
              && (forall i :: 0 <= i < |lines| ==> lines[i] == Meaning(after[..|before| + i], after[|before| + i]))
    ensures var decoded := if f.frametype == FRAME_HEADER then DecodedHeader(f, lines) else Decoded(f);
            && Enabled(old(backend.Abstract()), Receive(decoded))
            && (backend.Abstract(), received) == Lifecycle.Recv(old(backend.Abstract()), decoded)
    ensures var key, was := StreamKey(f.channel, f.stream), old(backend.Abstract());
            if f.frametype == FRAME_HEADER then
              && |backend.requests| == |was.requests| + 1 && backend.requests[..|was.requests|] == was.requests
              && var slot := backend.requests[|was.requests|];
                 && slot.Live? && slot.request.key == key && slot.request.contentLength == LengthOf(lines)
                 && (received ==> Serves(backend.Abstract(), key, |was.requests|))
            else if key !in was.current then !received && backend.Abstract() == was.(frame := NO_FRAME)
            else if f.frametype == FRAME_BODY then SameStates(was.requests, backend.requests)
            else
              var id := was.current[key].request;
              && received && IsLive(was, id) && IsLive(backend.Abstract(), id)
              && backend.currentRequests == (if f.frametype == FRAME_ABORT then was.current - {key} else was.current)
              && backend.requests[id].request.state
                 == if f.frametype == FRAME_ABORT || was.requests[id].request.state == Aborted then Aborted
                    else if f.frametype == FRAME_PAUSE then Paused else Active
  {
    hide Lifecycle.Recv, CacheAfter, BlockFits, TotalHeaderBlockSize, ResolveAll, CanReadLength, Meaning;
    hide Fits, LengthOf, Backend.Valid, Packed, UriItems, IsBlock, CStr;
    if f.frametype == FRAME_HEADER {
      var headers := TxLinesIn(f.headers.value);
      var request, uri, contentLength, ok;
      request, uri, contentLength, ok, lines := ReceiveRequest(cache, before, headers);
      after := before + headers;
      assert forall i :: 0 <= i < |headers| ==>
               after[..|before| + i] == before + headers[..i] && after[|before| + i] == headers[i];
      StreamIsLive(backend, KeyOf(f));
      HeaderAdds(backend.Abstract(), DecodedHeader(f, lines));
      received := backend.Recv(Header(KeyOf(f), contentLength, f.body, IsFinal(f), ok));
    } else {
      after, lines := before + [], [];
      assert after == before;
      StreamIsLive(backend, KeyOf(f));
      FrameTypes(backend.Abstract(), f);
      received := backend.Recv(Decoded(f));
    }
  }
}
