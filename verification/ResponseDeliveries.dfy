/**
From the responses the client sends, on any number of streams over one connection, to what the HTTP client of one
stream is sent: every frame on the wire is built, sent, reassembled from any reads, and served by its stream's handler.
*/
module ResponseDeliveries {
  import opened Backends
  import opened Bytes
  import opened Decimals
  import opened FlatBufferBuilders
  import opened FrameSizes
  import opened Framing
  import opened HeaderBlocks
  import opened HttpTexts
  import opened Lifecycle
  import opened ResponseRuns
  import opened SentResponses
  import opened StreamResponses
  import opened TxFrames
  import Go = GoReassembly
  import Transports

  /** The bytes of a frame that shows what Lifecycle has on the wire, with these header lines. */
  ghost predicate Conveys(p: payload, w: WireFrame, lines: seq<Line>) {
    ReadFrame(p).Some? && Shows(ReadFrame(p).value, w) && LinesIn(ReadFrame(p).value) == lines && w.status >= 100
  }

  ghost predicate AllConvey(payloads: seq<payload>, wire: seq<WireFrame>, texts: seq<seq<Line>>) {
    |payloads| == |wire| == |texts| && forall i :: 0 <= i < |wire| ==> Conveys(payloads[i], wire[i], texts[i])
  }

  /** The header lines of one stream's frames. */
  function TextsFor(wire: seq<WireFrame>, texts: seq<seq<Line>>, key: StreamKey): seq<seq<Line>>
    requires |wire| == |texts|
  {
    if wire == [] then []
    else
      var n := |wire| - 1;
      TextsFor(wire[..n], texts[..n], key) + if wire[n].key == key then [texts[n]] else []
  }

  // ---------- sending ----------

  lemma OneMore(payloads: seq<payload>, wire: seq<WireFrame>, texts: seq<seq<Line>>, p: payload, lines: seq<Line>,
                reg: Registration, r: Response)
    requires AllConvey(payloads, wire, texts) && reg.Open? && Allowed(reg, r) && r.status >= 100
    requires ReadFrame(p).Some? && Shows(ReadFrame(p).value, Emitted(reg, r)[0])
    requires LinesIn(ReadFrame(p).value) == lines
    ensures AllConvey(payloads + [p], wire + Emitted(reg, r), texts + [lines])
  {
    hide ReadFrame, Shows, LinesIn;
    assert Emitted(reg, r) == [Emitted(reg, r)[0]];
    assert Conveys(p, Emitted(reg, r)[0], lines);
  }

  lemma NoneMore(wire: seq<WireFrame>, r: Response)
    ensures wire + Emitted(Finished, r) == wire
  {
  }

  /**
  Send on the client object: what goes to the transport conveys what its wire gets, for this response too, with the
  response's own headers. They are its headers before the call; a length is added if it has a body and announced none.
  */
  method Transmit(backend: Backend, response: HttpResponse, b: FlatBufferBuilder, ghost payloads: seq<payload>,
                  ghost texts: seq<seq<Line>>)
    returns (sent: bool, ghost now: seq<payload>, ghost nowTexts: seq<seq<Line>>)
    requires backend.Valid() && response.Valid() && CanRead(response.lines)
    requires AllConvey(payloads, backend.wire, texts)
    requires Allowed(RegistrationOf(backend.Abstract(), response.key), response.View())
    requires |response.BodyBytes()| <= MAX_BODY
    requires var lines := SentLines(response.status, response.lines, response.BodyBytes());
             Sendable(response.key, response.version, response.status, lines, response.body)
    requires b.Idle() && !b.finished && b.Contents() == [] && b.vtables == []
    modifies backend, response, b, b.vec, b.vec.buf
    ensures backend.Valid() && backend.Abstract() == SendStep(old(backend.Abstract()), old(response.View()))
    ensures AllConvey(now, backend.wire, nowTexts) && sent == (response.key in old(backend.currentRequests))
    ensures !sent ==> now == payloads && nowTexts == texts
    ensures sent ==> now != [] && now[..|now| - 1] == payloads && nowTexts == texts + [response.lines]
    ensures var was, body := old(response.lines), response.BodyBytes();
            response.lines ==
              if sent && response.status != STATUS_META_BODY_PART && body != [] && !HasName(was, CONTENT_LENGTH)
              then was + [Line(CONTENT_LENGTH, ContentLengthText(|body|))] else was
    ensures sent ==> b.Valid() && b.Contents() == FrameBytes(now[|now| - 1])
  {
    hide Backend.Valid, Announced, CanRead, ReadFrame, Shows, HttpResponse.Valid, FlatBufferBuilder.Idle;
    hide AllConvey, Emitted, ResponseFrame, HasName, ContentLengthText, LinesIn, CStr;
    ghost var was := response.lines;
    AnnouncesIff(was);
    ghost var wire, reg := backend.wire, RegistrationOf(backend.Abstract(), response.key);
    var contentLength := response.ContentLength();
    var view := Response(response.key, response.status, contentLength, response.BodyBytes(),
                         response.isFinalChunkedFrame);
    now, nowTexts := payloads, texts;
    if response.key in backend.currentRequests {
      var rs := backend.currentRequests[response.key];
      ghost var p, f;
      var after;
      after, p, f := SentResponses.Send(response, Open(rs.responseBodyRemaining, rs.isResponseHeaderSent), b);
      now := payloads + [p];
      nowTexts := texts + [response.lines];
      OneMore(payloads, wire, texts, p, response.lines, reg, view);
    } else {
      NoneMore(wire, view);
    }
    sent := backend.Send(view);
  }

  /** Some header has this name, as a C string. */
  ghost predicate HasName(lines: seq<Line>, name: bytes) {
    exists i :: 0 <= i < |lines| && CStr(lines[i].key) == name
  }

  lemma AnnouncesIff(lines: seq<Line>)
    ensures Announced(lines).Some? <==> HasName(lines, CONTENT_LENGTH)
  {
    hide CStr, FoundValue;
    FirstOneWins(lines, Line([], []), CONTENT_LENGTH);
  }

  /** The client's own refusals are responses without headers and body, and have such a frame too. */
  lemma RefusalConveyed(key: StreamKey, v: Version, status: nat) returns (p: payload)
    requires key.channel < U64_LIMIT && key.stream < U64_LIMIT && 100 <= status != STATUS_META_BODY_PART
    ensures Conveys(p, Emitted(Registered(), StatusOnly(key, status))[0], [])
  {
    hide ReadFrame, BuildFrame, Shows, FrameInRange, Sendable;
    var r := StatusOnly(key, status);
    NoLength();
    ResponseFrameShows(Registered(), r, v, [], None);
    ResponseFrameLines(key, v, status, [], None, IsLast(Registered(), r));
    var f := ResponseFrame(key, v, status, [], None, IsLast(Registered(), r));
    BareFrameSpan(key, v, status);
    SendableInRange(key, v, status, [], None, IsLast(Registered(), r));
    EveryFrameRoundTrips(f, 1);
    p := SmallPayload(BuildFrame(f, 1).value, f, 1);
  }

  lemma NoLength()
    ensures Announced([]) == None && SentLines(0, [], []) == []
  {
  }

  lemma BareFrameSpan(key: StreamKey, v: Version, status: nat)
    requires key.channel < U64_LIMIT && key.stream < U64_LIMIT && 100 <= status
    ensures Sendable(key, v, status, [], None)
  {
    var lines := [StatusKey(status)] + TxLinesOf([]);
    assert lines == [StatusKey(status)] && lines[..0] == [];
    assert LinesSpan(lines[..0]) == 0;
    StatusDigits(status);
  }

  // ---------- arriving ----------

  /** The frames of one stream, as the reading loop hands them to its handler. */
  function FramesFor(payloads: seq<payload>, key: StreamKey): seq<Frame> {
    if payloads == [] then []
    else
      var f := ReadFrame(payloads[|payloads| - 1]);
      FramesFor(payloads[..|payloads| - 1], key) +
      if f.Some? && StreamKey(f.value.channel, f.value.stream) == key then [f.value] else []
  }

  /** The frames have these header lines. */
  ghost predicate AllHave(frames: seq<Frame>, texts: seq<seq<Line>>) {
    |frames| <= |texts| && forall i :: 0 <= i < |frames| ==> LinesIn(frames[i]) == texts[i]
  }

  lemma LastConveyed(payloads: seq<payload>, wire: seq<WireFrame>, texts: seq<seq<Line>>)
    requires AllConvey(payloads, wire, texts)
    ensures |payloads| == |wire| == |texts|
    ensures payloads != [] ==>
              var n := |payloads| - 1;
              AllConvey(payloads[..n], wire[..n], texts[..n]) && Conveys(payloads[n], wire[n], texts[n])
  {
    hide Conveys;
  }

  lemma ShownKey(f: Frame, w: WireFrame)
    requires Shows(f, w)
    ensures StreamKey(f.channel, f.stream) == w.key
  {
    hide LinesIn;
  }

  lemma {:induction false} FramesForShow(
      payloads: seq<payload>, wire: seq<WireFrame>, texts: seq<seq<Line>>, key: StreamKey)
    requires AllConvey(payloads, wire, texts)
    ensures |FramesFor(payloads, key)| == |OnWire(wire, key)| == |TextsFor(wire, texts, key)|
    ensures AllShow(FramesFor(payloads, key), OnWire(wire, key))
    ensures AllHave(FramesFor(payloads, key), TextsFor(wire, texts, key))
    decreases |payloads|
  {
    hide ReadFrame, LinesIn, Shows, AllConvey;
    LastConveyed(payloads, wire, texts);
    if payloads != [] {
      var n := |payloads| - 1;
      FramesForShow(payloads[..n], wire[..n], texts[..n], key);
      ShownKey(ReadFrame(payloads[n]).value, wire[n]);
    }
  }

  lemma {:induction false} OnWirePrefix(wire: seq<WireFrame>, k: nat, key: StreamKey)
    requires k <= |wire|
    ensures OnWire(wire[..k], key) <= OnWire(wire, key)
    decreases |wire|
  {
    if k == |wire| {
      assert wire[..k] == wire;
    } else {
      var init := wire[..|wire| - 1];
      OnWirePrefix(init, k, key);
      assert init[..k] == wire[..k];
    }
  }

  lemma {:induction false} TextsPrefix(wire: seq<WireFrame>, texts: seq<seq<Line>>, k: nat, key: StreamKey)
    requires k <= |wire| == |texts|
    ensures TextsFor(wire[..k], texts[..k], key) <= TextsFor(wire, texts, key)
    decreases |wire|
  {
    if k == |wire| {
      assert wire[..k] == wire && texts[..k] == texts;
    } else {
      var n := |wire| - 1;
      TextsPrefix(wire[..n], texts[..n], k, key);
      assert wire[..n][..k] == wire[..k] && texts[..n][..k] == texts[..k];
    }
  }

  lemma AllHaveLonger(frames: seq<Frame>, texts: seq<seq<Line>>, longer: seq<seq<Line>>)
    requires AllHave(frames, texts) && texts <= longer
    ensures AllHave(frames, longer)
  {
    hide LinesIn;
  }

  lemma AllConveyPrefix(payloads: seq<payload>, wire: seq<WireFrame>, texts: seq<seq<Line>>, k: nat)
    requires AllConvey(payloads, wire, texts) && k <= |wire|
    ensures AllConvey(payloads[..k], wire[..k], texts[..k])
  {
    hide Conveys;
  }

  lemma AllShowLonger(frames: seq<Frame>, wire: seq<WireFrame>, longer: seq<WireFrame>)
    requires AllShow(frames, wire) && wire <= longer
    ensures AllShow(frames, longer)
  {
    hide Shows;
  }

  lemma NoEmptyPayload(payloads: seq<payload>, wire: seq<WireFrame>, texts: seq<seq<Line>>)
    requires AllConvey(payloads, wire, texts)
    ensures forall p <- payloads :: p != []
  {
    hide ReadFrame, Shows, LinesIn;
    Transports.NothingReads();
    forall p | p in payloads
      ensures p != []
    {
      var i :| 0 <= i < |payloads| && payloads[i] == p;
      assert Conveys(payloads[i], wire[i], texts[i]);
    }
  }

  /** What the server's reading loop has passed on for a stream shows the beginning of what the client sent on it. */
  lemma StreamArrives(
      payloads: seq<payload>, wire: seq<WireFrame>, texts: seq<seq<Line>>, wants: seq<nat>, key: StreamKey)
    requires AllConvey(payloads, wire, texts)
    ensures |wire| == |texts|
    ensures var frames := FramesFor(Go.Run(Go.Start(payloads), wants).delivered, key);
            && AllShow(frames, OnWire(wire, key)) && AllHave(frames, TextsFor(wire, texts, key))
            && (Go.Positive(wants) && |wants| >= |Flatten(payloads)| ==> |frames| == |OnWire(wire, key)|)
  {
    hide AllConvey, AllShow, AllHave, OnWire, TextsFor, FramesFor, Go.Run, Go.Ready, Flatten;
    Go.DeliveredExactly(payloads, wants);
    var c := Go.Run(Go.Start(payloads), wants);
    var k := |c.delivered|;
    assert c.delivered == payloads[..k];
    SameLength(payloads, wire, texts);
    AllConveyPrefix(payloads, wire, texts, k);
    FramesForShow(payloads[..k], wire[..k], texts[..k], key);
    OnWirePrefix(wire, k, key);
    AllShowLonger(FramesFor(c.delivered, key), OnWire(wire[..k], key), OnWire(wire, key));
    TextsPrefix(wire, texts, k, key);
    AllHaveLonger(FramesFor(c.delivered, key), TextsFor(wire[..k], texts[..k], key), TextsFor(wire, texts, key));
    if Go.Positive(wants) && |wants| >= |Flatten(payloads)| {
      NoEmptyPayload(payloads, wire, texts);
      Go.AllDelivered(payloads, wants);
      assert wire[..k] == wire;
    }
  }

  lemma SameLength(payloads: seq<payload>, wire: seq<WireFrame>, texts: seq<seq<Line>>)
    requires AllConvey(payloads, wire, texts)
    ensures |payloads| == |wire| == |texts|
  {
  }

  /**
  End to end. A stream is registered, and from then on neither registered anew, aborted nor refused, while anything
  happens on other streams; the frames of the connection reach the server in any pieces. Then the HTTP client has been
  sent the status of the stream's first response, its headers in order, all but "Content-Length: -1", and the bodies of
  its responses in order, as far as its frames have arrived. Enough reads bring all of them, and the answer is then
  finished exactly if the responses are.
  */
  lemma ResponsesReachClient(
      s: State, events: seq<Event>, key: StreamKey, payloads: seq<payload>, texts: seq<seq<Line>>, wants: seq<nat>)
    requires Legal(s, events) && Undisturbed(s, events, key)
    requires RegistrationOf(s, key) == Registered() && OnWire(s.wire, key) == []
    requires AllConvey(payloads, Run(s, events).wire, texts)
    requires Responses(events, key) != [] ==> Responses(events, key)[0].status < 1000
    ensures AllAllowed(Registered(), Responses(events, key))
    ensures |texts| == |Run(s, events).wire|
    ensures var rs, frames := Responses(events, key), FramesFor(Go.Run(Go.Start(payloads), wants).delivered, key);
            var sent, own := |EmittedAll(Registered(), rs)|, TextsFor(Run(s, events).wire, texts, key);
            && (forall f <- frames :: f.frametype == FRAME_HEADER ==> HasStatus(f)) && |frames| <= sent
            && var served := ServeAll(NOTHING_SERVED, frames);
            && (frames == [] ==> served == NOTHING_SERVED)
            && (frames != [] ==>
                  && served.status == Some(rs[0].status) && served.body == Bodies(rs, |frames|)
                  && own != [] && AllBut(own[0], MinusOneLine(), served.header)
                  && (served.done <==> |frames| == sent && RegistrationOf(Run(s, events), key).Finished?))
            && (Go.Positive(wants) && |wants| >= |Flatten(payloads)| ==> |frames| == sent)
  {
    hide Legal, Undisturbed, AllConvey, Shows, OnWire, FramesFor, EmittedAll, SentAll, AllAllowed, Bodies, ServeAll;
    hide Go.Run, Flatten, HasStatus, Kept, LinesIn, Run, TextsFor, AllBut;
    StreamOnWire(s, events, key);
    var rs, wire := Responses(events, key), Run(s, events).wire;
    var out := EmittedAll(Registered(), rs);
    assert OnWire(wire, key) == [] + out == out;
    StreamArrives(payloads, wire, texts, wants, key);
    var frames := FramesFor(Go.Run(Go.Start(payloads), wants).delivered, key);
    StreamServed(Registered(), rs, frames, NOTHING_SERVED);
    ServedFromNothing(frames, rs);
    if frames != [] {
      KeptIsAllBut(LinesIn(frames[0]));
    }
  }

  lemma ServedFromNothing(frames: seq<Frame>, rs: seq<Response>)
    requires |frames| <= |rs|
    ensures frames == [] ==> Bodies(rs, |frames|) == [] && ServeAll(NOTHING_SERVED, []) == NOTHING_SERVED
    ensures [] + Bodies(rs, |frames|) == Bodies(rs, |frames|)
    ensures frames != [] ==> [] + Kept(LinesIn(frames[0])) == Kept(LinesIn(frames[0]))
  {
  }

  /** The server's objects: the reading loop, and then the stream's handler on what the loop has passed on. */
  method ServeStream(reader: Go.FrameReader, w: ResponseWriter, ghost s: State, ghost events: seq<Event>,
                     key: StreamKey, payloads: seq<payload>, ghost texts: seq<seq<Line>>, wants: seq<nat>)
    returns (eof: bool)
    requires reader.Valid() && reader.State([]) == Go.Conn([], [], [], false) && w.Sent(false) == NOTHING_SERVED
    requires Legal(s, events) && Undisturbed(s, events, key)
    requires RegistrationOf(s, key) == Registered() && OnWire(s.wire, key) == []
    requires AllConvey(payloads, Run(s, events).wire, texts)
    requires Responses(events, key) != [] && Responses(events, key)[0].status < 1000
    requires Go.Positive(wants) && |wants| >= |Flatten(payloads)|
    modifies reader, reader.buf, w
    ensures AllAllowed(Registered(), Responses(events, key))
    ensures |texts| == |Run(s, events).wire|
    ensures var rs, own := Responses(events, key), TextsFor(Run(s, events).wire, texts, key);
            && own != [] && AllBut(own[0], MinusOneLine(), w.header)
            && w.status == Some(rs[0].status) && w.body == Bodies(rs, |EmittedAll(Registered(), rs)|)
            && (eof <==> RegistrationOf(Run(s, events), key).Finished?)
  {
    hide Legal, Undisturbed, AllConvey, OnWire, Run, FramesFor, ServeAll, Go.Run, Go.FrameReader.Valid, Flatten;
    hide HasStatus, Kept, LinesIn, TextsFor, AllBut;
    ResponsesReachClient(s, events, key, payloads, texts, wants);
    SomethingEmitted(Responses(events, key));
    var _ := reader.HandleBackendConnection(payloads, wants);
    eof := SendResponse(w, FramesFor(reader.delivered, key));
  }

  lemma SomethingEmitted(rs: seq<Response>)
    requires rs != [] && AllAllowed(Registered(), rs)
    ensures |EmittedAll(Registered(), rs)| > 0
  {
    ResponseRunSafety(rs);
  }
}
