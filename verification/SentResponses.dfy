/**
A response from the client's Send to the server's ResponseWriter: the frame that FinishFlatbuffer builds for it, and
what the server's handler makes of such frames.
*/
module SentResponses {
  import opened Bytes
  import opened Decimals
  import opened FlatBufferBuilders
  import opened FlatBufferTables
  import opened FlatBuffers
  import opened FrameAlignments
  import opened FrameSizes
  import opened Framing
  import opened HeaderBlocks
  import opened HttpTexts
  import opened ResponseRuns
  import opened Transports
  import opened TxFrames

  const MAX_BODY: nat := 1024 * 1024 * 1024

  // ---------- the frame of a response ----------

  function VersionNumber(v: Version): nat {
    match v
    case Http10 => 0
    case Http11 => 1
    case Http2 => 2
  }

  /** What the other side makes of it; other numbers are not versions. */
  function VersionOf(n: nat): Option<Version> {
    if n == 0 then Some(Http10) else if n == 1 then Some(Http11) else if n == 2 then Some(Http2) else None
  }

  lemma VersionTravels(v: Version)
    ensures VersionOf(VersionNumber(v)) == Some(v)
  {
  }

  function TxLineOf(line: Line): HeaderLine {
    HeaderLine(Some(line.key), Some(line.value), 0)
  }

  function TxLinesOf(lines: seq<Line>): (r: seq<HeaderLine>)
    ensures |r| == |lines|
  {
    seq(|lines|, i requires 0 <= i < |lines| => TxLineOf(lines[i]))
  }

  /** The status travels as the key of the first line. */
  function StatusKey(status: nat): HeaderLine {
    HeaderLine(Some(DecimalText(status, 4)), None, 0)
  }

  function ResponseFrame(
    key: StreamKey, v: Version, status: nat, lines: seq<Line>, body: Option<bytes>, isLast: bool): Frame
  {
    Frame(if status == STATUS_META_BODY_PART then FRAME_BODY else FRAME_HEADER, VersionNumber(v),
          if isLast then 1 else 0, key.channel, key.stream, Some([StatusKey(status)] + TxLinesOf(lines)), body)
  }

  /** Send adds the length of a body to a header response that does not announce one. */
  function SentLines(status: nat, lines: seq<Line>, body: bytes): seq<Line> {
    if status != STATUS_META_BODY_PART && Announced(lines).None? && body != [] then
      lines + [Line(CONTENT_LENGTH, ContentLengthText(|body|))]
    else lines
  }

  function LineIn(l: HeaderLine): Line {
    Line(BytesIn(l.key), BytesIn(l.value))
  }

  /** The header lines of a frame behind its first. */
  function LinesIn(f: Frame): seq<Line> {
    if f.headers.None? || f.headers.value == [] then []
    else seq(|f.headers.value| - 1, i requires 0 <= i < |f.headers.value| - 1 => LineIn(f.headers.value[i + 1]))
  }

  /** The frame says what Lifecycle has on the wire. */
  ghost predicate Shows(f: Frame, w: WireFrame) {
    && f.channel == w.key.channel && f.stream == w.key.stream
    && f.frametype == (if w.IsHeader() then FRAME_HEADER else FRAME_BODY)
    && f.headers.Some? && f.headers.value != [] && f.headers.value[0].key == Some(DecimalText(w.status, 4))
    && f.flags == (if w.isFinal then 1 else 0)
    && BytesIn(f.body) == w.body
    && Announced(LinesIn(f)) == w.contentLength
  }

  lemma ResponseFrameLines(
    key: StreamKey, v: Version, status: nat, lines: seq<Line>, body: Option<bytes>, isLast: bool)
    ensures LinesIn(ResponseFrame(key, v, status, lines, body, isLast)) == lines
  {
    var t := TxLinesOf(lines);
    assert ([StatusKey(status)] + t)[1..] == t;
    forall i | 0 <= i < |lines|
      ensures LineIn(([StatusKey(status)] + t)[i + 1]) == lines[i]
    {
      assert ([StatusKey(status)] + t)[i + 1] == t[i];
    }
  }

  /** No line of a response has an id, so no header cache is involved in reading it. */
  lemma ResponseLinesAreLiteral(
    key: StreamKey, v: Version, status: nat, lines: seq<Line>, body: Option<bytes>, isLast: bool)
    ensures forall l <- ResponseFrame(key, v, status, lines, body, isLast).headers.value :: l.id == 0
  {
    var t := TxLinesOf(lines);
    forall l | l in [StatusKey(status)] + t
      ensures l.id == 0
    {
      if l in t {
        var i :| 0 <= i < |t| && t[i] == l;
      }
    }
  }

  lemma SentLinesAnnounce(r: Response, lines: seq<Line>)
    requires r.contentLength == Announced(lines) && |r.body| <= MAX_BODY
    ensures Announced(SentLines(r.status, lines, r.body)) == HeaderOnWire(r)
  {
    hide CStr, FoundValue, ContentLengthText, SignedValue, AsUnsigned64;
    AnnouncedAfterAdd(lines, |r.body|);
    ContentLengthReadsBack(|r.body|);
  }

  /** Frame and wire agree for every response that Send accepts. */
  lemma ResponseFrameShows(reg: Registration, r: Response, v: Version, lines: seq<Line>, body: Option<bytes>)
    requires reg.Open? && Allowed(reg, r) && r.contentLength == Announced(lines) && r.body == BytesIn(body)
    requires |r.body| <= MAX_BODY
    ensures var f := ResponseFrame(r.key, v, r.status, SentLines(r.status, lines, r.body), body, IsLast(reg, r));
            Shows(f, Emitted(reg, r)[0])
  {
    hide Announced, SentLines, HeaderOnWire, IsLast, DecimalText, LinesIn;
    SentLinesAnnounce(r, lines);
    ResponseFrameLines(r.key, v, r.status, SentLines(r.status, lines, r.body), body, IsLast(reg, r));
  }

  /** A response that fits the size limits of the builder. */
  ghost predicate Sendable(key: StreamKey, v: Version, status: nat, lines: seq<Line>, body: Option<bytes>) {
    && key.channel < U64_LIMIT && key.stream < U64_LIMIT && 100 <= status
    && FrameSpan(ResponseFrame(key, v, status, lines, body, true)) < MAX_BUFFER
  }

  lemma SendableInRange(
    key: StreamKey, v: Version, status: nat, lines: seq<Line>, body: Option<bytes>, isLast: bool)
    requires Sendable(key, v, status, lines, body)
    ensures var f := ResponseFrame(key, v, status, lines, body, isLast);
            FrameInRange(f) && FrameSpan(f) < MAX_BUFFER
  {
    hide DecimalText, HeadersSpan;
    var all := [StatusKey(status)] + TxLinesOf(lines);
    forall l | l in all
      ensures LineInRange(l)
    {
      var i :| 0 <= i < |all| && all[i] == l;
      assert i > 0 ==> all[i] == TxLinesOf(lines)[i - 1];
    }
  }

  /**
  Builds the frame, with its size and the marker in front. The header index gets a terminator, so the response cannot
  be used afterwards.
  */
  method FinishFlatbuffer(response: HttpResponse, isLast: bool, b: FlatBufferBuilder) returns (ghost p: payload)
    requires response.Valid() && b.Idle() && !b.finished && b.Contents() == [] && b.vtables == []
    requires Sendable(response.key, response.version, response.status, response.lines, response.body)
    modifies response`headerIndex, b, b.vec, b.vec.buf
    ensures b.Valid() && b.Contents() == FrameBytes(p)
    ensures ReadFrame(p) == Some(ResponseFrame(
      response.key, response.version, response.status, response.lines, response.body, isLast))
    ensures FrameAligned(p)
  {
    hide Starts, Text, DecimalText, FrameSpan, BuildFrame, ReadFrame, FrameInRange, FrameAligned;
    SendableInRange(response.key, response.version, response.status, response.lines, response.body, isLast);
    var txlines := LinesToSend(response);
    var flags := if isLast then 1 else 0;
    var frametype := if response.status == STATUS_META_BODY_PART then FRAME_BODY else FRAME_HEADER;
    var frame := Frame(frametype, VersionNumber(response.version), flags, response.key.channel, response.key.stream,
                       Some(txlines), response.body);
    ghost var align := Max(b.minalign, FrameAlign(frame));
    b.BuildTxFrame(frame);
    p := SmallPayload(b.Contents(), frame, align);
    PrependFrameHeader(b);
  }

  lemma SmallPayload(c: bytes, f: Frame, align: nat) returns (p: payload)
    requires FrameInRange(f) && FrameSpan(f) < MAX_BUFFER
    requires PowerOfTwoWidth(align) && BuildFrame(f, align) == Some(c)
    ensures p == c
  {
    hide FrameSpan, BuildFrame, FrameInRange;
    SmallFrameBuilds(f, align);
    p := c;
  }

  /** The status line and every header, cut out of the header buffer. */
  method LinesToSend(response: HttpResponse) returns (txlines: seq<HeaderLine>)
    requires response.Valid() && 100 <= response.status
    modifies response`headerIndex
    ensures txlines == [StatusKey(response.status)] + TxLinesOf(response.lines)
  {
    hide Starts, Text, DecimalText;
    StatusDigits(response.status);
    var statusStr := DecimalText(response.status, 4);
    assert statusStr[..3] == statusStr;
    txlines := [HeaderLine(Some(statusStr[..3]), None, 0)];
    ghost var lines, was := response.lines, response.headerIndex;
    response.headerIndex := response.headerIndex + [|response.headerBuf|];
    var n := (|response.headerIndex| - 1) / 2;
    for i := 0 to n
      invariant |txlines| == i + 1 && txlines[0] == StatusKey(response.status)
      invariant forall j :: 1 <= j <= i ==> txlines[j] == TxLineOf(lines[j - 1])
      invariant response.headerIndex == was + [|response.headerBuf|]
    {
      HeaderInBuffer(lines, i);
      var start, value := response.headerIndex[2 * i], response.headerIndex[2 * i + 1];
      var keyLen := value - start - 1;
      var valLen := response.headerIndex[2 * i + 2] - value - 1;
      var line := HeaderLine(Some(response.headerBuf[start..start + keyLen]),
                             Some(response.headerBuf[value..value + valLen]), 0);
      txlines := txlines + [line];
    }
  }

  /**
  Backend::Send on a registered stream: the countdown goes on, or the stream ends, and the frame that reaches the
  transport shows exactly what Lifecycle has on the wire, with every header of the response.
  */
  method Send(response: HttpResponse, reg: Registration, b: FlatBufferBuilder)
    returns (after: Registration, ghost p: payload, ghost f: Frame)
    requires response.Valid() && CanRead(response.lines) && reg.Open? && Allowed(reg, response.View())
    requires |response.BodyBytes()| <= MAX_BODY
    requires var lines := SentLines(response.status, response.lines, response.BodyBytes());
             Sendable(response.key, response.version, response.status, lines, response.body)
    requires b.Idle() && !b.finished && b.Contents() == [] && b.vtables == []
    modifies response, b, b.vec, b.vec.buf
    ensures after == Sent(reg, old(response.View()))
    ensures b.Valid() && b.Contents() == FrameBytes(p) && ReadFrame(p) == Some(f)
    ensures Shows(f, Emitted(reg, old(response.View()))[0])
    ensures VersionOf(f.version) == Some(response.version)
    ensures LinesIn(f) == response.lines == SentLines(response.status, old(response.lines), response.BodyBytes())
  {
    hide Announced, Starts, Text, DecimalText, ContentLengthText, Sendable, ReadFrame, Shows, CanRead, LinesIn;
    hide VersionOf, VersionNumber;
    ghost var r, was := response.View(), response.lines;
    var remaining := reg.remaining;
    if response.status != STATUS_META_BODY_PART {
      var contentLen := response.ContentLength();
      if contentLen.Some? {
        remaining := contentLen.value;
      } else {
        remaining := |response.BodyBytes()|;
        if |response.BodyBytes()| != 0 {
          response.AddHeaderContentLength(|response.BodyBytes()|);
        }
      }
    }
    assert response.lines == SentLines(r.status, was, r.body);
    remaining := remaining - |response.BodyBytes()|;
    var isLast := remaining == 0 || response.isFinalChunkedFrame;
    after := if isLast then Finished else Open(remaining, true);
    ResponseFrameShows(reg, r, response.version, was, response.body);
    ResponseFrameLines(response.key, response.version, response.status, response.lines, response.body, isLast);
    VersionTravels(response.version);
    f := ResponseFrame(response.key, response.version, response.status, response.lines, response.body, isLast);
    p := FinishFlatbuffer(response, isLast, b);
  }

  // ---------- the server's handler ----------

  /** What the HTTP client is sent: status, the headers that were set, in order, body, and whether that is all. */
  datatype Served = Served(status: Option<int>, header: seq<Line>, body: bytes, done: bool)

  const NOTHING_SERVED := Served(None, [], [], false)

  /** strconv.Atoi, which is 0 for what is not a number. */
  function Atoi(s: bytes): int {
    var signed := s != [] && (s[0] == MINUS || s[0] == 43);
    var digits := if signed then s[1..] else s;
    if digits == [] || !Digits(digits) then 0 else if signed && s[0] == MINUS then -Value(digits) else Value(digits)
  }

  /** Digits stand for their number, with a sign or without. */
  lemma AtoiReads(digits: bytes)
    requires digits != [] && Digits(digits)
    ensures Atoi(digits) == Atoi([43] + digits) == Value(digits) && Atoi([45] + digits) == -Value(digits)
  {
    hide Value;
    assert ([43] + digits)[1..] == digits && ([45] + digits)[1..] == digits;
  }

  /** A text with a character that is no digit is no number. */
  lemma NotANumber(s: bytes, i: nat)
    requires i < |s| && !(48 <= s[i] <= 57) && (i == 0 ==> s[i] != MINUS && s[i] != 43)
    ensures Atoi(s) == 0
  {
    if s != [] && (s[0] == MINUS || s[0] == 43) {
      assert s[1..][i - 1] == s[i];
    }
  }

  /** The chunked marker is not for the HTTP client. */
  predicate IsChunkedMark(line: Line) {
    line.key == CONTENT_LENGTH && line.value == [MINUS, 49]
  }

  function Kept(lines: seq<Line>): seq<Line> {
    if lines == [] then []
    else Kept(lines[..|lines| - 1]) + if IsChunkedMark(lines[|lines| - 1]) then [] else [lines[|lines| - 1]]
  }

  ghost predicate Increasing(at: seq<nat>) {
    forall i, j :: 0 <= i < j < |at| ==> at[i] < at[j]
  }

  /** kept are the lines that are not mark, each once and in order: at says where they stand. */
  ghost predicate PicksAllBut(lines: seq<Line>, mark: Line, kept: seq<Line>, at: seq<nat>) {
    && |at| == |kept| && Increasing(at)
    && (forall j :: 0 <= j < |at| ==> at[j] < |lines| && kept[j] == lines[at[j]])
    && (forall i :: 0 <= i < |lines| ==> (i in at <==> lines[i] != mark))
  }

  ghost predicate AllBut(lines: seq<Line>, mark: Line, kept: seq<Line>) {
    exists at: seq<nat> :: PicksAllBut(lines, mark, kept, at)
  }

  /** "Content-Length: -1" */
  function MinusOneLine(): Line {
    Line(CONTENT_LENGTH, [45, 49])
  }

  lemma {:induction false} KeptPicks(lines: seq<Line>) returns (at: seq<nat>)
    ensures PicksAllBut(lines, MinusOneLine(), Kept(lines), at)
    decreases |lines|
  {
    if lines == [] {
      at := [];
    } else {
      var n := |lines| - 1;
      var before := KeptPicks(lines[..n]);
      at := if lines[n] != MinusOneLine() then before + [n] else before;
      PicksOneMore(lines, Kept(lines[..n]), before);
    }
  }

  lemma PicksOneMore(lines: seq<Line>, kept: seq<Line>, at: seq<nat>)
    requires lines != [] && PicksAllBut(lines[..|lines| - 1], MinusOneLine(), kept, at)
    ensures var n := |lines| - 1;
            if lines[n] != MinusOneLine() then PicksAllBut(lines, MinusOneLine(), kept + [lines[n]], at + [n])
            else PicksAllBut(lines, MinusOneLine(), kept, at)
  {
    hide MinusOneLine;
    var n := |lines| - 1;
    assert forall i :: 0 <= i < n ==> lines[i] == lines[..n][i];
    assert n !in at;
  }

  /** Only the chunked mark is dropped: all other headers are kept, in order. */
  lemma KeptIsAllBut(lines: seq<Line>)
    ensures AllBut(lines, MinusOneLine(), Kept(lines))
  {
    var at := KeptPicks(lines);
  }

  lemma {:induction false} KeptIsAll(lines: seq<Line>)
    ensures |Kept(lines)| <= |lines| && (Kept(lines) == lines <==> MinusOneLine() !in lines)
    decreases |lines|
  {
    if lines != [] {
      var n := |lines| - 1;
      KeptIsAll(lines[..n]);
      assert lines == lines[..n] + [lines[n]];
    }
  }

  predicate HasStatus(f: Frame) {
    f.headers.Some? && f.headers.value != [] && f.headers.value[0].key.Some? && |f.headers.value[0].key.value| >= 3
  }

  function Serve(s: Served, f: Frame): Served
    requires f.frametype == FRAME_HEADER ==> HasStatus(f)
  {
    if f.frametype == FRAME_ABORT then s.(done := true)
    else
      var t := if f.frametype != FRAME_HEADER then s
               else s.(status := Some(Atoi(f.headers.value[0].key.value[..3])), header := s.header + Kept(LinesIn(f)));
      t.(body := s.body + BytesIn(f.body), done := IsFinal(f))
  }

  class ResponseWriter {
    var status: Option<int>
    var header: seq<Line>
    var body: bytes

    constructor ()
      ensures Sent(false) == NOTHING_SERVED
    {
      status, header, body := None, [], [];
    }

    ghost function Sent(done: bool): Served
      reads this
    {
      Served(status, header, body, done)
    }
  }

  lemma KeptStep(lines: seq<Line>, i: nat)
    requires i < |lines|
    ensures Kept(lines[..i + 1]) == Kept(lines[..i]) + if IsChunkedMark(lines[i]) then [] else [lines[i]]
  {
    assert lines[..i + 1][..i] == lines[..i];
  }

  /** sendResponseFrame, whose result says that the stream is finished. */
  method SendResponseFrame(w: ResponseWriter, frame: Frame) returns (eof: bool)
    requires frame.frametype == FRAME_HEADER ==> HasStatus(frame)
    modifies w
    ensures w.Sent(eof) == Serve(old(w.Sent(false)), frame)
  {
    hide Atoi, Kept, IsChunkedMark;
    if frame.frametype == FRAME_ABORT {
      return true;
    }
    if frame.frametype == FRAME_HEADER {
      var codeStr := frame.headers.value[0].key.value[..3];
      var statusCode := Atoi(codeStr);
      ghost var lines, was := LinesIn(frame), w.header;
      assert lines[..0] == [] && Kept([]) == [] by {
        KeptNothing();
      }
      for i := 1 to |frame.headers.value|
        invariant w.header == was + Kept(lines[..i - 1]) && w.status == old(w.status) && w.body == old(w.body)
      {
        var line := LineIn(frame.headers.value[i]);
        KeptStep(lines, i - 1);
        if !IsChunkedMark(line) {
          w.header := w.header + [line];
        }
      }
      assert lines[..|lines|] == lines;
      w.status := Some(statusCode);
    }
    w.body := w.body + if frame.body.Some? then frame.body.value else [];
    eof := IsFinal(frame);
  }

  lemma KeptNothing()
    ensures Kept([]) == []
  {
  }

  /** The handler takes one frame after the other until the stream is finished. */
  function ServeAll(s: Served, frames: seq<Frame>): Served
    requires forall f <- frames :: f.frametype == FRAME_HEADER ==> HasStatus(f)
    decreases |frames|
  {
    if s.done || frames == [] then s else ServeAll(Serve(s, frames[0]), frames[1..])
  }

  lemma {:induction false} ServeInParts(s: Served, frames: seq<Frame>, more: seq<Frame>)
    requires forall f <- frames + more :: f.frametype == FRAME_HEADER ==> HasStatus(f)
    ensures forall f <- frames :: f.frametype == FRAME_HEADER ==> HasStatus(f)
    ensures forall f <- more :: f.frametype == FRAME_HEADER ==> HasStatus(f)
    ensures ServeAll(s, frames + more) == ServeAll(ServeAll(s, frames), more)
    decreases |frames|
  {
    hide Serve, HasStatus;
    assert forall f <- frames :: f in frames + more;
    assert forall f <- more :: f in frames + more;
    if frames == [] {
      assert frames + more == more;
    } else if !s.done {
      assert (frames + more)[1..] == frames[1..] + more;
      ServeInParts(Serve(s, frames[0]), frames[1..], more);
    }
  }

  /** An Abort frame ends the answer where it is, whatever else the frame holds and whatever follows it. */
  lemma AbortEnds(s: Served, frames: seq<Frame>, abort: Frame, more: seq<Frame>)
    requires forall f <- frames + ([abort] + more) :: f.frametype == FRAME_HEADER ==> HasStatus(f)
    requires abort.frametype == FRAME_ABORT
    ensures forall f <- frames :: f.frametype == FRAME_HEADER ==> HasStatus(f)
    ensures ServeAll(s, frames + ([abort] + more)) == ServeAll(s, frames).(done := true)
  {
    hide HasStatus;
    ServeInParts(s, frames, [abort] + more);
    var t := ServeAll(s, frames);
    assert ([abort] + more)[0] == abort;
  }

  method SendResponse(w: ResponseWriter, frames: seq<Frame>) returns (eof: bool)
    requires forall f <- frames :: f.frametype == FRAME_HEADER ==> HasStatus(f)
    modifies w
    ensures w.Sent(eof) == ServeAll(old(w.Sent(false)), frames)
  {
    hide Serve, HasStatus;
    eof := false;
    var i := 0;
    assert frames[0..] == frames;
    while i < |frames| && !eof
      invariant 0 <= i <= |frames|
      invariant ServeAll(w.Sent(eof), frames[i..]) == ServeAll(old(w.Sent(false)), frames)
    {
      assert frames[i..][0] == frames[i] && frames[i..][1..] == frames[i + 1..];
      eof := SendResponseFrame(w, frames[i]);
      i := i + 1;
    }
  }

  // ---------- end to end ----------

  /** The frames show the beginning of what is on the wire. */
  ghost predicate AllShow(frames: seq<Frame>, wire: seq<WireFrame>) {
    |frames| <= |wire| && forall i :: 0 <= i < |frames| ==> Shows(frames[i], wire[i]) && wire[i].status >= 100
  }

  lemma ShownHasStatus(f: Frame, w: WireFrame)
    requires Shows(f, w) && w.status >= 100
    ensures HasStatus(f)
  {
    hide DecimalText, LinesIn, Announced;
    StatusDigits(w.status);
  }

  lemma AllShowStatus(frames: seq<Frame>, wire: seq<WireFrame>)
    requires AllShow(frames, wire)
    ensures forall f <- frames :: f.frametype == FRAME_HEADER ==> HasStatus(f)
  {
    hide Shows, HasStatus;
    forall f | f in frames
      ensures HasStatus(f)
    {
      var i :| 0 <= i < |frames| && frames[i] == f;
      ShownHasStatus(f, wire[i]);
    }
  }

  lemma StatusReadsBack(status: nat)
    requires 100 <= status < 1000
    ensures |DecimalText(status, 4)| == 3 && Atoi(DecimalText(status, 4)) == status
  {
    hide DecimalText, Value;
    StatusDigits(status);
    DecimalTextDigits(status, 4);
    TextValue(status, 4);
    assert Pow10(3) == 1000;
  }

  /** The bodies of the first n responses. */
  function Bodies(rs: seq<Response>, n: nat): (b: bytes)
    requires n <= |rs|
    ensures |b| == BodyTotal(rs, n)
  {
    if n == 0 then [] else rs[0].body + Bodies(rs[1..], n - 1)
  }

  lemma ServeShown(s: Served, f: Frame, w: WireFrame)
    requires !s.done && Shows(f, w) && w.status >= 100 && (w.IsHeader() ==> w.status < 1000)
    requires f.frametype == FRAME_HEADER ==> HasStatus(f)
    ensures Serve(s, f)
         == if w.IsHeader() then Served(Some(w.status), s.header + Kept(LinesIn(f)), s.body + w.body, w.isFinal)
            else Served(s.status, s.header, s.body + w.body, w.isFinal)
  {
    hide DecimalText, LinesIn, Announced, Kept, Atoi;
    if w.IsHeader() {
      StatusReadsBack(w.status);
      var key := f.headers.value[0].key.value;
      assert key[..3] == key;
    }
  }

  lemma NoBodies(rs: seq<Response>)
    ensures Bodies(rs, 0) == []
  {
  }

  lemma BodiesStep(before: bytes, rs: seq<Response>, n: nat)
    requires 0 < n <= |rs|
    ensures before + Bodies(rs, n) == before + rs[0].body + Bodies(rs[1..], n - 1)
    ensures n == 1 ==> Bodies(rs[1..], n - 1) == []
  {
    var r, more := rs[0].body, Bodies(rs[1..], n - 1);
    assert before + (r + more) == before + r + more;
  }

  lemma ShowRest(reg: Registration, rs: seq<Response>, frames: seq<Frame>)
    requires reg.Open? && rs != [] && AllAllowed(reg, rs) && frames != [] && AllShow(frames, EmittedAll(reg, rs))
    ensures AllShow(frames[1..], EmittedAll(Sent(reg, rs[0]), rs[1..]))
    ensures |EmittedAll(reg, rs)| == 1 + |EmittedAll(Sent(reg, rs[0]), rs[1..])|
  {
    hide Shows;
    var tail := EmittedAll(Sent(reg, rs[0]), rs[1..]);
    assert EmittedAll(reg, rs)[1..] == tail;
  }

  /**
  What the HTTP client gets of a stream's frames, from any point of the responses on: the status and headers of the
  first response, if they are still to come, then the bodies in order; and the answer is finished exactly if all frames
  of finished responses have come.
  */
  lemma {:induction false} StreamServed(reg: Registration, rs: seq<Response>, frames: seq<Frame>, s: Served)
    requires reg.Open? && AllAllowed(reg, rs) && AllShow(frames, EmittedAll(reg, rs)) && !s.done
    requires rs != [] && !reg.isResponseHeaderSent ==> rs[0].status < 1000
    ensures forall f <- frames :: f.frametype == FRAME_HEADER ==> HasStatus(f)
    ensures var t := if reg.isResponseHeaderSent || frames == [] then s
                     else s.(status := Some(rs[0].status), header := s.header + Kept(LinesIn(frames[0])));
            ServeAll(s, frames) == t.(body := s.body + Bodies(rs, |frames|),
                                      done := |frames| == |EmittedAll(reg, rs)| && SentAll(reg, rs).Finished?)
    decreases |rs|
  {
    hide Shows, HasStatus, Serve, LinesIn, Kept, Bodies, HeaderOnWire, Owed, IsLast;
    AllShowStatus(frames, EmittedAll(reg, rs));
    if frames == [] {
      assert Bodies(rs, 0) == [] by {
        NoBodies(rs);
      }
      assert s.body + [] == s.body;
    } else {
      var r, rest, next := rs[0], rs[1..], Sent(reg, rs[0]);
      var t := Serve(s, frames[0]);
      ServeShown(s, frames[0], Emitted(reg, r)[0]);
      BodiesStep(s.body, rs, |frames|);
      if next.Finished? {
        NothingAfterFinished(rest);
        assert frames[1..] == [];
      } else {
        ShowRest(reg, rs, frames);
        StreamServed(next, rest, frames[1..], t);
      }
    }
  }

  /** ... and a finished answer without flagged parts has exactly the announced number of bytes. */
  lemma CompleteBody(rs: seq<Response>)
    requires rs != [] && AllAllowed(Registered(), rs) && SentAll(Registered(), rs).Finished?
    requires forall r <- rs :: !r.isFinalChunkedFrame
    ensures |Bodies(rs, |EmittedAll(Registered(), rs)|)| == Declared(rs[0])
  {
    hide IsRun;
    ResponseRunSafety(rs);
    var out := EmittedAll(Registered(), rs);
    RunAt(rs, out, |out| - 1, Declared(rs[0]));
  }

  lemma RunAt(rs: seq<Response>, out: seq<WireFrame>, i: nat, length: nat)
    requires IsRun(rs, out, length) && i < |out|
    ensures Carries(rs, out, i, length)
  {
  }
}
