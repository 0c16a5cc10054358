/** A response as HTTP/1 text: the headers it collects, and its serialization into a buffer of precomputed size. */
module HttpTexts {
  import opened Bytes
  import opened HeaderBlocks
  import opened Decimals
  import opened HttpChars
  import opened NthMatches
  import opened ResponseRuns

  /** "Content-Length" */
  const CONTENT_LENGTH: bytes := [67, 111, 110, 116, 101, 110, 116, 45, 76, 101, 110, 103, 116, 104]

  const MAX_HEADER_KEY_LEN: nat := 1024
  const MAX_HEADER_VALUE_LEN: nat := 1024 * 1024

  datatype Version = Http10 | Http11 | Http2

  // ---------- the text ----------

  function FieldText(line: Line): (t: bytes)
    ensures |t| == |line.key| + |line.value| + 4
  {
    line.key + [COLON, SP] + line.value + CRLF
  }

  function FieldsText(lines: seq<Line>): bytes {
    if lines == [] then [] else FieldText(lines[0]) + FieldsText(lines[1..])
  }

  /** "HTTP/1.0 " or "HTTP/1.1 " */
  function VersionText(v: Version): (t: bytes)
    requires v != Http2
    ensures |t| == 9
  {
    [72, 84, 84, 80, 47, 49, 46, if v == Http10 then 48 else 49, SP]
  }

  function StatusLine(v: Version, status: nat, reason: bytes): bytes
    requires v != Http2
  {
    VersionText(v) + DecimalText(status, 4) + [SP] + reason + CRLF
  }

  function Message(v: Version, status: nat, reason: bytes, lines: seq<Line>, body: bytes): bytes
    requires v != Http2
  {
    StatusLine(v, status, reason) + FieldsText(lines) + CRLF + body
  }

  /** Without a Content-Length header, one with the body's length is added last. */
  function WithContentLength(lines: seq<Line>, bodyLen: nat): seq<Line> {
    if exists i :: 0 <= i < |lines| && CStr(lines[i].key) == CONTENT_LENGTH then lines
    else lines + [Line(CONTENT_LENGTH, DecimalText(bodyLen, 11))]
  }

  lemma {:induction false} FieldsTextAppend(lines: seq<Line>, line: Line)
    ensures FieldsText(lines + [line]) == FieldsText(lines) + FieldText(line)
  {
    hide FieldText;
    if lines == [] {
      assert lines + [line] == [line] && [line][1..] == [];
      assert FieldsText([]) == [];
    } else {
      assert (lines + [line])[1..] == lines[1..] + [line];
      FieldsTextAppend(lines[1..], line);
      var first, rest := FieldText(lines[0]), FieldsText(lines[1..]);
      assert first + (rest + FieldText(line)) == first + rest + FieldText(line);
    }
  }

  /** A header costs two bytes more on the wire than in the header buffer, whose terminators it does not send. */
  lemma {:induction false} FieldsTextSize(lines: seq<Line>)
    ensures |FieldsText(lines)| == |Text(lines)| + 2 * |lines|
  {
    if lines != [] {
      FieldsTextSize(lines[1..]);
    }
  }

  // ---------- the header buffer ----------

  /** key 0 start, value 0 start, key 1 start, ... */
  function Starts(lines: seq<Line>, at: nat): (s: seq<nat>)
    ensures |s| == 2 * |lines|
  {
    if lines == [] then []
    else [at, at + |lines[0].key| + 1] + Starts(lines[1..], at + |Item(lines[0])|)
  }

  lemma Associative(a: seq<nat>, b: seq<nat>, c: seq<nat>)
    ensures a + (b + c) == a + b + c
  {
  }

  lemma StartsFirst(line: Line, rest: seq<Line>, at: nat)
    ensures Starts([line] + rest, at) == [at, at + |line.key| + 1] + Starts(rest, at + |Item(line)|)
    ensures |Text([line] + rest)| == |Item(line)| + |Text(rest)|
  {
    assert ([line] + rest)[1..] == rest;
  }

  lemma NoStarts(at: nat)
    ensures Starts([], at) == [] && Text([]) == []
  {
  }

  lemma {:induction false} StartsAppend(lines: seq<Line>, line: Line, at: nat)
    ensures Starts(lines + [line], at) == Starts(lines, at) + [at + |Text(lines)|, at + |Text(lines)| + |line.key| + 1]
  {
    hide Item, Starts, Text;
    if lines == [] {
      assert lines + [line] == [line] + [];
      StartsFirst(line, [], at);
      NoStarts(at);
      NoStarts(at + |Item(line)|);
    } else {
      var rest, next := lines[1..], at + |Item(lines[0])|;
      assert lines == [lines[0]] + rest && lines + [line] == [lines[0]] + (rest + [line]);
      StartsFirst(lines[0], rest, at);
      StartsFirst(lines[0], rest + [line], at);
      StartsAppend(rest, line, next);
      var end := next + |Text(rest)|;
      Associative([at, at + |lines[0].key| + 1], Starts(rest, next), [end, end + |line.key| + 1]);
    }
  }

  lemma {:induction false} StartsAt(lines: seq<Line>, at: nat, i: nat)
    requires i < |lines|
    ensures Starts(lines, at)[2 * i] == at + |Text(lines[..i])|
    ensures Starts(lines, at)[2 * i + 1] == at + |Text(lines[..i])| + |lines[i].key| + 1
  {
    hide Item, Starts, Text;
    if i == 0 {
      NoStarts(at);
      assert lines[..0] == [] && lines == [lines[0]] + lines[1..];
      StartsFirst(lines[0], lines[1..], at);
    } else {
      var next := at + |Item(lines[0])|;
      var rest := Starts(lines[1..], next);
      StartsAt(lines[1..], next, i - 1);
      assert lines[..i] == [lines[0]] + lines[1..][..i - 1] && lines == [lines[0]] + lines[1..];
      StartsFirst(lines[0], lines[1..][..i - 1], at);
      StartsFirst(lines[0], lines[1..], at);
      IndexBehindPair(at, at + |lines[0].key| + 1, rest, i);
    }
  }

  lemma IndexBehindPair(a: nat, b: nat, rest: seq<nat>, i: nat)
    requires 0 < i && 2 * i < |rest| + 1
    ensures ([a, b] + rest)[2 * i] == rest[2 * (i - 1)] && ([a, b] + rest)[2 * i + 1] == rest[2 * (i - 1) + 1]
  {
  }

  /** Where header i's value ends in the buffer. */
  function ValueTop(headerIndex: seq<nat>, headerBuf: bytes, i: nat): nat {
    if 2 * i + 2 >= |headerIndex| then |headerBuf| else headerIndex[2 * i + 2]
  }

  /** What the two start lists and the buffer say about header i. */
  lemma HeaderInBuffer(lines: seq<Line>, i: nat)
    requires i < |lines|
    ensures var s, buf := Starts(lines, 0), Text(lines);
            && s[2 * i] <= s[2 * i + 1] <= ValueTop(s, buf, i) <= |buf|
            && s[2 * i + 1] == s[2 * i] + |lines[i].key| + 1
            && ValueTop(s, buf, i) == s[2 * i + 1] + |lines[i].value| + 1
            && Bytes.Holds(buf, s[2 * i], lines[i].key) && Bytes.Holds(buf, s[2 * i + 1], lines[i].value)
  {
    hide Text, Starts;
    var s, buf := Starts(lines, 0), Text(lines);
    StartsAt(lines, 0, i);
    TextAt(lines, i);
    if i + 1 < |lines| {
      StartsAt(lines, 0, i + 1);
    } else {
      assert lines[..i + 1] == lines;
    }
    ItemParts(buf, s[2 * i], lines[i]);
  }

  // ---------- the length a response announces ----------

  /** Which headers have this key, compared as C strings. */
  function KeyMarks(lines: seq<Line>, name: bytes): (marks: seq<bool>)
    ensures |marks| == |lines|
  {
    seq(|lines|, i requires 0 <= i < |lines| => CStr(lines[i].key) == name)
  }

  /** The value that a lookup finds, as the C string it is read as. */
  function FoundValue(lines: seq<Line>, name: bytes, nth: int): Option<bytes> {
    match FindNth(KeyMarks(lines, name), 0, nth)
    case None => None
    case Some(i) => Some(CStr(lines[i].value))
  }

  /** The Content-Length of a response, as Send reads it. */
  function Announced(lines: seq<Line>): Option<nat> {
    match FoundValue(lines, CONTENT_LENGTH, 0)
    case None => None
    case Some(text) => Some(AsUnsigned64(SignedValue(text)))
  }

  /** What Send does with a Content-Length is defined: atoi64 does not overflow on it. */
  ghost predicate CanRead(lines: seq<Line>) {
    var text := FoundValue(lines, CONTENT_LENGTH, 0);
    text.Some? ==> NoOverflow(text.value)
  }

  lemma KeyMarksAppend(lines: seq<Line>, line: Line, name: bytes)
    ensures KeyMarks(lines + [line], name) == KeyMarks(lines, name) + [CStr(line.key) == name]
  {
    hide CStr;
  }

  /** A header added last is found by its name only if no earlier one has that name: the first one wins. */
  lemma FirstOneWins(lines: seq<Line>, line: Line, name: bytes)
    ensures var was, now := FoundValue(lines, name, 0), FoundValue(lines + [line], name, 0);
            now == if was.Some? then was else if CStr(line.key) == name then Some(CStr(line.value)) else None
    ensures FoundValue(lines, name, 0).Some? <==> exists i :: 0 <= i < |lines| && CStr(lines[i].key) == name
  {
    hide CStr, FindNth;
    var marks := KeyMarks(lines, name);
    KeyMarksAppend(lines, line, name);
    FindFirstAppend(marks, CStr(line.key) == name, 0);
    FindFirst(marks, 0);
    assert forall i :: 0 <= i < |lines| ==> marks[i] == (CStr(lines[i].key) == name);
  }

  /** How many headers have this name. */
  function CountNamed(lines: seq<Line>, name: bytes): nat {
    if lines == [] then 0
    else CountNamed(lines[..|lines| - 1], name) + if CStr(lines[|lines| - 1].key) == name then 1 else 0
  }

  lemma {:induction false} NoneNamed(lines: seq<Line>, name: bytes)
    ensures CountNamed(lines, name) == 0 <==> FoundValue(lines, name, 0).None?
    decreases |lines|
  {
    hide CStr, FoundValue;
    FirstOneWins(lines, Line([], []), name);
    if lines != [] {
      var n := |lines| - 1;
      NoneNamed(lines[..n], name);
      FirstOneWins(lines[..n], lines[n], name);
      assert lines[..n] + [lines[n]] == lines;
    } else {
      NothingFound(name);
    }
  }

  lemma NothingFound(name: bytes)
    ensures FoundValue([], name, 0).None?
  {
  }

  /** A message has a Content-Length: those its headers have, or else the body's length. */
  lemma MessageHasLength(lines: seq<Line>, bodyLen: nat)
    ensures var all := WithContentLength(lines, bodyLen);
            && lines <= all
            && CountNamed(all, CONTENT_LENGTH) == Max(CountNamed(lines, CONTENT_LENGTH), 1)
            && FoundValue(all, CONTENT_LENGTH, 0)
               == if CountNamed(lines, CONTENT_LENGTH) > 0 then FoundValue(lines, CONTENT_LENGTH, 0)
                  else Some(DecimalText(bodyLen, 11))
  {
    hide CStr, FoundValue, DecimalText;
    var line := Line(CONTENT_LENGTH, DecimalText(bodyLen, 11));
    FirstOneWins(lines, line, CONTENT_LENGTH);
    NoneNamed(lines, CONTENT_LENGTH);
    NameIsCString();
    LengthIsCString(bodyLen, 11);
    assert (lines + [line])[..|lines|] == lines;
  }

  lemma LengthIsCString(n: nat, size: nat)
    requires size > 0
    ensures CStr(DecimalText(n, size)) == DecimalText(n, size)
  {
    hide CStr, DecimalText;
    DecimalTextDigits(n, size);
    CStrOfNulFree(DecimalText(n, size));
  }

  lemma NameIsCString()
    ensures CStr(CONTENT_LENGTH) == CONTENT_LENGTH
  {
    assert NulFree(CONTENT_LENGTH);
    CStrOfNulFree(CONTENT_LENGTH);
  }

  lemma {:induction false} CStrOfNulFree(b: bytes)
    requires NulFree(b)
    ensures CStr(b) == b
  {
    if b != [] {
      CStrOfNulFree(b[1..]);
    }
  }

  lemma TextIsCString(n: nat)
    ensures CStr(ContentLengthText(n)) == ContentLengthText(n)
  {
    hide CStr, DecimalText;
    DecimalTextDigits(n, 21);
    CStrOfNulFree(ContentLengthText(n));
  }

  lemma AnnouncedAfterAdd(lines: seq<Line>, n: nat)
    ensures var all := lines + [Line(CONTENT_LENGTH, ContentLengthText(n))];
            FoundValue(all, CONTENT_LENGTH, 0) ==
              if FoundValue(lines, CONTENT_LENGTH, 0).Some? then FoundValue(lines, CONTENT_LENGTH, 0)
              else Some(ContentLengthText(n))
  {
    hide CStr, FoundValue, ContentLengthText;
    FirstOneWins(lines, Line(CONTENT_LENGTH, ContentLengthText(n)), CONTENT_LENGTH);
    NameIsCString();
    TextIsCString(n);
  }

  /** What Send makes of a response with these headers. */
  function ResponseWith(
    key: StreamKey, status: nat, lines: seq<Line>, body: bytes, isFinalChunkedFrame: bool): Response
  {
    Response(key, status, Announced(lines), body, isFinalChunkedFrame)
  }

  /**
  A first response whose headers end with the Content-Length that AddHeader_ContentLength(n) adds: without an earlier
  one it owes exactly n bytes, for every n that can be read back; otherwise it owes what the earlier one says.
  */
  lemma AnnouncedLengthIsOwed(key: StreamKey, status: nat, lines: seq<Line>, body: bytes, isFinal: bool, n: nat)
    requires status != STATUS_META_BODY_PART && n < U64_LIMIT
    ensures var all := lines + [Line(CONTENT_LENGTH, ContentLengthText(n))];
            var earlier := exists i :: 0 <= i < |lines| && CStr(lines[i].key) == CONTENT_LENGTH;
            var was := Owed(Registered(), ResponseWith(key, status, lines, body, isFinal));
            var now := Owed(Registered(), ResponseWith(key, status, all, body, isFinal));
            && (earlier ==> now == was)
            && (!earlier ==> (CanRead(all) <==> n < INT64_LIMIT || n == MINUS_ONE))
            && (!earlier && CanRead(all) ==> now == n)
  {
    hide CStr, FoundValue, ContentLengthText, SignedValue, AsUnsigned64, NoOverflow;
    FirstOneWins(lines, Line([], []), CONTENT_LENGTH);
    AnnouncedAfterAdd(lines, n);
    ContentLengthFits(n);
    if n < INT64_LIMIT || n == MINUS_ONE {
      ContentLengthReadsBack(n);
    }
  }

  lemma ItemJoined(buf: bytes, key: bytes, value: bytes)
    ensures buf + key + [0] + value + [0] == buf + Item(Line(key, value))
  {
  }

  class HttpResponse {
    const key: StreamKey
    const version: Version
    const status: nat
    const reason: bytes
    const body: Option<bytes>  // None if SetBody is never called
    const isFinalChunkedFrame: bool
    var headerIndex: seq<nat>
    var headerBuf: bytes
    /** The headers added so far. */
    ghost var lines: seq<Line>

    ghost predicate Valid()
      reads this
    {
      headerIndex == Starts(lines, 0) && headerBuf == Text(lines) && (status == STATUS_META_BODY_PART ==> lines == [])
    }

    function BodyBytes(): bytes {
      if body.Some? then body.value else []
    }

    /** The response as Lifecycle knows it. */
    ghost function View(): Response
      reads this
    {
      ResponseWith(key, status, lines, BodyBytes(), isFinalChunkedFrame)
    }

    constructor (
      key: StreamKey, version: Version, status: nat, reason: bytes, body: Option<bytes>, isFinalChunkedFrame: bool)
      ensures Valid() && lines == []
      ensures this.key == key && this.version == version && this.status == status && this.reason == reason
      ensures this.body == body && this.isFinalChunkedFrame == isFinalChunkedFrame
    {
      this.key, this.version, this.status, this.reason := key, version, status, reason;
      this.body, this.isFinalChunkedFrame := body, isFinalChunkedFrame;
      headerIndex, headerBuf, lines := [], [], [];
    }

    method AddHeader(key: bytes, value: bytes)
      requires Valid() && status != STATUS_META_BODY_PART
      requires 0 < |key| <= MAX_HEADER_KEY_LEN && |value| <= MAX_HEADER_VALUE_LEN
      modifies this
      ensures Valid() && lines == old(lines) + [Line(key, value)]
    {
      hide Starts, Text;
      StartsAppend(lines, Line(key, value), 0);
      TextAppend(lines, Line(key, value));
      ItemJoined(headerBuf, key, value);
      headerIndex := headerIndex + [|headerBuf|];
      headerBuf := headerBuf + key;
      headerBuf := headerBuf + [0];
      headerIndex := headerIndex + [|headerBuf|];
      headerBuf := headerBuf + value;
      headerBuf := headerBuf + [0];
      lines := lines + [Line(key, value)];
      assert headerIndex == old(headerIndex) + [|old(headerBuf)|, |old(headerBuf)| + |key| + 1];
    }

    function HeaderCount(): nat
      reads this
    {
      |headerIndex| / 2
    }

    /** Adds the length as text; a length of -1 as such. */
    method AddHeaderContentLength(n: nat)
      requires Valid() && status != STATUS_META_BODY_PART && n < U64_LIMIT
      modifies this
      ensures Valid() && lines == old(lines) + [Line(CONTENT_LENGTH, ContentLengthText(n))]
    {
      hide Put, DecimalText, CStr, Starts, Text;
      var text := [MINUS, 49];
      if n != MINUS_ONE {
        var buf := new byte[21];
        ghost var was := buf[..];
        var _ := U64toa(n, buf, 0, 21);
        DecimalTextDigits(n, 21);
        StringWritten(was, DecimalText(n, 21));
        text := CStr(buf[..]);
      }
      AddHeader(CONTENT_LENGTH, text);
    }

    /** The position of the nth value whose key is this name, compared as C strings. */
    method HeaderByName(name: bytes, n: int) returns (found: Option<nat>)
      requires Valid()
      ensures var r := FindNth(KeyMarks(lines, name), 0, n);
              && (found.None? <==> r.None?)
              && (found.Some? ==> Holds(headerBuf, found.value, lines[r.value].value))
    {
      hide Starts, Text, CStr;
      var nth := n;
      ghost var marks := KeyMarks(lines, name);
      for i := 0 to HeaderCount()
        invariant FindNth(marks, i, nth) == FindNth(marks, 0, n)
      {
        HeaderInBuffer(lines, i);
        HoldsCStr(headerBuf, headerIndex[2 * i], lines[i].key);
        if CStr(headerBuf[headerIndex[2 * i]..]) == name {
          nth := nth - 1;
        }
        if nth == -1 {
          return Some(headerIndex[2 * i + 1]);
        }
      }
      found := None;
    }

    method HasHeader(name: bytes) returns (found: bool)
      requires Valid()
      ensures found <==> exists i :: 0 <= i < |lines| && CStr(lines[i].key) == name
    {
      hide CStr, FindNth;
      var p := HeaderByName(name, 0);
      found := p.Some?;
      FirstOneWins(lines, Line([], []), name);
    }

    /** What Send reads out of the Content-Length header. */
    method ContentLength() returns (length: Option<nat>)
      requires Valid() && CanRead(lines)
      ensures length == Announced(lines)
    {
      hide Starts, Text, CStr, FindNth, SignedValue, AsUnsigned64;
      var p := HeaderByName(CONTENT_LENGTH, 0);
      if p.None? {
        return None;
      }
      ghost var r := FindNth(KeyMarks(lines, CONTENT_LENGTH), 0, 0);
      HoldsCStr(headerBuf, p.value, lines[r.value].value);
      var n := Atoi64(CStr(headerBuf[p.value..]));
      length := Some(AsUnsigned64(n));
    }

    /** Writes the whole message, and nothing else, into a buffer of the size computed beforehand. */
    method SerializeToHttp() returns (buf: array<byte>)
      requires Valid() && 100 <= status != STATUS_META_BODY_PART && version != Http2 && |BodyBytes()| < U32_LIMIT
      modifies this
      ensures Valid() && lines == WithContentLength(old(lines), |BodyBytes()|)
      ensures buf[..] == Message(version, status, reason, lines, BodyBytes())
    {
      hide Starts, Text, CStr, DecimalText, Message, FieldsText;
      var has := HasHeader(CONTENT_LENGTH);
      if !has {
        ContentLengthLimits(|BodyBytes()|);
        AddHeader(CONTENT_LENGTH, DecimalText(|BodyBytes()|, 11));
      }
      var len := 12 + 1 + |reason| + 2;
      len := len + HeaderCount() * (2 + 2 - 2) + |headerBuf|;
      len := len + 2;
      len := len + |BodyBytes()|;
      buf := new byte[len];
      FieldsTextSize(lines);
      var out := WriteHead(buf);
      out := WriteFields(buf, out);
      MessageParts(version, status, reason, lines, BodyBytes());
      ghost var head := StatusLine(version, status, reason) + FieldsText(lines);
      out := BufWrite(buf, out, CRLF, head);
      out := BufWrite(buf, out, BodyBytes(), head + CRLF);
      assert buf[..] == buf[..out];
    }

    method WriteHead(buf: array<byte>) returns (out: nat)
      requires 100 <= status && version != Http2 && |reason| + 15 <= buf.Length
      modifies buf
      ensures out == |reason| + 15 && buf[..out] == StatusLine(version, status, reason)
    {
      hide DecimalText;
      StatusDigits(status);
      out := BufWrite(buf, 0, VersionText(version), []);
      out := BufWrite(buf, out, DecimalText(status, 4), [] + VersionText(version));
      out := BufWrite(buf, out, [SP], [] + VersionText(version) + DecimalText(status, 4));
      out := BufWrite(buf, out, reason, [] + VersionText(version) + DecimalText(status, 4) + [SP]);
      out := BufWrite(buf, out, CRLF, [] + VersionText(version) + DecimalText(status, 4) + [SP] + reason);
      assert [] + VersionText(version) == VersionText(version);
    }

    method WriteFields(buf: array<byte>, at: nat) returns (out: nat)
      requires Valid() && at + |FieldsText(lines)| <= buf.Length
      modifies buf
      ensures out == at + |FieldsText(lines)| && buf[..out] == old(buf[..at]) + FieldsText(lines)
    {
      hide Starts, Text, FieldsText, FieldText;
      out := at;
      ghost var head := buf[..at];
      NoFields();
      assert lines[..0] == [] && head + [] == head;
      for i := 0 to HeaderCount()
        invariant out == at + |FieldsText(lines[..i])| && at <= out <= buf.Length
        invariant buf[..out] == head + FieldsText(lines[..i])
      {
        HeaderInBuffer(lines, i);
        assert lines[..i + 1] == lines[..i] + [lines[i]];
        FieldsTextAppend(lines[..i], lines[i]);
        FieldsTextPrefix(lines, i + 1);
        out := WriteField(buf, out, i, head + FieldsText(lines[..i]));
      }
      assert lines[..|lines|] == lines;
    }

    method WriteField(buf: array<byte>, at: nat, i: nat, ghost done: bytes) returns (out: nat)
      requires Valid() && i < |lines| && at + |FieldText(lines[i])| <= buf.Length && buf[..at] == done
      modifies buf
      ensures out == at + |FieldText(lines[i])| && buf[..out] == done + FieldText(lines[i])
    {
      hide Starts, Text;
      HeaderInBuffer(lines, i);
      var k := 2 * i;
      var valTop := if k + 2 == |headerIndex| then |headerBuf| else headerIndex[k + 2];
      var keyLen := headerIndex[k + 1] - headerIndex[k] - 1;
      var valLen := valTop - headerIndex[k + 1] - 1;
      var key := headerBuf[headerIndex[k]..headerIndex[k] + keyLen];
      var value := headerBuf[headerIndex[k + 1]..headerIndex[k + 1] + valLen];
      out := BufWrite(buf, at, key, done);
      out := BufWrite(buf, out, [COLON, SP], done + key);
      out := BufWrite(buf, out, value, done + key + [COLON, SP]);
      out := BufWrite(buf, out, CRLF, done + key + [COLON, SP] + value);
      FieldJoined(done, lines[i]);
    }
  }

  lemma FieldJoined(done: bytes, line: Line)
    ensures done + line.key + [COLON, SP] + line.value + CRLF == done + FieldText(line)
  {
  }

  /** memcpy, advancing the output pointer. */
  method BufWrite(buf: array<byte>, at: nat, src: bytes, ghost done: bytes) returns (out: nat)
    requires at + |src| <= buf.Length && buf[..at] == done
    modifies buf
    ensures out == at + |src| && buf[..out] == done + src
  {
    forall i | 0 <= i < |src| {
      buf[at + i] := src[i];
    }
    out := at + |src|;
    assert buf[..at] == done && buf[at..out] == src;
    assert buf[..out] == buf[..at] + buf[at..out];
  }

  lemma NoFields()
    ensures FieldsText([]) == []
  {
  }

  lemma {:induction false} FieldsTextPrefix(lines: seq<Line>, i: nat)
    requires i <= |lines|
    ensures |FieldsText(lines[..i])| <= |FieldsText(lines)|
  {
    hide FieldText;
    if i > 0 {
      FieldsTextPrefix(lines[1..], i - 1);
      assert lines[..i][1..] == lines[1..][..i - 1];
    } else {
      assert FieldsText(lines[..0]) == [];
    }
  }

  lemma StatusDigits(status: nat)
    requires 100 <= status
    ensures |DecimalText(status, 4)| == 3
  {
    assert NumDigits(status) == 1 + NumDigits(status / 10) == 2 + NumDigits(status / 10 / 10);
  }

  lemma ContentLengthLimits(n: nat)
    requires n < U32_LIMIT
    ensures 0 < |CONTENT_LENGTH| <= MAX_HEADER_KEY_LEN && |DecimalText(n, 11)| <= MAX_HEADER_VALUE_LEN
  {
  }

  lemma MessageParts(v: Version, status: nat, reason: bytes, lines: seq<Line>, body: bytes)
    requires v != Http2
    ensures Message(v, status, reason, lines, body) == StatusLine(v, status, reason) + FieldsText(lines) + CRLF + body
  {
  }
}
