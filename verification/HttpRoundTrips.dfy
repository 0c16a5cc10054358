/** What SerializeToHttp writes, the header section of the parser reads back (section 3.2 of RFC 7230). */
module HttpRoundTrips {
  import opened Bytes
  import opened HeaderBlocks
  import opened Decimals
  import T = HttpTexts
  import opened HttpChars
  import opened HttpParsers
  import opened HttpSections

  /** A nonempty token. */
  ghost predicate IsTokenName(key: bytes) {
    key != [] && forall i :: 0 <= i < |key| ==> IsTokenChar(key[i])
  }

  predicate IsValueByte(c: byte) {
    c != 0 && c != LF && c != CR && c != DEL
  }

  /** Free of CR, LF, NUL and DEL, and not beginning with white space. */
  ghost predicate IsFieldValue(value: bytes) {
    && (forall i :: 0 <= i < |value| ==> IsValueByte(value[i]))
    && (value != [] ==> value[0] != SP && value[0] != TAB)
  }

  ghost predicate IsField(line: Line) {
    IsTokenName(line.key) && IsFieldValue(line.value)
  }

  /** s occurs in data at p. */
  ghost predicate Occurs(data: bytes, p: nat, s: bytes) {
    p + |s| <= |data| && data[p..p + |s|] == s
  }

  lemma OccursAt(data: bytes, p: nat, s: bytes, i: nat)
    requires Occurs(data, p, s) && i < |s|
    ensures p + i < |data| && data[p + i] == s[i]
  {
    assert data[p + i] == data[p..p + |s|][i];
  }

  lemma OccursParts(data: bytes, p: nat, a: bytes, b: bytes)
    requires Occurs(data, p, a + b)
    ensures Occurs(data, p, a) && Occurs(data, p + |a|, b)
  {
    SliceOfSlice(data, p, p + |a + b|, 0, |a|);
    SliceOfSlice(data, p, p + |a + b|, |a|, |a + b|);
  }

  /** Inside a name: up to the colon. */
  lemma {:induction false} FeedName(m: Machine, data: bytes, p: nat, q: nat)
    requires Valid(m, p) && m.cs == FIELD_NAME && p <= q < |data|
    requires (forall i :: p <= i < q ==> IsToken(data[i])) && data[q] == COLON
    ensures Valid(m.(cs := FIELD_VALUE_START, fieldLen := q - m.fieldStart), q + 1)
    ensures Feed(m, data, p, |data|)
         == Feed(m.(cs := FIELD_VALUE_START, fieldLen := q - m.fieldStart), data, q + 1, |data|)
    decreases q - p
  {
    if p < q {
      FeedName(m, data, p + 1, q);
    }
  }

  /** Inside a value: up to the line break. */
  lemma {:induction false} FeedValue(m: Machine, data: bytes, p: nat, q: nat)
    requires Valid(m, p) && m.cs == FIELD_VALUE && p <= q && q + 1 < |data|
    requires (forall i :: p <= i < q ==> IsValueByte(data[i])) && data[q] == CR && data[q + 1] == LF
    ensures Feed(m, data, p, |data|) == Feed(WithField(m, data, q, FIELD_NAME_START), data, q + 2, |data|)
    decreases q - p
  {
    hide WithField;
    if p < q {
      FeedOne(m, data, p);
      FeedValue(m, data, p + 1, q);
    } else {
      FeedLineEnd(m, data, q);
    }
  }

  lemma FeedOne(m: Machine, data: bytes, p: nat)
    requires Valid(m, p) && m.cs == FIELD_VALUE && p < |data| && IsValueByte(data[p])
    ensures Valid(m, p + 1) && Feed(m, data, p, |data|) == Feed(m, data, p + 1, |data|)
  {
  }

  lemma FeedLineEnd(m: Machine, data: bytes, q: nat)
    requires Valid(m, q) && m.cs == FIELD_VALUE && q + 1 < |data| && data[q] == CR && data[q + 1] == LF
    ensures Feed(m, data, q, |data|) == Feed(WithField(m, data, q, FIELD_NAME_START), data, q + 2, |data|)
  {
    var r := Step(m, data, q);
    assert r == WithField(m, data, q, LINE_END);
    assert Step(r, data, q + 1) == r.(cs := FIELD_NAME_START);
  }

  /** From the colon on: a space, then the value and the line break. */
  lemma FeedAfterColon(m: Machine, data: bytes, p: nat, value: bytes)
    requires Valid(m, p) && m.cs == FIELD_VALUE_START && IsFieldValue(value)
    requires Occurs(data, p, [SP] + value + CRLF)
    ensures var n := p + 1 + |value|;
            && n + 2 <= |data|
            && Feed(m, data, p, |data|)
               == Feed(WithField(m.(mark := p + 1), data, n, FIELD_NAME_START), data, n + 2, |data|)
    ensures data[p + 1..p + 1 + |value|] == value
  {
    hide IsFieldValue, Feed, WithField;
    var n := p + 1 + |value|;
    OccursParts(data, p, [SP] + value, CRLF);
    OccursParts(data, p, [SP], value);
    OccursAt(data, p, [SP], 0);
    OccursAt(data, n, CRLF, 0);
    OccursAt(data, n, CRLF, 1);
    FeedSpace(m, data, p);
    var m1 := m.(mark := p);
    if value == [] {
      FeedEmptyValue(m1, data, p + 1);
    } else {
      forall i | 0 <= i < |value|
        ensures data[p + 1 + i] == value[i]
      {
        OccursAt(data, p + 1, value, i);
      }
      FirstValueByte(value);
      FeedFirstOfValue(m1, data, p + 1);
      forall i | p + 2 <= i < n
        ensures IsValueByte(data[i])
      {
        ValueByteAt(value, i - p - 1);
        assert data[p + 1 + (i - p - 1)] == value[i - p - 1];
      }
      FeedValue(m.(cs := FIELD_VALUE, mark := p + 1), data, p + 2, n);
      SameField(m, data, p + 1, n);
    }
  }

  lemma SameField(m: Machine, data: bytes, mark: nat, n: nat)
    requires m.fieldStart + m.fieldLen <= n && mark <= n <= |data|
    ensures WithField(m.(cs := FIELD_VALUE, mark := mark), data, n, FIELD_NAME_START)
         == WithField(m.(mark := mark), data, n, FIELD_NAME_START)
  {
  }

  lemma FirstValueByte(value: bytes)
    requires IsFieldValue(value) && value != []
    ensures IsValueByte(value[0]) && value[0] != SP && value[0] != TAB
  {
  }

  lemma ValueByteAt(value: bytes, i: nat)
    requires IsFieldValue(value) && i < |value|
    ensures IsValueByte(value[i])
  {
  }

  lemma FeedSpace(m: Machine, data: bytes, p: nat)
    requires Valid(m, p) && m.cs == FIELD_VALUE_START && p < |data| && data[p] == SP
    ensures Valid(m.(mark := p), p + 1) && Feed(m, data, p, |data|) == Feed(m.(mark := p), data, p + 1, |data|)
  {
  }

  lemma FeedFirstOfValue(m: Machine, data: bytes, p: nat)
    requires Valid(m, p) && m.cs == FIELD_VALUE_START && p < |data|
    requires IsValueByte(data[p]) && data[p] != SP && data[p] != TAB
    ensures Valid(m.(cs := FIELD_VALUE, mark := p), p + 1)
    ensures Feed(m, data, p, |data|) == Feed(m.(cs := FIELD_VALUE, mark := p), data, p + 1, |data|)
  {
  }

  lemma FeedEmptyValue(m: Machine, data: bytes, p: nat)
    requires Valid(m, p) && m.cs == FIELD_VALUE_START && p + 1 < |data| && data[p] == CR && data[p + 1] == LF
    ensures Feed(m, data, p, |data|) == Feed(WithField(m.(mark := p), data, p, FIELD_NAME_START), data, p + 2, |data|)
  {
    var r := Step(m, data, p);
    assert r == WithField(m.(mark := p), data, p, LINE_END);
    assert Step(r, data, p + 1) == r.(cs := FIELD_NAME_START);
  }

  /** One header line: exactly one call of http_field, with its key and its value. */
  lemma FeedField(m: Machine, data: bytes, p: nat, line: Line) returns (r: Machine)
    requires m.cs == FIELD_NAME_START && IsField(line) && Occurs(data, p, T.FieldText(line))
    ensures r.cs == FIELD_NAME_START && r.fields == m.fields + [line]
    ensures p + |T.FieldText(line)| <= |data|
    ensures Feed(m, data, p, |data|) == Feed(r, data, p + |T.FieldText(line)|, |data|)
  {
    hide IsFieldValue, Feed, Step, IsTokenName, T.FieldText;
    var k, v := |line.key|, |line.value|;
    var q := p + k;
    FieldTextOccurs(data, p, line);
    TokenBytes(data, p, line.key);
    FeedNameStart(m, data, p);
    var m1 := m.(fieldStart := p, cs := FIELD_NAME);
    FeedName(m1, data, p + 1, q);
    var m2 := m1.(cs := FIELD_VALUE_START, fieldLen := k);
    FeedAfterColon(m2, data, q + 1, line.value);
    r := WithField(m2.(mark := q + 2), data, q + 2 + v, FIELD_NAME_START);
  }

  lemma FieldTextOccurs(data: bytes, p: nat, line: Line)
    requires Occurs(data, p, T.FieldText(line))
    ensures Occurs(data, p, line.key) && p + |line.key| < |data| && data[p + |line.key|] == COLON
    ensures Occurs(data, p + |line.key| + 1, [SP] + line.value + CRLF)
  {
    hide Occurs;
    var tail := [SP] + line.value + CRLF;
    assert T.FieldText(line) == line.key + [COLON] + tail;
    OccursParts(data, p, line.key + [COLON], tail);
    OccursParts(data, p, line.key, [COLON]);
    OccursAt(data, p + |line.key|, [COLON], 0);
  }

  lemma TokenBytes(data: bytes, p: nat, key: bytes)
    requires Occurs(data, p, key) && IsTokenName(key)
    ensures key != [] && forall i :: p <= i < p + |key| ==> IsToken(data[i])
  {
    forall i | p <= i < p + |key|
      ensures IsToken(data[i])
    {
      OccursAt(data, p, key, i - p);
      NameCharacters(key[i - p]);
    }
  }

  lemma FeedNameStart(m: Machine, data: bytes, p: nat)
    requires m.cs == FIELD_NAME_START && p < |data| && IsToken(data[p])
    ensures Valid(m.(fieldStart := p, cs := FIELD_NAME), p + 1)
    ensures Feed(m, data, p, |data|) == Feed(m.(fieldStart := p, cs := FIELD_NAME), data, p + 1, |data|)
  {
  }

  /** The blank line ends the section right behind itself. */
  lemma FeedBlankLine(m: Machine, data: bytes, p: nat)
    requires m.cs == FIELD_NAME_START && Occurs(data, p, CRLF)
    ensures var (r, q) := Feed(m, data, p, |data|);
            q == p + 2 && r.cs == FIRST_FINAL && r.fields == m.fields && r.bodyStart == p + 2
  {
    OccursAt(data, p, CRLF, 0);
    OccursAt(data, p, CRLF, 1);
    var r := Step(m, data, p);
    assert r == m.(fieldStart := p, cs := BLANK_LINE);
    assert Step(r, data, p + 1) == Done(r, p + 1);
  }

  ghost predicate AllFields(lines: seq<Line>) {
    forall i :: 0 <= i < |lines| ==> IsField(lines[i])
  }

  lemma {:induction false} FeedFields(m: Machine, data: bytes, p: nat, lines: seq<Line>)
    requires m.cs == FIELD_NAME_START && AllFields(lines)
    requires Occurs(data, p, T.FieldsText(lines) + CRLF)
    ensures var (r, q) := Feed(m, data, p, |data|);
            && q == p + |T.FieldsText(lines)| + 2
            && r.cs == FIRST_FINAL && r.bodyStart == q && r.fields == m.fields + lines
    decreases |lines|
  {
    hide IsField, Feed, T.FieldText;
    var rest := T.FieldsText(lines) + CRLF;
    if lines == [] {
      assert rest == CRLF;
      FeedBlankLine(m, data, p);
      assert m.fields + lines == m.fields;
    } else {
      var first := T.FieldText(lines[0]);
      assert rest == first + (T.FieldsText(lines[1..]) + CRLF);
      OccursParts(data, p, first, T.FieldsText(lines[1..]) + CRLF);
      var r := FeedField(m, data, p, lines[0]);
      FeedFields(r, data, p + |first|, lines[1..]);
      assert m.fields + [lines[0]] + lines[1..] == m.fields + lines;
    }
  }

  // ---------- a serialized response ----------

  lemma ContentLengthIsField(n: nat)
    ensures IsField(Line(T.CONTENT_LENGTH, DecimalText(n, 11)))
  {
    hide DecimalText;
    DecimalTextDigits(n, 11);
    var key := T.CONTENT_LENGTH;
    assert IsTokenName(key);
    NotEmpty(n);
    var t := DecimalText(n, 11);
    forall i | 0 <= i < |t|
      ensures IsValueByte(t[i])
    {
    }
  }

  lemma NotEmpty(n: nat)
    ensures DecimalText(n, 11) != []
  {
  }

  lemma WithContentLengthFields(lines: seq<Line>, n: nat)
    requires AllFields(lines)
    ensures AllFields(T.WithContentLength(lines, n))
  {
    hide IsField, DecimalText;
    ContentLengthIsField(n);
  }

  /** "HTTP/1." */
  const HTTP_1: bytes := [72, 84, 84, 80, 47, 49, 46]

  /** The first place from p on that holds a carriage return. */
  function ReturnFrom(s: bytes, p: nat): (q: nat)
    requires p <= |s|
    ensures p <= q <= |s|
    decreases |s| - p
  {
    if p == |s| || s[p] == CR then p else ReturnFrom(s, p + 1)
  }

  datatype Status = Status(minorVersion: int, code: int, reason: bytes, next: nat)

  /** A status line of HTTP/1 (section 3.1.2 of RFC 7230), and where the header section begins. */
  function ReadStatusLine(s: bytes): Option<Status> {
    if |s| >= 13 && s[..7] == HTTP_1 && Digits(s[7..8] + s[9..12]) && s[8] == SP && s[12] == SP then
      var q := ReturnFrom(s, 13);
      if q + 1 < |s| && s[q + 1] == LF then Some(Status(Value(s[7..8]), Value(s[9..12]), s[13..q], q + 2)) else None
    else None
  }

  lemma {:induction false} ReturnBehind(pre: bytes, t: bytes, post: bytes)
    requires CR !in t && post != [] && post[0] == CR
    ensures ReturnFrom(pre + t + post, |pre|) == |pre| + |t|
    decreases |t|
  {
    var s := pre + t + post;
    if t != [] {
      assert s[|pre|] == t[0];
      assert s == (pre + [t[0]]) + t[1..] + post;
      ReturnBehind(pre + [t[0]], t[1..], post);
    }
  }

  lemma OneDigit(d: byte)
    requires 48 <= d <= 57
    ensures Value([d]) == d - 48
  {
    assert [d][..0] == [];
    assert Value([d]) == 10 * Value([]) + (Char(d) - 48);
  }

  /** What is written as the status line reads as one, with version, the status's last three digits, and reason. */
  lemma StatusLineReadsBack(v: T.Version, status: nat, reason: bytes, lines: seq<Line>, body: bytes)
    requires v != T.Http2 && 100 <= status && CR !in reason
    ensures ReadStatusLine(T.Message(v, status, reason, lines, body))
         == Some(Status(if v == T.Http10 then 0 else 1, status % 1000, reason, |T.StatusLine(v, status, reason)|))
  {
    hide DecimalText, T.FieldsText, Value, Digits;
    T.StatusDigits(status);
    DecimalTextDigits(status, 4);
    TextValue(status, 4);
    assert Pow10(3) == 1000;
    var code, rest := DecimalText(status, 4), T.FieldsText(lines) + CRLF + body;
    var s := T.Message(v, status, reason, lines, body);
    var pre := T.VersionText(v) + code + [SP];
    assert s == pre + reason + (CRLF + rest);
    assert s[..7] == HTTP_1 && s[7..8] == [if v == T.Http10 then 48 else 49] && s[9..12] == code;
    ReturnBehind(pre, reason, CRLF + rest);
    OneDigit(if v == T.Http10 then 48 else 49);
    AllDigits(s[7], code);
    assert s[7..8] + s[9..12] == [s[7]] + code;
    assert s[13..13 + |reason|] == reason;
  }

  lemma AllDigits(d: byte, code: bytes)
    requires 48 <= d <= 57 && Digits(code)
    ensures Digits([d] + code)
  {
  }

  /**
  For any headers the section can carry: the parser reports exactly them, and any added Content-Length, and stops at
  the body.
  */
  lemma MessageReadsBack(v: T.Version, status: nat, reason: bytes, lines: seq<Line>, body: bytes, m: Machine)
    requires AllFields(lines) && m.cs == FIELD_NAME_START && v != T.Http2
    ensures var sent := T.WithContentLength(lines, |body|);
            var data := T.Message(v, status, reason, sent, body);
            var start := |T.StatusLine(v, status, reason)|;
            && start <= |data|
            && var (r, q) := Feed(m, data, start, |data|);
               r.cs == FIRST_FINAL && r.fields == m.fields + sent && r.bodyStart == q <= |data| && data[q..] == body
  {
    hide Feed, T.FieldsText, T.StatusLine, T.WithContentLength, AllFields;
    var sent := T.WithContentLength(lines, |body|);
    WithContentLengthFields(lines, |body|);
    var head, section := T.StatusLine(v, status, reason), T.FieldsText(sent) + CRLF;
    var data := T.Message(v, status, reason, sent, body);
    assert data == head + section + body;
    assert data[|head|..|head| + |section|] == section;
    assert data[|head| + |section|..] == body;
    FeedFields(m, data, |head|, sent);
  }
}
