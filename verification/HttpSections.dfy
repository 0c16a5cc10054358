/**
The header section read field by field, by scanning, for any text whatever. The generated machine, which goes
character by character, is proved to do the same: to accept, reject and report exactly that.
*/
module HttpSections {
  import opened Bytes
  import opened HeaderBlocks
  import opened HttpChars
  import opened HttpParsers

  // ---------- the character classes ----------

  /** Visible characters but for the delimiters (section 3.2.6 of RFC 7230). */
  predicate IsTokenChar(c: byte) {
    // "  (  )  ,  /  :  ;  <  =  >  ?  @  [  \  ]  {  }
    33 <= c <= 126 && c !in {34, 40, 41, 44, 47, 58, 59, 60, 61, 62, 63, 64, 91, 92, 93, 123, 125}
  }

  predicate IsControl(c: byte) {
    c < 32
  }

  /** Beyond tokens, the machine takes controls: all but NUL and tab in a name, and also no line break in front. */
  lemma NameCharacters(c: byte)
    ensures IsToken(c) <==> IsTokenChar(c)
    ensures IsName(c) <==> IsTokenChar(c) || (IsControl(c) && c != 0 && c != TAB)
    ensures IsNameStart(c) <==> IsTokenChar(c) || (IsControl(c) && c != 0 && c != TAB && c != LF && c != CR)
  {
  }

  // ---------- scanning ----------

  predicate EndsValue(c: byte) {
    c == 0 || c == DEL || c == LF || c == CR
  }

  /** The first place from p on that is not in a name. */
  function NameEnd(data: bytes, p: nat): (q: nat)
    requires p <= |data|
    ensures p <= q <= |data| && (forall i :: p <= i < q ==> IsName(data[i])) && (q < |data| ==> !IsName(data[q]))
    decreases |data| - p
  {
    if p < |data| && IsName(data[p]) then NameEnd(data, p + 1) else p
  }

  /** ... that is no space or tab. */
  function BlanksEnd(data: bytes, p: nat): (q: nat)
    requires p <= |data|
    ensures p <= q <= |data| && (forall i :: p <= i < q ==> data[i] == SP || data[i] == TAB)
    ensures q < |data| ==> data[q] != SP && data[q] != TAB
    decreases |data| - p
  {
    if p < |data| && (data[p] == SP || data[p] == TAB) then BlanksEnd(data, p + 1) else p
  }

  /** ... that ends a value. */
  function ValueEnd(data: bytes, p: nat): (q: nat)
    requires p <= |data|
    ensures p <= q <= |data| && (forall i :: p <= i < q ==> !EndsValue(data[i])) && (q < |data| ==> EndsValue(data[q]))
    decreases |data| - p
  {
    if p < |data| && !EndsValue(data[p]) then ValueEnd(data, p + 1) else p
  }

  // ---------- the section ----------

  /** The fields and the place of the body, the place of the first character that cannot be, or more text is needed. */
  datatype Section = Finished(fields: seq<Line>, bodyStart: nat) | Rejected(at: nat) | Unfinished

  function WithFirst(line: Line, s: Section): Section {
    if s.Finished? then s.(fields := [line] + s.fields) else s
  }

  /** A carriage return that is not followed by a line feed is taken as the beginning of a name. */
  function ReadSection(data: bytes, p: nat): Section
    requires p <= |data|
    decreases |data| - p, 1
  {
    if p == |data| then Unfinished
    else if data[p] == LF then Finished([], p + 1)
    else if data[p] == CR then
      if p + 1 == |data| then Unfinished
      else if data[p + 1] == LF then Finished([], p + 2)
      else ReadField(data, p)
    else if IsNameStart(data[p]) then ReadField(data, p)
    else Rejected(p)
  }

  /** A field whose name begins at p, and what follows it. */
  function ReadField(data: bytes, p: nat): Section
    requires p < |data|
    decreases |data| - p, 0
  {
    var q := NameEnd(data, p + 1);
    if q == |data| then Unfinished
    else if data[q] != COLON then Rejected(q)
    else
      var v := BlanksEnd(data, q + 1);
      var e := ValueEnd(data, v);
      if e == |data| then Unfinished
      else if data[e] == 0 || data[e] == DEL then Rejected(e)
      else
        var line := Line(data[p..q], data[v..e]);
        if data[e] == LF then WithFirst(line, ReadSection(data, e + 1))
        else if e + 1 == |data| then Unfinished
        else if data[e + 1] != LF then Rejected(e + 1)
        else WithFirst(line, ReadSection(data, e + 2))
  }

  // ---------- the machine does that ----------

  /** The machine m, from p on, ends as s says. */
  ghost predicate EndsAs(m: Machine, data: bytes, p: nat, s: Section)
    requires p <= |data| && Valid(m, p)
  {
    var (r, q) := Feed(m, data, p, |data|);
    match s
    case Finished(fields, bodyStart) =>
      r.cs == FIRST_FINAL && r.fields == m.fields + fields && r.bodyStart == bodyStart == q
    case Rejected(at) => r.cs == ERROR && q == at
    case Unfinished => r.cs != ERROR && r.cs != FIRST_FINAL && q == |data|
  }

  /** One character that neither ends nor rejects. */
  lemma OneMore(m: Machine, data: bytes, p: nat, s: Section)
    requires p < |data| && Valid(m, p)
    requires var r := Step(m, data, p); r.cs != ERROR && r.cs != FIRST_FINAL && r.fields == m.fields
    requires EndsAs(Step(m, data, p), data, p + 1, s)
    ensures EndsAs(m, data, p, s)
  {
    hide Step;
  }

  lemma OneField(m: Machine, data: bytes, p: nat, line: Line, s: Section)
    requires p < |data| && Valid(m, p)
    requires var r := Step(m, data, p); r.cs != ERROR && r.cs != FIRST_FINAL && r.fields == m.fields + [line]
    requires EndsAs(Step(m, data, p), data, p + 1, s)
    ensures EndsAs(m, data, p, WithFirst(line, s))
  {
    hide Step;
    if s.Finished? {
      assert m.fields + [line] + s.fields == m.fields + ([line] + s.fields);
    }
  }

  lemma AtEnd(m: Machine, data: bytes)
    requires Valid(m, |data|) && m.cs != FIRST_FINAL
    ensures EndsAs(m, data, |data|, Unfinished)
  {
  }

  lemma AtError(m: Machine, data: bytes, p: nat)
    requires p < |data| && Valid(m, p) && Step(m, data, p).cs == ERROR
    ensures EndsAs(m, data, p, Rejected(p))
  {
    hide Step;
  }

  lemma AtBlankLine(m: Machine, data: bytes, p: nat)
    requires p < |data| && Valid(m, p) && data[p] == LF && m.cs in {FIELD_NAME_START, BLANK_LINE}
    ensures EndsAs(m, data, p, Finished([], p + 1))
  {
    assert m.fields + [] == m.fields;
  }

  /** What is still to come of a field whose name has begun at m.fieldStart. */
  function RestOfName(data: bytes, start: nat, p: nat): Section
    requires start <= p <= |data|
  {
    var q := NameEnd(data, p);
    if q == |data| then Unfinished
    else if data[q] != COLON then Rejected(q)
    else RestOfField(data, data[start..q], q + 1)
  }

  /** ... whose colon has been read. */
  function RestOfField(data: bytes, name: bytes, p: nat): Section
    requires p <= |data|
  {
    RestOfValue(data, name, BlanksEnd(data, p), BlanksEnd(data, p))
  }

  /** ... whose value has begun at v. */
  function RestOfValue(data: bytes, name: bytes, v: nat, p: nat): Section
    requires v <= p <= |data|
  {
    var e := ValueEnd(data, p);
    if e == |data| then Unfinished
    else if data[e] == 0 || data[e] == DEL then Rejected(e)
    else if data[e] == LF then WithFirst(Line(name, data[v..e]), ReadSection(data, e + 1))
    else if e + 1 == |data| then Unfinished
    else if data[e + 1] != LF then Rejected(e + 1)
    else WithFirst(Line(name, data[v..e]), ReadSection(data, e + 2))
  }

  lemma FieldInParts(data: bytes, p: nat)
    requires p < |data|
    ensures ReadField(data, p) == RestOfName(data, p, p + 1)
  {
  }

  /** In a name. */
  lemma {:induction false} NameIsRead(m: Machine, data: bytes, p: nat)
    requires p <= |data| && Valid(m, p)
    requires m.cs == FIELD_NAME || (m.cs == BLANK_LINE && p < |data| && data[p] != LF)
    ensures EndsAs(m, data, p, RestOfName(data, m.fieldStart, p))
    decreases |data| - p, 2
  {
    hide EndsAs, RestOfField;
    if p == |data| {
      AtEnd(m, data);
    } else if IsName(data[p]) {
      NameIsRead(Step(m, data, p), data, p + 1);
      OneMore(m, data, p, RestOfName(data, m.fieldStart, p));
    } else if data[p] == COLON {
      BlanksAreRead(Step(m, data, p), data, p + 1);
      OneMore(m, data, p, RestOfName(data, m.fieldStart, p));
    } else {
      AtError(m, data, p);
    }
  }

  /** Between the colon and the value. */
  lemma {:induction false} BlanksAreRead(m: Machine, data: bytes, p: nat)
    requires p <= |data| && Valid(m, p) && m.cs == FIELD_VALUE_START
    ensures EndsAs(m, data, p, RestOfField(data, data[m.fieldStart..m.fieldStart + m.fieldLen], p))
    decreases |data| - p, 2
  {
    hide EndsAs, RestOfValue;
    var name := data[m.fieldStart..m.fieldStart + m.fieldLen];
    if p < |data| && (data[p] == SP || data[p] == TAB) {
      BlanksAreRead(Step(m, data, p), data, p + 1);
      OneMore(m, data, p, RestOfField(data, name, p));
    } else {
      FirstOfValue(m, data, p);
    }
  }

  /** The value's first character, which may already end it. */
  lemma {:induction false} FirstOfValue(m: Machine, data: bytes, p: nat)
    requires p <= |data| && Valid(m, p) && m.cs == FIELD_VALUE_START
    requires p < |data| ==> data[p] != SP && data[p] != TAB
    ensures EndsAs(m, data, p, RestOfValue(data, data[m.fieldStart..m.fieldStart + m.fieldLen], p, p))
    decreases |data| - p, 1
  {
    hide EndsAs, ReadSection;
    if p == |data| {
      AtEnd(m, data);
    } else if data[p] == 0 || data[p] == DEL {
      AtError(m, data, p);
    } else if EndsValue(data[p]) {
      ValueEnds(m.(mark := p), m, data, p);
    } else {
      ValueIsRead(Step(m, data, p), data, p + 1);
      OneMore(m, data, p, RestOfValue(data, data[m.fieldStart..m.fieldStart + m.fieldLen], p, p));
    }
  }

  /** The line break behind a value; v is m with the mark at the value's start. */
  lemma {:induction false} ValueEnds(v: Machine, m: Machine, data: bytes, p: nat)
    requires p < |data| && Valid(m, p) && v == m.(mark := v.mark) && v.mark <= p
    requires (m.cs == FIELD_VALUE_START && v.mark == p) || (m.cs == FIELD_VALUE && v == m)
    requires data[p] == LF || data[p] == CR
    ensures EndsAs(m, data, p, RestOfValue(data, data[m.fieldStart..m.fieldStart + m.fieldLen], v.mark, p))
    decreases |data| - p, 0
  {
    hide EndsAs, ReadSection;
    var line := Line(data[m.fieldStart..m.fieldStart + m.fieldLen], data[v.mark..p]);
    var r := Step(m, data, p);
    if data[p] == LF {
      SectionIsRead(r, data, p + 1);
      OneField(m, data, p, line, ReadSection(data, p + 1));
    } else if p + 1 == |data| {
      AtEnd(r, data);
      OneField(m, data, p, line, Unfinished);
    } else if data[p + 1] != LF {
      AtError(r, data, p + 1);
      OneField(m, data, p, line, Rejected(p + 1));
    } else {
      SectionIsRead(Step(r, data, p + 1), data, p + 2);
      OneMore(r, data, p + 1, ReadSection(data, p + 2));
      OneField(m, data, p, line, ReadSection(data, p + 2));
    }
  }

  /** In a value. */
  lemma {:induction false} ValueIsRead(m: Machine, data: bytes, p: nat)
    requires p <= |data| && Valid(m, p) && m.cs == FIELD_VALUE
    ensures EndsAs(m, data, p, RestOfValue(data, data[m.fieldStart..m.fieldStart + m.fieldLen], m.mark, p))
    decreases |data| - p, 2
  {
    hide EndsAs, ReadSection;
    if p == |data| {
      AtEnd(m, data);
    } else if data[p] == 0 || data[p] == DEL {
      AtError(m, data, p);
    } else if EndsValue(data[p]) {
      ValueEnds(m, m, data, p);
    } else {
      ValueIsRead(Step(m, data, p), data, p + 1);
      OneMore(m, data, p, RestOfValue(data, data[m.fieldStart..m.fieldStart + m.fieldLen], m.mark, p));
    }
  }

  /** For any text: the machine accepts, rejects or waits exactly as the scan does, with exactly its fields. */
  lemma {:induction false} SectionIsRead(m: Machine, data: bytes, p: nat)
    requires p <= |data| && Valid(m, p) && m.cs == FIELD_NAME_START
    ensures EndsAs(m, data, p, ReadSection(data, p))
    decreases |data| - p, 3
  {
    hide EndsAs, ReadField, RestOfName;
    if p == |data| {
      AtEnd(m, data);
    } else if data[p] == LF {
      AtBlankLine(m, data, p);
    } else if data[p] == CR {
      var r := Step(m, data, p);
      if p + 1 == |data| {
        AtEnd(r, data);
      } else if data[p + 1] == LF {
        AtBlankLine(r, data, p + 1);
      } else {
        NameIsRead(r, data, p + 1);
        FieldInParts(data, p);
      }
      OneMore(m, data, p, ReadSection(data, p));
    } else if IsNameStart(data[p]) {
      NameIsRead(Step(m, data, p), data, p + 1);
      FieldInParts(data, p);
      OneMore(m, data, p, ReadSection(data, p));
    } else {
      AtError(m, data, p);
    }
  }
}
