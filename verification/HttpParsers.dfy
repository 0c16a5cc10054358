/**
The header section of the generated HTTP/1.1 machine, states 13 to 18 and 348, on a buffer that holds the whole text.
Only tab, line feed, carriage return, space, colon and the classes below are told apart.
*/
module HttpParsers {
  import opened Bytes
  import opened HeaderBlocks
  import opened HttpChars

  const ERROR: nat := 0
  const FIELD_NAME_START: nat := 13
  const FIELD_NAME: nat := 14
  const FIELD_VALUE_START: nat := 15
  const FIELD_VALUE: nat := 16
  const LINE_END: nat := 17
  const BLANK_LINE: nat := 18
  const FIRST_FINAL: nat := 348

  /** The members of http_parser that this section uses, and the calls of http_field so far. */
  datatype Machine = Machine(cs: nat, mark: nat, fieldStart: nat, fieldLen: nat, bodyStart: nat, fields: seq<Line>)

  /** Above the controls, a field name takes exactly the token characters (section 3.2.6 of RFC 7230). */
  predicate IsToken(c: byte) {
    || c == 33 || 35 <= c <= 39 || 42 <= c <= 43 || 45 <= c <= 46 || 48 <= c <= 57
    || 65 <= c <= 90 || 94 <= c <= 122 || c == 124 || c == 126
  }

  predicate IsNameStart(c: byte) {
    IsToken(c) || 1 <= c <= 8 || (11 <= c <= 31 && c != CR)
  }

  predicate IsName(c: byte) {
    IsToken(c) || 1 <= c <= 8 || 10 <= c <= 31
  }

  predicate InSection(cs: nat) {
    FIELD_NAME_START <= cs <= BLANK_LINE || cs == FIRST_FINAL
  }

  /** The stored offsets lie behind p wherever they will be used. */
  predicate Valid(m: Machine, p: nat) {
    && InSection(m.cs)
    && (m.cs in {FIELD_NAME, BLANK_LINE, FIRST_FINAL} ==> m.fieldStart <= p)
    && (m.cs in {FIELD_VALUE_START, FIELD_VALUE} ==> m.fieldStart + m.fieldLen <= p)
    && (m.cs == FIELD_VALUE ==> m.mark <= p)
  }

  /** http_field, called with the value from mark to p. */
  function WithField(m: Machine, data: bytes, p: nat, cs: nat): Machine
    requires m.fieldStart + m.fieldLen <= p && m.mark <= p <= |data|
  {
    m.(cs := cs, fields := m.fields + [Line(data[m.fieldStart..m.fieldStart + m.fieldLen], data[m.mark..p])])
  }

  function Done(m: Machine, p: nat): Machine {
    m.(cs := FIRST_FINAL, bodyStart := p + 1)
  }

  function InName(m: Machine, c: byte, p: nat): Machine
    requires m.fieldStart <= p
  {
    if c == COLON then m.(cs := FIELD_VALUE_START, fieldLen := p - m.fieldStart)
    else if IsName(c) then m.(cs := FIELD_NAME)
    else m.(cs := ERROR)
  }

  /** What the machine does on the character at p. */
  function Step(m: Machine, data: bytes, p: nat): (r: Machine)
    requires p < |data| && Valid(m, p)
    ensures r.cs == ERROR || Valid(r, p + 1)
  {
    var c := data[p];
    if m.cs == FIELD_NAME_START then
      if c == LF then Done(m.(fieldStart := p), p)
      else if c == CR then m.(fieldStart := p, cs := BLANK_LINE)
      else if IsNameStart(c) then m.(fieldStart := p, cs := FIELD_NAME)
      else m.(cs := ERROR)
    else if m.cs == FIELD_NAME || m.cs == FIRST_FINAL then InName(m, c, p)
    else if m.cs == FIELD_VALUE_START then
      if c == 0 || c == DEL then m.(cs := ERROR)
      else if c == TAB || c == SP then m.(mark := p)
      else if c == LF then WithField(m.(mark := p), data, p, FIELD_NAME_START)
      else if c == CR then WithField(m.(mark := p), data, p, LINE_END)
      else m.(mark := p, cs := FIELD_VALUE)
    else if m.cs == FIELD_VALUE then
      if c == 0 || c == DEL then m.(cs := ERROR)
      else if c == LF then WithField(m, data, p, FIELD_NAME_START)
      else if c == CR then WithField(m, data, p, LINE_END)
      else m
    else if m.cs == LINE_END then
      if c == LF then m.(cs := FIELD_NAME_START) else m.(cs := ERROR)
    else
      if c == LF then Done(m, p) else InName(m, c, p)
  }

  /** Where http_parser_execute leaves the machine and its position, given the text up to pe. */
  function Feed(m: Machine, data: bytes, p: nat, pe: nat): (Machine, nat)
    requires p <= pe <= |data| && Valid(m, p)
    decreases pe - p
  {
    if p == pe then (m, p)
    else
      var r := Step(m, data, p);
      if r.cs == ERROR then (r, p)
      else if r.cs == FIRST_FINAL then (r, p + 1)
      else Feed(r, data, p + 1, pe)
  }

  /** Text that arrives in two pieces is parsed as if it had arrived at once. */
  lemma {:induction false} FeedInPieces(m: Machine, data: bytes, p: nat, mid: nat, pe: nat)
    requires p <= mid <= pe <= |data| && Valid(m, p) && m.cs != FIRST_FINAL
    ensures var (r, q) := Feed(m, data, p, mid);
            if r.cs == ERROR || r.cs == FIRST_FINAL then Feed(m, data, p, pe) == (r, q)
            else q == mid && Valid(r, mid) && Feed(m, data, p, pe) == Feed(r, data, mid, pe)
    decreases pe - p
  {
    hide Step;
    if p < mid {
      var r := Step(m, data, p);
      if r.cs != ERROR && r.cs != FIRST_FINAL {
        FeedInPieces(r, data, p + 1, mid, pe);
      }
    }
  }

  // ---------- the object ----------

  class Parser {
    var machine: Machine
    var nread: nat

    constructor (machine: Machine)
      ensures this.machine == machine && nread == 0
    {
      this.machine, nread := machine, 0;
    }

    /** http_parser_execute on a parser that is in the header section. */
    method Execute(data: bytes, off: nat, pe: nat)
      requires off <= pe <= |data| && Valid(machine, off)
      modifies this
      ensures (machine, nread - old(nread) + off) == Feed(old(machine), data, off, pe)
    {
      hide Step;
      var p := off;
      while p < pe
        invariant off <= p <= pe && Valid(machine, p)
        invariant Feed(machine, data, p, pe) == Feed(old(machine), data, off, pe)
        invariant nread == old(nread)
        decreases pe - p
      {
        machine := Step(machine, data, p);
        if machine.cs == ERROR {
          break;
        }
        p := p + 1;
        if machine.cs == FIRST_FINAL {
          break;
        }
      }
      nread := nread + (p - off);
    }
  }
}
