/** Decimal text of unsigned numbers: writing it in place by reversing digits, and reading it back. */
module Decimals {
  import opened Bytes
  import opened ResponseRuns
  import Buffers

  const ZERO: byte := 48
  const MINUS: byte := 45
  const INT64_LIMIT: nat := 0x8000_0000_0000_0000

  function Pow10(n: nat): (p: nat)
    ensures p > 0
  {
    if n == 0 then 1 else 10 * Pow10(n - 1)
  }

  function NumDigits(v: nat): (n: nat)
    ensures n > 0
  {
    if v < 10 then 1 else 1 + NumDigits(v / 10)
  }

  /** The n low-order digits of v, lowest first. */
  function LowDigits(v: nat, n: nat): (s: bytes)
    ensures |s| == n
  {
    if n == 0 then [] else [ZERO + v % 10] + LowDigits(v / 10, n - 1)
  }

  function Reversed(s: bytes): (r: bytes)
    ensures |r| == |s|
    ensures forall i :: 0 <= i < |s| ==> r[i] == s[|s| - 1 - i]
  {
    seq(|s|, i requires 0 <= i < |s| => s[|s| - 1 - i])
  }

  /** How many digits fit in front of the terminator. */
  function TextLen(v: nat, size: nat): nat
    requires size > 0
  {
    if NumDigits(v) < size then NumDigits(v) else size - 1
  }

  /** The text that a buffer of this size ends up with: the number, or as many of its low digits as fit. */
  function DecimalText(v: nat, size: nat): (t: bytes)
    requires size > 0
    ensures |t| == TextLen(v, size) < size
  {
    Reversed(LowDigits(v, TextLen(v, size)))
  }

  /** char is signed. */
  function Char(c: byte): int {
    if c < 128 then c else c - 256
  }

  lemma CharIsSignedByte(c: byte)
    ensures -128 <= Char(c) < 128 && Char(c) % 256 == c
  {
  }

  /** What a sequence of characters stands for, digit by digit. */
  function Value(s: bytes): int {
    if s == [] then 0 else 10 * Value(s[..|s| - 1]) + (Char(s[|s| - 1]) - 48)
  }

  // ---------- the text means the number ----------

  lemma ModDigit(v: nat, p: nat)
    requires p > 0
    ensures v % (10 * p) == 10 * ((v / 10) % p) + v % 10
  {
    var q, r := v / 10, v % 10;
    var a, b := q / p, q % p;
    DivMod(q, p);
    assert v == 10 * q + r;
    assert 10 * (p * a) == (10 * p) * a;
    assert v == (10 * p) * a + (10 * b + r);
    ModUnique(v, 10 * p, a, 10 * b + r);
  }

  lemma DivMod(v: nat, m: nat)
    requires m > 0
    ensures v == m * (v / m) + v % m
  {
  }

  lemma {:induction false} MulMonotone(m: nat, a: nat, b: nat)
    requires a < b
    ensures m * a + m <= m * b
    decreases b
  {
    assert m * b == m * (b - 1) + m;
    if a < b - 1 {
      MulMonotone(m, a, b - 1);
    }
  }

  lemma ModUnique(v: nat, m: nat, q: nat, r: nat)
    requires m > 0 && r < m && v == m * q + r
    ensures v % m == r
  {
    var d, x := v / m, v % m;
    DivMod(v, m);
    QuotientUnique(m, q, r, d, x);
  }

  lemma QuotientUnique(m: nat, q: nat, r: nat, d: nat, x: nat)
    requires r < m && x < m && m * q + r == m * d + x
    ensures r == x
  {
    if q < d {
      MulMonotone(m, q, d);
    } else if d < q {
      MulMonotone(m, d, q);
    }
  }

  lemma ModSmall(v: nat, m: nat)
    requires v < m
    ensures v % m == v
  {
  }

  lemma {:induction false} ValueOfDigits(v: nat, n: nat)
    ensures Value(Reversed(LowDigits(v, n))) == v % Pow10(n)
  {
    var low := LowDigits(v, n);
    if n > 0 {
      ValueOfDigits(v / 10, n - 1);
      assert Reversed(low)[..n - 1] == Reversed(LowDigits(v / 10, n - 1)) by {
        assert low[1..] == LowDigits(v / 10, n - 1);
      }
      ModDigit(v, Pow10(n - 1));
    }
  }

  lemma {:induction false} DigitsBound(v: nat, n: nat)
    ensures v < Pow10(n) <==> (NumDigits(v) <= n || v == 0)
    decreases n
  {
    if n > 0 && v >= 10 {
      DigitsBound(v / 10, n - 1);
    }
  }

  /** For every number and buffer size, the text left in the buffer stands for the number modulo a power of ten. */
  lemma TextValue(v: nat, size: nat)
    requires size > 0
    ensures Value(DecimalText(v, size)) == v % Pow10(size - 1)
  {
    hide Value, Reversed, LowDigits, NumDigits, Pow10;
    var n := TextLen(v, size);
    ValueOfDigits(v, n);
    if NumDigits(v) < size {
      DigitsBound(v, size - 1);
      DigitsBound(v, n);
      ModSmall(v, Pow10(size - 1));
      ModSmall(v, Pow10(n));
    }
  }

  /** A buffer of 21 bytes holds every 64-bit number, and one of 11 every 32-bit number. */
  lemma TextIsExact(v: nat, size: nat)
    requires (v < U64_LIMIT && size == 21) || (v < U32_LIMIT && size == 11)
    ensures Value(DecimalText(v, size)) == v && |DecimalText(v, size)| == NumDigits(v)
  {
    hide Value, Reversed, LowDigits, NumDigits, Pow10;
    TextValue(v, size);
    PowersOfTen();
    DigitsBound(v, size - 1);
    ModSmall(v, Pow10(size - 1));
    ZeroDigits(v);
  }

  lemma ZeroDigits(v: nat)
    ensures v == 0 ==> NumDigits(v) == 1
  {
  }

  lemma PowersOfTen()
    ensures Pow10(10) == 10_000_000_000 && Pow10(20) == 100_000_000_000_000_000_000
  {
    assert Pow10(3) == 1000;
    assert Pow10(6) == 1_000_000;
    assert Pow10(9) == 1_000_000_000;
    assert Pow10(12) == 1_000_000_000_000;
    assert Pow10(15) == 1_000_000_000_000_000;
    assert Pow10(18) == 1_000_000_000_000_000_000;
  }

  lemma {:induction false} DigitsAreDigits(v: nat, n: nat)
    ensures forall i :: 0 <= i < n ==> 48 <= LowDigits(v, n)[i] < 58
  {
    if n > 0 {
      DigitsAreDigits(v / 10, n - 1);
    }
  }

  // ---------- writing ----------

  /** Stores the digits lowest first. */
  method StoreDigits(number: nat, buf: array<byte>, at: nat, size: nat) returns (i: nat)
    requires size > 0 && at + size <= buf.Length
    modifies buf
    ensures i == TextLen(number, size)
    ensures buf[..] == Put(old(buf[..]), at, LowDigits(number, i))
  {
    hide Put, NumDigits, LowDigits;
    ghost var was := buf[..];
    ghost var done: bytes := [];
    PutNothing(was, at);
    var v := number;
    i := 0;
    while true
      invariant i == |done| < size
      invariant i + NumDigits(v) == NumDigits(number)
      invariant done + LowDigits(v, TextLen(number, size) - i) == LowDigits(number, TextLen(number, size))
      invariant buf[..] == Put(was, at, done)
      decreases size - i
    {
      NoDigits(v);
      if i >= size - 1 {
        break;
      }
      var newV := v / 10;
      var modV := v % 10;
      DigitStep(v, TextLen(number, size) - i, done);
      PutOne(was, at, done, ZERO + modV);
      done := done + [ZERO + modV];
      buf[at + i] := ZERO + modV;
      i := i + 1;
      NoDigits(newV);
      if newV == 0 {
        break;
      }
      v := newV;
    }
    assert done + [] == done;
  }

  lemma NoDigits(v: nat)
    ensures LowDigits(v, 0) == []
  {
  }

  lemma DigitStep(v: nat, n: nat, done: bytes)
    requires n > 0
    ensures done + LowDigits(v, n) == done + [ZERO + v % 10] + LowDigits(v / 10, n - 1)
    ensures NumDigits(v) == if v / 10 == 0 then 1 else 1 + NumDigits(v / 10)
  {
  }

  /** Byte p, when the j outermost bytes on either side have changed places. */
  ghost predicate Turned(was: bytes, now: bytes, at: nat, n: nat, j: nat, p: nat)
    requires p < |was| == |now| && at + n <= |was| && j <= n
  {
    now[p] == if at <= p < at + j || at + n - j <= p < at + n then was[at + n - 1 - (p - at)] else was[p]
  }

  ghost predicate Turning(was: bytes, now: bytes, at: nat, n: nat, j: nat) {
    && |now| == |was| && at + n <= |was| && j <= n
    && forall p :: 0 <= p < |was| ==> Turned(was, now, at, n, j, p)
  }

  lemma TurnStart(was: bytes, at: nat, n: nat)
    requires at + n <= |was|
    ensures Turning(was, was, at, n, 0)
  {
  }

  lemma TurnStep(was: bytes, now: bytes, at: nat, n: nat, j: nat)
    requires Turning(was, now, at, n, j) && 2 * j < n - 1
    ensures |now| == |was| && at + n <= |was|
    ensures Turning(was, now[at + j := now[at + n - 1 - j]][at + n - 1 - j := now[at + j]], at, n, j + 1)
  {
    var a, b := at + j, at + n - 1 - j;
    var r, k := now[a := now[b]][b := now[a]], j + 1;
    assert Turned(was, now, at, n, j, a) && Turned(was, now, at, n, j, b);
    forall p | 0 <= p < |was|
      ensures Turned(was, r, at, n, k, p)
    {
      assert Turned(was, now, at, n, j, p);
    }
  }

  /** Turns n bytes around in place. The index that the caller returns has moved to the middle by then. */
  method Reverse(buf: array<byte>, at: nat, n: nat) returns (i: int)
    requires at + n <= buf.Length
    modifies buf
    ensures i + 1 == (n + 1) / 2
    ensures buf[..] == Put(old(buf[..]), at, Reversed(old(buf[at..at + n])))
  {
    hide Turning, Put;
    ghost var was := buf[..];
    i := n - 1;
    TurnStart(was, at, n);
    var j := 0;
    while j < i
      invariant 0 <= j <= n && i == n - 1 - j && 2 * j <= n
      invariant Turning(was, buf[..], at, n, j)
    {
      TurnStep(was, buf[..], at, n, j);
      buf[at + j], buf[at + i] := buf[at + i], buf[at + j];
      j, i := j + 1, i - 1;
    }
    ReversedHere(was, buf[..], at, n, j);
  }

  lemma ReversedHere(was: bytes, now: bytes, at: nat, n: nat, j: nat)
    requires Turning(was, now, at, n, j) && n - 1 <= 2 * j
    ensures now == Put(was, at, Reversed(was[at..at + n]))
  {
    var d := Reversed(was[at..at + n]);
    assert now[..at] == was[..at] by {
      forall p | 0 <= p < at
        ensures now[p] == was[p]
      {
        assert Turned(was, now, at, n, j, p);
      }
    }
    assert now[at + n..] == was[at + n..] by {
      forall p | at + n <= p < |was|
        ensures now[p] == was[p]
      {
        assert Turned(was, now, at, n, j, p);
      }
    }
    var t := now[at..at + n];
    forall k | 0 <= k < n
      ensures t[k] == d[k]
    {
      assert Turned(was, now, at, n, j, at + k);
      assert d[k] == was[at..at + n][n - 1 - k] == was[at + n - 1 - k];
    }
    assert now == now[..at] + now[at..at + n] + now[at + n..];
  }

  /** U32toa, on a buffer of size bytes at position at. Its result is not the length of the text. */
  method U32toa(v: nat, buf: array<byte>, at: nat, size: nat) returns (r: nat)
    requires v < U32_LIMIT && size > 0 && at + size <= buf.Length
    modifies buf
    ensures buf[..] == Put(old(buf[..]), at, DecimalText(v, size) + [0])
    ensures r == (TextLen(v, size) + 1) / 2
  {
    hide Put, Reversed, LowDigits, NumDigits;
    ghost var was := buf[..];
    var n := StoreDigits(v, buf, at, size);
    PutOne(was, at, LowDigits(v, n), 0);
    buf[at + n] := 0;
    var i := Reverse(buf, at, n);
    TurnedAround(was, at, LowDigits(v, n));
    r := i + 1;
  }

  lemma TurnedAround(s: bytes, at: nat, low: bytes)
    requires at + |low| < |s|
    ensures var mid := Put(s, at, low + [0]);
            && mid[at..at + |low|] == low
            && Put(mid, at, Reversed(low)) == Put(s, at, Reversed(low) + [0])
  {
    var mid := Put(s, at, low + [0]);
    assert mid[at..at + |low|] == mid[at..at + |low| + 1][..|low|];
    assert mid[at + |low|] == mid[at..at + |low| + 1][|low|];
  }

  /** U64toa: small numbers go through U32toa, the others through the same steps at 64 bits. */
  method U64toa(v: nat, buf: array<byte>, at: nat, size: nat) returns (r: nat)
    requires v < U64_LIMIT && size > 0 && at + size <= buf.Length
    modifies buf
    ensures buf[..] == Put(old(buf[..]), at, DecimalText(v, size) + [0])
    ensures r == (TextLen(v, size) + 1) / 2
  {
    hide Put, Reversed, LowDigits, NumDigits;
    if v <= 4294967295 {
      r := U32toa(v, buf, at, size);
      return;
    }
    ghost var was := buf[..];
    var n := StoreDigits(v, buf, at, size);
    PutOne(was, at, LowDigits(v, n), 0);
    buf[at + n] := 0;
    var i := Reverse(buf, at, n);
    TurnedAround(was, at, LowDigits(v, n));
    r := i + 1;
  }

  /** The result is the text's length only for texts of at most one digit. */
  lemma ReturnValueIsLength(v: nat, size: nat)
    requires size > 0
    ensures (TextLen(v, size) + 1) / 2 == |DecimalText(v, size)| <==> (v < 10 || size <= 2)
  {
  }

  /** Buffer::WriteUInt64 advances by that result, so it appends the whole number only if it has one digit. */
  method WriteUInt64(b: Buffers.Buffer, v: nat)
    requires b.Valid() && v < U64_LIMIT
    modifies b, b.data
    ensures b.Valid() && b.Contents() == old(b.Contents()) + DecimalText(v, 21)[..(TextLen(v, 21) + 1) / 2]
  {
    hide Put, DecimalText, NumDigits;
    b.Preallocate(21);
    ghost var was := b.data[..];
    ghost var t := DecimalText(v, 21);
    var r := U64toa(v, b.data, b.count, 21);
    WrittenPrefix(was, b.count, t + [0], r);
    b.count := b.count + r;
    assert b.Contents() == b.data[..][..b.count];
    assert (t + [0])[..r] == t[..r];
  }

  lemma WrittenPrefix(s: bytes, at: nat, d: bytes, r: nat)
    requires at + |d| <= |s| && r <= |d|
    ensures Put(s, at, d)[..at + r] == s[..at] + d[..r]
  {
  }

  lemma WriteUInt64IsExact(v: nat)
    requires v < U64_LIMIT
    ensures DecimalText(v, 21)[..(TextLen(v, 21) + 1) / 2] == DecimalText(v, 21) <==> v < 10
  {
    TextIsExact(v, 21);
  }

  // ---------- reading ----------

  lemma {:induction false} ValueOfPrefix(s: bytes, i: nat)
    requires i < |s|
    ensures Value(s[..i + 1]) == 10 * Value(s[..i]) + (Char(s[i]) - 48)
  {
    assert s[..i + 1][..i] == s[..i];
  }

  lemma ModStep(a: int, d: int, m: nat)
    requires m > 0
    ensures (10 * (a % m) + d) % m == (10 * a + d) % m
  {
    var q, b := a / m, a % m;
    assert 10 * a + d == (10 * q) * m + (10 * b + d);
    ModMultiple(10 * b + d, 10 * q, m);
  }

  lemma ModMultiple(x: int, k: int, m: nat)
    requires m > 0
    ensures (k * m + x) % m == x % m
  {
    var q, r := x / m, x % m;
    assert k * m + x == (k + q) * m + r;
    EuclideanUnique(k * m + x, m, k + q, r);
  }

  lemma EuclideanUnique(v: int, m: nat, q: int, r: nat)
    requires m > 0 && r < m && v == q * m + r
    ensures v % m == r
  {
    var d, x := v / m, v % m;
    assert v == d * m + x;
    assert (q - d) * m == x - r;
    if q > d {
      MulMonotone(m, 0, q - d);
    } else if q < d {
      MulMonotone(m, 0, d - q);
    }
  }

  lemma ValueOfNothing()
    ensures Value([]) == 0
  {
  }

  /** uatoi64 wraps at 64 bits. */
  method Uatoi64(s: bytes) returns (v: nat)
    ensures v == Value(s) % U64_LIMIT
  {
    hide Value;
    v := 0;
    assert Value([]) == 0 by {
      ValueOfNothing();
    }
    assert s[..0] == [];
    for i := 0 to |s|
      invariant v == Value(s[..i]) % U64_LIMIT
    {
      ValueOfPrefix(s, i);
      ModStep(Value(s[..i]), Char(s[i]) - 48, U64_LIMIT);
      v := (10 * v + (Char(s[i]) - 48)) % U64_LIMIT;
    }
    assert s[..|s|] == s;
  }

  /** The digits atoi64 reads behind an optional sign. */
  function Unsigned(s: bytes): bytes {
    if s != [] && s[0] == MINUS then s[1..] else s
  }

  function SignedValue(s: bytes): int {
    if s != [] && s[0] == MINUS then -Value(s[1..]) else Value(s)
  }

  predicate InInt64(v: int) {
    -(INT64_LIMIT as int) <= v < INT64_LIMIT
  }

  /** No step of atoi64 overflows, which C++ leaves undefined: not v * 10, not adding a digit, not the final sign. */
  ghost predicate NoOverflow(s: bytes) {
    var digits := Unsigned(s);
    && (forall i :: 0 <= i < |digits| ==> InInt64(10 * Value(digits[..i])))
    && (forall i :: 0 <= i <= |digits| ==> InInt64(Value(digits[..i])))
    && InInt64(SignedValue(s))
  }

  method Atoi64(s: bytes) returns (v: int)
    requires NoOverflow(s)
    ensures v == SignedValue(s)
  {
    v := 0;
    ghost var digits := Unsigned(s);
    var i := if |s| > 0 && s[0] == MINUS then 1 else 0;
    ghost var skip := i;
    assert digits == s[skip..];
    while i < |s|
      invariant skip <= i <= |s|
      invariant v == Value(digits[..i - skip])
    {
      ValueOfPrefix(digits, i - skip);
      assert InInt64(v * 10) && InInt64(Value(digits[..i - skip + 1]));
      v := v * 10 + (Char(s[i]) - 48);
      i := i + 1;
    }
    assert digits[..|digits|] == digits;
    if |s| > 0 && s[0] == MINUS {
      v := -v;
    }
  }

  /** (uint64_t) */
  function AsUnsigned64(v: int): nat {
    v % U64_LIMIT
  }

  // ---------- Content-Length ----------

  function ContentLengthText(n: nat): bytes {
    if n == MINUS_ONE then [MINUS, 49] else DecimalText(n, 21)
  }

  predicate Digits(s: bytes) {
    forall i :: 0 <= i < |s| ==> 48 <= s[i] < 58
  }

  lemma {:induction false} PrefixesGrow(s: bytes, i: nat)
    requires Digits(s) && i <= |s|
    ensures 0 <= Value(s[..i]) <= Value(s)
    decreases |s| - i, i
  {
    if i == |s| {
      assert s[..i] == s;
      ValueNonNegative(s);
    } else {
      PrefixesGrow(s, i + 1);
      ValueOfPrefix(s, i);
      ValueNonNegative(s[..i]);
    }
  }

  lemma {:induction false} ValueNonNegative(s: bytes)
    requires Digits(s)
    ensures Value(s) >= 0
  {
    if s != [] {
      ValueNonNegative(s[..|s| - 1]);
    }
  }

  lemma DecimalTextDigits(v: nat, size: nat)
    requires size > 0
    ensures Digits(DecimalText(v, size))
  {
    DigitsAreDigits(v, TextLen(v, size));
  }

  /** atoi64 can read an announced length back exactly when it is below 2^63, or is -1. */
  lemma ContentLengthFits(n: nat)
    requires n < U64_LIMIT
    ensures NoOverflow(ContentLengthText(n)) <==> (n < INT64_LIMIT || n == MINUS_ONE)
  {
    hide DecimalText;
    if n == MINUS_ONE {
      OneIsSmall();
    } else {
      var t := DecimalText(n, 21);
      TextIsExact(n, 21);
      DecimalTextDigits(n, 21);
      assert Unsigned(t) == t;
      forall i | 0 <= i <= |t|
        ensures 0 <= Value(t[..i]) <= n
      {
        PrefixesGrow(t, i);
      }
      forall i | 0 <= i < |t|
        ensures 0 <= 10 * Value(t[..i]) <= n
      {
        ValueOfPrefix(t, i);
        assert 10 * Value(t[..i]) <= Value(t[..i + 1]);
      }
      assert t[..|t|] == t;
    }
  }

  lemma OneIsSmall()
    ensures [MINUS, 49][1..] == [49] && Value([49]) == 1 && NoOverflow([MINUS, 49])
  {
    assert Value([49]) == 10 * Value([49][..0]) + 1;
  }

  /** ... and then it reads back as the same number. */
  lemma ContentLengthReadsBack(n: nat)
    requires n < INT64_LIMIT || n == MINUS_ONE
    ensures AsUnsigned64(SignedValue(ContentLengthText(n))) == n
  {
    hide DecimalText;
    if n == MINUS_ONE {
      OneIsSmall();
    } else {
      TextIsExact(n, 21);
      DecimalTextDigits(n, 21);
    }
  }

  lemma StringWritten(s: bytes, t: bytes)
    requires |t| < |s| && Digits(t)
    ensures CStr(Put(s, 0, t + [0])) == t
  {
    hide CStr;
    var r := Put(s, 0, t + [0]);
    assert r == t + [0] + s[|t| + 1..];
    CStrPrefix(t, s[|t| + 1..]);
    NoZeroInside(t);
  }

  lemma {:induction false} NoZeroInside(t: bytes)
    requires Digits(t)
    ensures CStr(t) == t
  {
    if t != [] {
      NoZeroInside(t[1..]);
    }
  }

  /** Writing a number into a buffer of any size and reading it back leaves the digits that the buffer has room for. */
  method WriteAndRead(v: nat, size: nat) returns (w: nat)
    requires v < U64_LIMIT && size > 0
    ensures w == v % Pow10(size - 1)
    ensures size >= 21 ==> w == v
  {
    hide Put, DecimalText, Value, Pow10, CStr;
    var buf := new byte[size];
    ghost var was, t := buf[..], DecimalText(v, size);
    var _ := U64toa(v, buf, 0, size);
    DecimalTextDigits(v, size);
    StringWritten(was, t);
    w := Uatoi64(CStr(buf[..]));
    TextValue(v, size);
    RemainderSmaller(v, Pow10(size - 1));
    ModSmall(v % Pow10(size - 1), U64_LIMIT);
    if size >= 21 {
      WideTextIsExact(v, size);
    }
  }

  lemma RemainderSmaller(v: nat, m: nat)
    requires m > 0
    ensures v % m <= v
  {
    if v < m {
      ModSmall(v, m);
    }
  }

  lemma WideTextIsExact(v: nat, size: nat)
    requires v < U64_LIMIT && size >= 21
    ensures v % Pow10(size - 1) == v
  {
    hide Pow10;
    PowersOfTen();
    PowersGrow(20, size - 1);
    ModSmall(v, Pow10(size - 1));
  }

  lemma {:induction false} PowersGrow(m: nat, n: nat)
    requires m <= n
    ensures Pow10(m) <= Pow10(n)
    decreases n
  {
    if m < n {
      PowersGrow(m, n - 1);
    }
  }
}
