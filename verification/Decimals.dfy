/** The decimal text of an integer, and the in-place conversion that produces it. */
module Decimals {

  const DIGITS := "9876543210123456789"
  const ZERO := 9  // the position of '0' in DIGITS

  /** Division and remainder as in C: toward zero, the remainder with the sign of the dividend. */
  function TruncDiv(a: int, b: nat): int
    requires b > 0
  {
    if a >= 0 then a / b else -(-a / b)
  }

  function TruncMod(a: int, b: nat): int
    requires b > 0
  {
    a - b * TruncDiv(a, b)
  }

  function Abs(x: int): nat {
    if x < 0 then -x else x
  }

  predicate IsDigit(c: char) {
    '0' <= c <= '9'
  }

  function DigitOf(d: nat): (c: char)
    requires d < 10
    ensures IsDigit(c) && DigitValue(c) == d
  {
    ('0' as int + d) as char
  }

  function DigitValue(c: char): nat
    requires IsDigit(c)
  {
    c as int - '0' as int
  }

  function Digits(n: nat): string {
    if n < 10 then [DigitOf(n)] else Digits(n / 10) + [DigitOf(n % 10)]
  }

  /** The text `convert` leaves for a value. */
  function Decimal(v: int): string {
    if v < 0 then "-" + Digits(-v) else Digits(v)
  }

  // ----- reading it back -----

  predicate AllDigits(s: string) {
    forall i :: 0 <= i < |s| ==> IsDigit(s[i])
  }

  function ReadNat(s: string): nat
    requires AllDigits(s)
  {
    if s == "" then 0 else 10 * ReadNat(s[..|s| - 1]) + DigitValue(s[|s| - 1])
  }

  /** An optional '-' and at least one digit, no leading zeros, no "-0". */
  predicate Canonical(s: string) {
    if s != "" && s[0] == '-' then
      |s| > 1 && AllDigits(s[1..]) && s[1] != '0'
    else
      s != "" && AllDigits(s) && (s[0] == '0' ==> |s| == 1)
  }

  function ReadInt(s: string): int
    requires Canonical(s)
  {
    if s[0] == '-' then -(ReadNat(s[1..]) as int) else ReadNat(s)
  }

  lemma {:induction false} ReadDigits(n: nat)
    ensures AllDigits(Digits(n)) && ReadNat(Digits(n)) == n
    ensures Digits(n) != "" && (Digits(n)[0] == '0' <==> n == 0)
    ensures n == 0 ==> |Digits(n)| == 1
  {
    if n < 10 {
      var s := Digits(n);
      assert s[..0] == "" && ReadNat("") == 0;
    } else {
      ReadDigits(n / 10);
      var s := Digits(n);
      assert s[..|s| - 1] == Digits(n / 10);
    }
  }

  /** Reading the text gives the value back; the text is canonical. */
  lemma {:induction false} ReadDecimal(v: int)
    ensures Canonical(Decimal(v)) && ReadInt(Decimal(v)) == v
    ensures Decimal(v)[0] == '-' <==> v < 0
  {
    ReadDigits(Abs(v));
    if v < 0 {
      assert Decimal(v)[1..] == Digits(-v);
    }
  }

  lemma {:induction false} DigitsRead(s: string)
    requires s != "" && AllDigits(s) && (s[0] == '0' ==> |s| == 1)
    ensures Digits(ReadNat(s)) == s
    ensures s[0] != '0' ==> ReadNat(s) > 0
  {
    var n := |s| - 1;
    if n == 0 {
      assert s[..0] == "" && ReadNat(s) == DigitValue(s[0]);
      assert s == [s[0]];
    } else {
      DigitsRead(s[..n]);
      assert s == s[..n] + [s[n]];
      var hi, lo := ReadNat(s[..n]), DigitValue(s[n]);
      assert (10 * hi + lo) / 10 == hi && (10 * hi + lo) % 10 == lo;
    }
  }

  /** Conversely every canonical text is the text of what it reads as. */
  lemma {:induction false} DecimalRead(s: string)
    requires Canonical(s)
    ensures Decimal(ReadInt(s)) == s
  {
    if s[0] == '-' {
      DigitsRead(s[1..]);
      assert s == "-" + s[1..];
    } else {
      DigitsRead(s);
    }
  }

  lemma {:induction false} DecimalInjective(v: int, w: int)
    requires Decimal(v) == Decimal(w)
    ensures v == w
  {
    ReadDecimal(v);
    ReadDecimal(w);
  }

  /** The ten digits, and a text of more than one of them. */
  lemma {:induction false} DigitLetters(d: nat)
    requires d < 10
    ensures Decimal(d) == ["0123456789"[d]] && ReadNat(["0123456789"[d]]) == d
  {
    assert [DigitOf(d)][..0] == "" && ReadNat("") == 0;
  }

  lemma {:induction false} MinusOneTwenty()
    ensures Canonical("-120") && ReadInt("-120") == -120 && Decimal(-120) == "-120"
  {
    assert "-120"[1..] == "120" && "120"[..2] == "12" && "12"[..1] == "1" && "1"[..0] == "";
    assert ReadNat("") == 0 && ReadNat("1") == 1 && ReadNat("12") == 12 && ReadNat("120") == 120;
    DecimalRead("-120");
  }

  // ----- the length -----

  function Pow10(k: nat): nat {
    if k == 0 then 1 else 10 * Pow10(k - 1)
  }

  lemma {:induction false} DigitsLength(n: nat, k: nat)
    requires 0 < k
    ensures |Digits(n)| <= k <==> n < Pow10(k)
  {
    if n < 10 {
      assert Pow10(1) == 10;
      Pow10Positive(k - 1);
    } else if k == 1 {
      assert Pow10(1) == 10;
      ReadDigits(n / 10);
    } else {
      DigitsLength(n / 10, k - 1);
    }
  }

  lemma {:induction false} Pow10Positive(k: nat)
    ensures Pow10(k) >= 1
  {
    if k > 0 {
      Pow10Positive(k - 1);
    }
  }

  predicate IsInt64(v: int) {
    -0x8000_0000_0000_0000 <= v < 0x1_0000_0000_0000_0000
  }

  /** With the terminator, 21 characters hold any signed or unsigned 64-bit value. */
  lemma {:induction false} DecimalFits(v: int)
    requires IsInt64(v)
    ensures 1 <= |Decimal(v)| <= 20
  {
    ReadDigits(Abs(v));
    assert Pow10(19) == 10_000_000_000_000_000_000 by {
      assert Pow10(5) == 100_000;
      assert Pow10(10) == 10_000_000_000;
      assert Pow10(15) == 1_000_000_000_000_000;
    }
    assert Pow10(20) == 100_000_000_000_000_000_000;
    DigitsLength(Abs(v), if v < 0 then 19 else 20);
  }

  // ----- the conversion -----

  function Reverse(s: string): (r: string)
    ensures |r| == |s|
    ensures forall i :: 0 <= i < |s| ==> r[i] == s[|s| - 1 - i]
  {
    seq(|s|, i requires 0 <= i < |s| => s[|s| - 1 - i])
  }

  /** The text s stands in the buffer from position start on. */
  ghost predicate Holds(buf: array<char>, start: nat, s: string)
    reads buf
  {
    start + |s| <= buf.Length && forall k :: 0 <= k < |s| ==> buf[start + k] == s[k]
  }

  /** std::reverse on a stretch of a buffer. */
  method ReverseRange(buf: array<char>, start: nat, to: nat, ghost s: string)
    requires Holds(buf, start, s) && to == start + |s|
    modifies buf
    ensures Holds(buf, start, Reverse(s))
    ensures forall k :: 0 <= k < buf.Length && !(start <= k < to) ==> buf[k] == old(buf[k])
  {
    var i, j := start, to;
    ghost var was := buf[..];
    assert forall x :: start <= x < to ==> was[x] == s[x - start];
    while i + 1 < j
      invariant start <= i <= j <= to && i - start == to - j
      invariant forall x {:trigger buf[x]} :: 0 <= x < buf.Length ==>
        buf[x] == if start <= x < i || j <= x < to then was[start + to - 1 - x] else was[x]
      decreases j - i
    {
      j := j - 1;
      buf[i], buf[j] := buf[j], buf[i];
      i := i + 1;
    }
    assert forall x {:trigger buf[x]} :: start <= x < to ==> buf[x] == was[start + to - 1 - x];
  }

  lemma {:induction false} TruncProperties(i: int)
    ensures -9 <= TruncMod(i, 10) <= 9 && Abs(TruncMod(i, 10)) == Abs(i) % 10
    ensures Abs(TruncDiv(i, 10)) == Abs(i) / 10
    ensures DIGITS[ZERO + TruncMod(i, 10)] == DigitOf(Abs(i) % 10)
  {
  }

  /** out is written, back to front, and the digits of i are still to come. */
  ghost predicate Pending(all: string, i: int, out: string) {
    all == Digits(Abs(i)) + Reverse(out)
  }

  /** One step of the digit loop: the last digit of i comes after the ones already written. */
  lemma {:induction false} DigitStep(all: string, i: int, out: string)
    requires Pending(all, i, out)
    ensures |out| < |all| && Abs(TruncDiv(i, 10)) <= Abs(i)
    ensures TruncDiv(i, 10) != 0 ==> Abs(TruncDiv(i, 10)) < Abs(i)
    ensures -9 <= TruncMod(i, 10) <= 9
    ensures var out' := out + [DIGITS[ZERO + TruncMod(i, 10)]];
      if TruncDiv(i, 10) == 0 then all == Reverse(out') else Pending(all, TruncDiv(i, 10), out')
  {
    TruncProperties(i);
    ReadDigits(Abs(i));
    ReverseSnoc(out, DigitOf(Abs(i) % 10));
  }

  /** One more character behind the text out. */
  method PutChar(buf: array<char>, p: nat, c: char, ghost start: nat, ghost out: string)
    requires Holds(buf, start, out) && p == start + |out| < buf.Length
    modifies buf
    ensures Holds(buf, start, out + [c])
    ensures forall k :: 0 <= k < buf.Length && k != p ==> buf[k] == old(buf[k])
  {
    buf[p] := c;
  }

  /** The digits from the last to the first; at least one, whatever the value. */
  method WriteDigits(buf: array<char>, start: nat, value: int) returns (p: nat, ghost out: string)
    requires start + |Digits(Abs(value))| <= buf.Length
    modifies buf
    ensures Reverse(out) == Digits(Abs(value)) && p == start + |out| && Holds(buf, start, out)
    ensures forall k :: 0 <= k < buf.Length && !(start <= k < p) ==> buf[k] == old(buf[k])
  {
    ghost var all := Digits(Abs(value));
    out := "";
    assert Pending(all, value, out);
    var i := value;
    p := start;
    while true
      invariant p == start + |out| <= start + |all| && Holds(buf, start, out)
      invariant Pending(all, i, out)
      invariant forall k :: 0 <= k < buf.Length && !(start <= k < p) ==> buf[k] == old(buf[k])
      decreases Abs(i)
    {
      DigitStep(all, i, out);
      var lsd := TruncMod(i, 10);
      i := TruncDiv(i, 10);
      PutChar(buf, p, DIGITS[ZERO + lsd], start, out);
      out := out + [DIGITS[ZERO + lsd]];
      p := p + 1;
      if i == 0 {
        break;
      }
    }
  }

  /** The digits and then the sign: the whole text, still the wrong way round. */
  method WriteReversed(buf: array<char>, start: nat, value: int) returns (p: nat, ghost out: string)
    requires start + |Decimal(value)| <= buf.Length
    modifies buf
    ensures Reverse(out) == Decimal(value) && p == start + |out| && Holds(buf, start, out)
    ensures forall k :: 0 <= k < buf.Length && !(start <= k < p) ==> buf[k] == old(buf[k])
  {
    p, out := WriteDigits(buf, start, value);
    SignStep(out, value);
    if value < 0 {
      PutChar(buf, p, '-', start, out);
      p := p + 1;
      out := out + ['-'];
    }
  }

  lemma {:induction false} SignStep(out: string, value: int)
    requires Reverse(out) == Digits(Abs(value))
    ensures Reverse(if value < 0 then out + ['-'] else out) == Decimal(value)
    ensures |Decimal(value)| == if value < 0 then |out| + 1 else |out|
  {
  }

  /** The text in reverse order, the terminator, and then everything turned round in place. */
  method Convert(buf: array<char>, start: nat, value: int) returns (len: nat)
    requires start + |Decimal(value)| < buf.Length
    modifies buf
    ensures len == |Decimal(value)| && Holds(buf, start, Decimal(value)) && buf[start + len] == '\0'
    ensures forall k :: 0 <= k < buf.Length && !(start <= k <= start + len) ==> buf[k] == old(buf[k])
  {
    var p, out := WriteReversed(buf, start, value);
    buf[p] := '\0';
    ReverseRange(buf, start, p, out);
    len := p - start;
  }

  lemma {:induction false} ReverseSnoc(s: string, c: char)
    ensures Reverse(s + [c]) == [c] + Reverse(s)
  {
  }
}
