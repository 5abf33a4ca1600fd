/**
 * The elapsed-time read-out of the game: `formatTime` turns a millisecond
 * count into `MM:SS.hh`, and `getTimeDisplay` picks which duration to show.
 *
 * JavaScript semantics are written out: `Math.floor(a / b)` with a positive
 * divisor is Dafny's `/` (which rounds down for a positive divisor), and
 * JavaScript's `%` keeps the sign of the dividend (`JsRem`). `toString` and
 * `padStart(2, '0')` are modelled on strings of characters.
 */
module TimeFormat {
  import opened Wrappers

  // ---------------------------------------------------------------------
  // Decimal digits
  // ---------------------------------------------------------------------

  predicate IsDigit(c: char) {
    '0' <= c <= '9'
  }

  predicate AllDigits(s: string) {
    forall k :: 0 <= k < |s| ==> IsDigit(s[k])
  }

  function DigitChar(d: nat): (c: char)
    requires d < 10
    ensures IsDigit(c) && c as int - '0' as int == d
  {
    ('0' as int + d) as char
  }

  /** The number a string of decimal digits denotes (leading zeros allowed). */
  function DigitsValue(s: string): nat
    requires AllDigits(s)
    decreases |s|
  {
    if s == [] then 0
    else DigitsValue(s[..|s| - 1]) * 10 + (s[|s| - 1] as int - '0' as int)
  }

  /** `Number.prototype.toString()` on a non-negative integer. */
  function NatToString(n: nat): (s: string)
    ensures 1 <= |s| && AllDigits(s)
    ensures s[0] == '0' ==> n == 0 && s == "0"
    decreases n
  {
    if n < 10 then [DigitChar(n)]
    else NatToString(n / 10) + [DigitChar(n % 10)]
  }

  /**
   * `Number.prototype.toString()` on any integer: a minus sign exactly when
   * the number is negative, then digits that denote its magnitude, with no
   * leading zero unless the number is 0.
   */
  function IntToString(i: int): (s: string)
    ensures 1 <= |s|
    ensures s[0] == '-' <==> i < 0
    ensures var digits := if i < 0 then s[1..] else s;
            AllDigits(digits) && DigitsValue(digits) == if i < 0 then -i else i
    ensures var digits := if i < 0 then s[1..] else s;
            1 <= |digits| && (digits[0] == '0' ==> i == 0 && digits == "0")
  {
    if i < 0 then
      NatToStringValue(-i);
      assert ("-" + NatToString(-i))[1..] == NatToString(-i);
      "-" + NatToString(-i)
    else
      NatToStringValue(i);
      NatToString(i)
  }

  /** `String.prototype.padStart(width, '0')`. */
  function PadStart(s: string, width: nat): (r: string)
    ensures |r| == if |s| >= width then |s| else width
    ensures r[|r| - |s|..] == s
    ensures forall k :: 0 <= k < |r| - |s| ==> r[k] == '0'
  {
    if |s| >= width then s else seq(width - |s|, _ => '0') + s
  }

  /**
   * `i.toString().padStart(2, '0')`: at least two characters, ending with the
   * decimal form of `i` and zero-filled before it; a negative field already
   * has two characters and is never padded.
   */
  function Pad2(i: int): (r: string)
    ensures |r| == if |IntToString(i)| >= 2 then |IntToString(i)| else 2
    ensures r[|r| - |IntToString(i)|..] == IntToString(i)
    ensures forall k :: 0 <= k < |r| - |IntToString(i)| ==> r[k] == '0'
    ensures i < 0 ==> r == IntToString(i)
  {
    PadStart(IntToString(i), 2)
  }

  lemma {:induction false} NatToStringValue(n: nat)
    ensures DigitsValue(NatToString(n)) == n
    decreases n
  {
    if n >= 10 {
      var s := NatToString(n / 10);
      var t := s + [DigitChar(n % 10)];
      assert t[..|t| - 1] == s;
      NatToStringValue(n / 10);
    }
  }

  /** Leading zeros do not change the value of a digit string. */
  lemma {:induction false} LeadingZerosValue(z: string, s: string)
    requires forall k :: 0 <= k < |z| ==> z[k] == '0'
    requires AllDigits(s)
    ensures AllDigits(z + s) && DigitsValue(z + s) == DigitsValue(s)
    decreases |s|
  {
    if s == [] {
      assert z + s == z;
      ZerosValue(z);
    } else {
      var init := s[..|s| - 1];
      assert (z + s)[..|z + s| - 1] == z + init;
      LeadingZerosValue(z, init);
    }
  }

  lemma {:induction false} ZerosValue(z: string)
    requires forall k :: 0 <= k < |z| ==> z[k] == '0'
    ensures AllDigits(z) && DigitsValue(z) == 0
    decreases |z|
  {
    if z != [] {
      ZerosValue(z[..|z| - 1]);
    }
  }

  /** Zero-padding a number's decimal form keeps its value. */
  lemma PaddedValue(n: nat, width: nat)
    ensures AllDigits(PadStart(NatToString(n), width))
    ensures DigitsValue(PadStart(NatToString(n), width)) == n
  {
    var s := NatToString(n);
    var r := PadStart(s, width);
    NatToStringValue(n);
    var z := r[..|r| - |s|];
    assert r == z + s;
    LeadingZerosValue(z, s);
  }

  lemma NatToStringShort(n: nat)
    ensures n < 100 ==> |NatToString(n)| <= 2
    ensures n >= 100 ==> |NatToString(n)| >= 3
  {
    if n >= 100 {
      assert NatToString(n) == NatToString(n / 10) + [DigitChar(n % 10)];
      assert NatToString(n / 10) == NatToString(n / 100) + [DigitChar(n / 10 % 10)];
    }
  }

  // ---------------------------------------------------------------------
  // formatTime
  // ---------------------------------------------------------------------

  /** JavaScript's `a % b` for a positive divisor: the remainder keeps the sign of `a`. */
  function JsRem(a: int, b: int): (r: int)
    requires b > 0
    ensures -b < r < b
    ensures a >= 0 ==> 0 <= r
    ensures a <= 0 ==> r <= 0
    ensures (a - r) % b == 0
  {
    if a >= 0 then
      DivModUnique(a - a % b, b, a / b, 0);
      a % b
    else
      NegativeRemainder(a, b);
      -((-a) % b)
  }

  /** For a negative dividend, `a + (-a) % b` is a multiple of `b`. */
  lemma NegativeRemainder(a: int, b: int)
    requires b > 0 && a < 0
    ensures (a - -((-a) % b)) % b == 0
  {
    var q, m := (-a) / b, (-a) % b;
    assert -a == b * q + m;
    assert a - -m == b * -q;
    DivModUnique(a - -m, b, -q, 0);
  }

  /** `formatTime(timeMs)`: minutes, seconds and hundredths, each padded to two digits. */
  function FormatTime(timeMs: int): (s: string)
    ensures |s| >= 8
    ensures s[0] == '-' <==> timeMs < 0
  {
    var minutes := timeMs / 60000;
    var seconds := JsRem(timeMs, 60000) / 1000;
    var hundredths := JsRem(timeMs, 1000) / 10;
    Pad2(minutes) + ":" + Pad2(seconds) + "." + Pad2(hundredths)
  }

  /** The three fields a stopwatch read-out shows. */
  datatype Clock = Clock(minutes: nat, seconds: nat, hundredths: nat)

  /** The reading of `t` milliseconds: the time truncated to hundredths, split into fields. */
  function ClockOf(t: nat): (c: Clock)
    ensures c.seconds < 60 && c.hundredths < 100
    ensures t / 10 == 6000 * c.minutes + 100 * c.seconds + c.hundredths
  {
    var c := Clock(t / 60000, (t % 60000) / 1000, (t % 1000) / 10);
    ClockDecomposition(t);
    c
  }

  lemma DivModUnique(a: int, d: int, q: int, r: int)
    requires d > 0 && 0 <= r < d && a == d * q + r
    ensures a / d == q && a % d == r
  {
    var k := a / d - q;
    assert d * k == r - a % d;
    if k >= 1 {
      MulAtLeast(d, k);
    } else if k <= -1 {
      MulAtLeast(d, -k);
    }
  }

  lemma MulAtLeast(d: int, k: int)
    requires d > 0 && k >= 1
    ensures d * k >= d && d * -k <= -d
  {
    assert d * k == d + d * (k - 1);
  }

  lemma ClockDecomposition(t: nat)
    ensures (t % 60000) / 1000 < 60
    ensures t / 10 == 6000 * (t / 60000) + 100 * ((t % 60000) / 1000) + (t % 1000) / 10
  {
    var m, r1 := t / 60000, t % 60000;
    var s, r2 := r1 / 1000, r1 % 1000;
    var h, r3 := r2 / 10, r2 % 10;
    assert t == 60000 * m + r1;
    assert r1 == 1000 * s + r2;
    assert r2 == 10 * h + r3;
    DivModUnique(t, 1000, 60 * m + s, r2);
    DivModUnique(t, 10, 6000 * m + 100 * s + h, r3);
  }

  /** For a non-negative count, the JavaScript expressions reduce to plain division and remainder. */
  lemma FormatTimeFields(t: nat)
    ensures FormatTime(t) == Pad2(ClockOf(t).minutes) + ":" + Pad2(ClockOf(t).seconds)
                               + "." + Pad2(ClockOf(t).hundredths)
  {
  }

  /**
   * Reads a `MM:SS.hh` string back: all digits before the colon are the
   * minutes, then exactly two digits of seconds and two of hundredths.
   */
  function ParseTime(s: string): (r: Option<Clock>)
    ensures r.Some? ==> r.value.seconds < 100 && r.value.hundredths < 100
  {
    if |s| >= 7 && s[|s| - 6] == ':' && s[|s| - 3] == '.'
       && AllDigits(s[..|s| - 6]) && AllDigits(s[|s| - 5..|s| - 3]) && AllDigits(s[|s| - 2..])
    then
      var secs, hs := s[|s| - 5..|s| - 3], s[|s| - 2..];
      TwoDigitsBound(secs);
      TwoDigitsBound(hs);
      Some(Clock(DigitsValue(s[..|s| - 6]), DigitsValue(secs), DigitsValue(hs)))
    else None
  }

  lemma TwoDigitsBound(s: string)
    requires |s| == 2 && AllDigits(s)
    ensures DigitsValue(s) < 100
  {
    var first := s[..1];
    assert first[..0] == [];
    assert IsDigit(first[0]) && IsDigit(s[1]);
    assert DigitsValue(first) <= 9;
  }

  /** The parser splits a well-laid-out read-out back into the values of its three digit groups. */
  lemma ParseLayout(m: string, sec: string, hun: string)
    requires 1 <= |m| && |sec| == 2 && |hun| == 2
    requires AllDigits(m) && AllDigits(sec) && AllDigits(hun)
    ensures ParseTime(m + ":" + sec + "." + hun) == Some(Clock(DigitsValue(m), DigitsValue(sec), DigitsValue(hun)))
  {
    var s := m + ":" + sec + "." + hun;
    var n := |m|;
    assert |s| == n + 6;
    assert s[..n] == m;
    assert s[n + 1..n + 3] == sec;
    assert s[n + 4..] == hun;
    assert s[n] == ':' && s[n + 3] == '.';
  }

  /** A padded field of a non-negative value: its digits, its value and its width. */
  lemma Pad2Field(n: nat)
    ensures AllDigits(Pad2(n)) && DigitsValue(Pad2(n)) == n
    ensures |Pad2(n)| >= 2
    ensures n < 100 ==> |Pad2(n)| == 2
    ensures n >= 100 ==> |Pad2(n)| >= 3
  {
    assert Pad2(n) == PadStart(NatToString(n), 2);
    PaddedValue(n, 2);
    NatToStringShort(n);
  }

  /** A non-negative count formats into exactly the fields of its reading, and can be read back. */
  lemma FormatParseRoundTrip(t: nat)
    ensures ParseTime(FormatTime(t)) == Some(ClockOf(t))
  {
    var c := ClockOf(t);
    FormatTimeFields(t);
    Pad2Field(c.minutes);
    Pad2Field(c.seconds);
    Pad2Field(c.hundredths);
    ParseLayout(Pad2(c.minutes), Pad2(c.seconds), Pad2(c.hundredths));
  }

  /** The read-out is exactly eight characters long while under 100 minutes. */
  lemma FormatTimeLength(t: nat)
    ensures |FormatTime(t)| >= 8
    ensures |FormatTime(t)| == 8 <==> t < 6000000
  {
    var c := ClockOf(t);
    FormatTimeFields(t);
    Pad2Field(c.minutes);
    Pad2Field(c.seconds);
    Pad2Field(c.hundredths);
    if t >= 6000000 {
      assert c.minutes >= 100;
    }
  }

  /** Two non-negative counts give the same read-out exactly when they agree to the hundredth. */
  lemma FormatTimeInjective(a: nat, b: nat)
    ensures FormatTime(a) == FormatTime(b) <==> a / 10 == b / 10
  {
    var ca, cb := ClockOf(a), ClockOf(b);
    if FormatTime(a) == FormatTime(b) {
      FormatParseRoundTrip(a);
      FormatParseRoundTrip(b);
      assert ca == cb;
    }
    if a / 10 == b / 10 {
      ClockUnique(a / 10, ca, cb);
      FormatTimeFields(a);
      FormatTimeFields(b);
    }
  }

  lemma ClockUnique(q: nat, c: Clock, d: Clock)
    requires c.seconds < 60 && c.hundredths < 100 && q == 6000 * c.minutes + 100 * c.seconds + c.hundredths
    requires d.seconds < 60 && d.hundredths < 100 && q == 6000 * d.minutes + 100 * d.seconds + d.hundredths
    ensures c == d
  {
    DivModUnique(q, 100, 60 * c.minutes + c.seconds, c.hundredths);
    DivModUnique(q, 100, 60 * d.minutes + d.seconds, d.hundredths);
    DivModUnique(60 * c.minutes + c.seconds, 60, c.minutes, c.seconds);
    DivModUnique(60 * d.minutes + d.seconds, 60, d.minutes, d.seconds);
  }

  lemma Pad2Zero()
    ensures Pad2(0) == "00"
  {
    assert NatToString(0) == "0";
    assert IntToString(0) == "0";
  }

  /** Zero elapsed time is the literal the display shows before the clock starts. */
  lemma FormatTimeZero()
    ensures FormatTime(0) == "00:00.00"
  {
    assert FormatTime(0) == Pad2(0) + ":" + Pad2(0) + "." + Pad2(0) by {
      assert JsRem(0, 60000) == 0 && JsRem(0, 1000) == 0;
    }
    Pad2Zero();
    JoinZeros(Pad2(0));
  }

  lemma JoinZeros(p: string)
    requires p == "00"
    ensures p + ":" + p + "." + p == "00:00.00"
  {
  }

  /** A negative duration is formatted the JavaScript way, each field with its own sign. */
  lemma FormatTimeNegative()
    ensures FormatTime(-1) == "-1:-1.-1"
  {
    assert FormatTime(-1) == Pad2(-1) + ":" + Pad2(-1) + "." + Pad2(-1) by {
      assert -1 / 60000 == -1 && JsRem(-1, 60000) / 1000 == -1 && JsRem(-1, 1000) / 10 == -1;
    }
    Pad2MinusOne();
    JoinMinusOnes(Pad2(-1));
  }

  lemma JoinMinusOnes(p: string)
    requires p == "-1"
    ensures p + ":" + p + "." + p == "-1:-1.-1"
  {
  }

  lemma Pad2MinusOne()
    ensures Pad2(-1) == "-1"
  {
    assert NatToString(1) == "1";
  }

  // ---------------------------------------------------------------------
  // getTimeDisplay
  // ---------------------------------------------------------------------

  /** `!startTime` in JavaScript: true for `null` and for `0`. */
  predicate NotStarted(startTime: Option<int>): (r: bool)
    ensures r <==> startTime.GetOr(0) == 0
  {
    startTime.None? || startTime.value == 0
  }

  /**
   * The duration `getTimeDisplay()` formats once the clock has started: the
   * frozen `endTime - startTime` when the game is complete, the running
   * `now - startTime` otherwise. A missing `endTime` is `null`, which
   * JavaScript's subtraction reads as 0.
   */
  function ShownDuration(startTime: int, endTime: Option<int>, isGameComplete: bool, now: int): (r: int)
    ensures !isGameComplete ==> startTime + r == now
    ensures isGameComplete && endTime.Some? ==> startTime + r == endTime.value
    ensures isGameComplete && endTime.None? ==> r == -startTime
  {
    if isGameComplete then endTime.GetOr(0) - startTime else now - startTime
  }

  /** `getTimeDisplay()`: the zero read-out until the clock starts, then the shown duration. */
  function TimeDisplay(startTime: Option<int>, endTime: Option<int>, isGameComplete: bool, now: int): (s: string)
    ensures NotStarted(startTime) ==> s == FormatTime(0)
  {
    if NotStarted(startTime) then
      FormatTimeZero();
      "00:00.00"
    else
      FormatTime(ShownDuration(startTime.value, endTime, isGameComplete, now))
  }

  /** Once started, the display reads back as the clock fields of the (non-negative) shown duration. */
  lemma DisplayShowsDuration(startTime: Option<int>, endTime: Option<int>, isGameComplete: bool, now: int)
    requires !NotStarted(startTime)
    requires ShownDuration(startTime.value, endTime, isGameComplete, now) >= 0
    ensures ParseTime(TimeDisplay(startTime, endTime, isGameComplete, now))
            == Some(ClockOf(ShownDuration(startTime.value, endTime, isGameComplete, now)))
  {
    var d := ShownDuration(startTime.value, endTime, isGameComplete, now);
    FormatParseRoundTrip(d);
    assert TimeDisplay(startTime, endTime, isGameComplete, now) == FormatTime(d);
  }

  /** Once the game is complete, the display no longer depends on the current time. */
  lemma CompletedDisplayFrozen(startTime: Option<int>, endTime: Option<int>, now1: int, now2: int)
    ensures TimeDisplay(startTime, endTime, true, now1) == TimeDisplay(startTime, endTime, true, now2)
  {
    if !NotStarted(startTime) {
      assert ShownDuration(startTime.value, endTime, true, now1) == ShownDuration(startTime.value, endTime, true, now2);
    }
  }
}
