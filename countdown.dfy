/** The mission countdown of main.js (`initCountdown`, scripts/main.js:81-111) and `getTimeRemaining` of
    utils.js (scripts/utils.js:17-26). Times are integral milliseconds; JavaScript's floating-point
    divisions are exact real divisions here, and `Math.floor` is `.Floor`. */
module Countdown {
  import opened Wrappers
  import opened Js

  const MsPerSecond: int := 1000
  const MsPerMinute: int := 60 * MsPerSecond
  const MsPerHour: int := 60 * MsPerMinute
  const MsPerDay: int := 24 * MsPerHour

  /** Days, hours, minutes and seconds of a span. */
  datatype Fields = Fields(days: int, hours: int, minutes: int, seconds: int)

  /** The milliseconds the fields stand for. */
  function Total(f: Fields): int
  {
    f.days * MsPerDay + f.hours * MsPerHour + f.minutes * MsPerMinute + f.seconds * MsPerSecond
  }

  predicate InRange(f: Fields)
  {
    0 <= f.hours < 24 && 0 <= f.minutes < 60 && 0 <= f.seconds < 60
  }

  /** Dividing by `a` and then by `b` is dividing by `a * b`, and the remainder by `a * b` carries the
      remainder of the first quotient by `b`. */
  lemma DivDiv(n: int, a: int, b: int)
    requires a > 0 && b > 0
    ensures n / a / b == n / (a * b)
    ensures n % (a * b) / a == n / a % b
  {
    var q, r := n / a, n % a;
    var Q, R := q / b, q % b;
    assert n == (a * b) * Q + (a * R + r) by {
      assert a * q == a * (b * Q + R) == (a * b) * Q + a * R;
    }
    assert a * R + r < a * b by {
      assert a * R <= a * (b - 1);
    }
    DivUnique(n, a * b, Q, a * R + r);
    DivUnique(a * R + r, a, R, r);
  }

  /** `Math.floor(n / m)`: the real quotient rounded down is integer division. */
  function FloorDiv(n: int, m: int): (q: int)
    requires m > 0
    ensures q == n / m
  {
    var r := n % m;
    assert n as real / m as real == (n / m) as real + r as real / m as real;
    assert 0.0 <= r as real / m as real < 1.0;
    (n as real / m as real).Floor
  }

  /** The four fields as main.js:86-89 computes them from `distance`. For a span that has not run out they
      are its whole seconds `u` written in the mixed radix days:24:60:60. */
  function Breakdown(distance: int): (f: Fields)
    ensures distance >= 0 ==>
              var u := distance / MsPerSecond;
              f == Fields(u / 60 / 60 / 24, u / 60 / 60 % 24, u / 60 % 60, u % 60)
  {
    var f := Fields(FloorDiv(distance, MsPerDay),
                    FloorDiv(Rem(distance, MsPerDay), MsPerHour),
                    FloorDiv(Rem(distance, MsPerHour), MsPerMinute),
                    FloorDiv(Rem(distance, MsPerMinute), MsPerSecond));
    if distance < 0 then f
    else
      DivDiv(distance, MsPerSecond, 60);
      DivDiv(distance, MsPerMinute, 60);
      DivDiv(distance, MsPerHour, 24);
      DivDiv(distance, MsPerSecond, 1);
      f
  }

  /** For a span that has not run out, each field is in range and together they account for the span up
      to the milliseconds below a second. */
  lemma BreakdownSpec(distance: int)
    requires distance >= 0
    ensures var f := Breakdown(distance);
            f.days >= 0 && InRange(f) && Total(f) <= distance < Total(f) + MsPerSecond
  {
  }

  /** The fields are the only in-range ones that account for the span: the breakdown is unique. */
  lemma BreakdownUnique(distance: int, f: Fields)
    requires distance >= 0 && InRange(f) && Total(f) <= distance < Total(f) + MsPerSecond
    ensures f == Breakdown(distance)
  {
    var u := distance / MsPerSecond;
    var v, w := f.days * 24 * 60 + f.hours * 60 + f.minutes, f.days * 24 + f.hours;
    DivUnique(distance, MsPerSecond, v * 60 + f.seconds, distance - Total(f));
    DivUnique(u, 60, v, f.seconds);
    DivUnique(v, 60, w, f.minutes);
    DivUnique(w, 24, f.days, f.hours);
  }

  /** The decimal digits of `n`, as `n.toString()` writes a non-negative integer. */
  function Decimal(n: nat): string
  {
    if n < 10 then [Digit(n)] else Decimal(n / 10) + [Digit(n % 10)]
  }

  function Digit(d: nat): char
    requires d < 10
  {
    ('0' as int + d) as char
  }

  predicate IsDigit(c: char)
  {
    '0' <= c <= '9'
  }

  predicate AllDigits(s: string)
  {
    forall k :: 0 <= k < |s| ==> IsDigit(s[k])
  }

  /** The number a string of decimal digits denotes. */
  function DigitsValue(s: string): nat
    requires AllDigits(s)
  {
    if s == [] then 0 else DigitsValue(s[..|s| - 1]) * 10 + DigitValue(s[|s| - 1])
  }

  function DigitValue(c: char): nat
    requires IsDigit(c)
  {
    c as int - '0' as int
  }

  /** `toString` writes digits only, with no leading zero, and reading them back gives `n`. */
  lemma {:induction false} DecimalDigits(n: nat)
    ensures |Decimal(n)| >= 1
    ensures AllDigits(Decimal(n))
    ensures |Decimal(n)| > 1 ==> Decimal(n)[0] != '0'
    ensures |Decimal(n)| == 1 <==> n < 10
    ensures DigitsValue(Decimal(n)) == n
  {
    if n >= 10 {
      DecimalDigits(n / 10);
      var s := Decimal(n);
      assert s[..|s| - 1] == Decimal(n / 10);
    }
  }

  /** `s.padStart(width, fill)` for a one-character fill and a string of single-unit characters. */
  function PadStart(s: string, width: nat, fill: char): string
  {
    if |s| >= width then s else seq(width - |s|, _ => fill) + s
  }

  /** `n.toString().padStart(2, '0')`: at least two characters, and the plain decimal from 10 on. */
  function Pad2(n: nat): (s: string)
    ensures |s| >= 2 && (n >= 10 ==> s == Decimal(n))
  {
    DecimalDigits(n);
    PadStart(Decimal(n), 2, '0')
  }

  /** Two-digit padding prefixes exactly one `0` below 10, keeps every wider number as it is, and does not
      change the value the digits denote. */
  lemma Pad2Spec(n: nat)
    ensures Pad2(n) == if n < 10 then "0" + Decimal(n) else Decimal(n)
    ensures |Pad2(n)| >= 2 && (n >= 100 ==> |Pad2(n)| >= 3)
    ensures AllDigits(Pad2(n))
    ensures DigitsValue(Pad2(n)) == n
  {
    DecimalDigits(n);
    if n >= 100 {
      DecimalDigits(n / 10);
    }
    if n < 10 {
      var s := Pad2(n);
      assert s[..|s| - 1] == "0";
    }
  }

  /** The texts of the four countdown elements. */
  datatype Shown = Shown(days: string, hours: string, minutes: string, seconds: string)

  /** What `updateCountdown` writes (scripts/main.js:83-111): the padded fields while time remains, `00`
      everywhere once the target has passed or when the target date did not parse (`None`, JavaScript's `NaN`).
      While time remains the elements show the in-range fields' digits. */
  function Display(target: Option<int>, now: int): (d: Shown)
    ensures target.None? || target.value - now <= 0 ==> d == Shown("00", "00", "00", "00")
    ensures target.Some? && target.value - now > 0 ==>
              var f := Breakdown(target.value - now);
              f.days >= 0 && InRange(f) && ShowsField(d.days, f.days) && ShowsField(d.hours, f.hours) &&
              ShowsField(d.minutes, f.minutes) && ShowsField(d.seconds, f.seconds)
  {
    if target.Some? && target.value - now > 0 then
      var f := Breakdown(target.value - now);
      BreakdownSpec(target.value - now);
      ShowsPadded(f.days);
      ShowsPadded(f.hours);
      ShowsPadded(f.minutes);
      ShowsPadded(f.seconds);
      Shown(Pad2(f.days), Pad2(f.hours), Pad2(f.minutes), Pad2(f.seconds))
    else Shown("00", "00", "00", "00")
  }

  /** A field shown with two-digit padding: digits whose value is the field, exactly two of them below 100. */
  predicate ShowsField(text: string, n: int)
  {
    AllDigits(text) && DigitsValue(text) == n && (n < 100 ==> |text| == 2)
  }

  lemma ShowsPadded(n: nat)
    ensures ShowsField(Pad2(n), n)
  {
    Pad2Spec(n);
    DecimalDigits(n);
    if 10 <= n < 100 {
      DecimalDigits(n / 10);
    }
  }

  /** The countdown element's four children. */
  class CountdownView {
    const target: Option<int>
    var shown: Shown

    constructor(target: Option<int>)
      ensures this.target == target && shown == Shown("", "", "", "")
    {
      this.target := target;
      shown := Shown("", "", "", "");
    }

    /** One tick of `updateCountdown` at time `now`. */
    method Update(now: int)
      modifies this
      ensures shown == Display(target, now)
    {
      if target.Some? && target.value - now > 0 {
        var distance := target.value - now;
        var days := FloorDiv(distance, MsPerDay);
        var hours := FloorDiv(Rem(distance, MsPerDay), MsPerHour);
        var minutes := FloorDiv(Rem(distance, MsPerHour), MsPerMinute);
        var seconds := FloorDiv(Rem(distance, MsPerMinute), MsPerSecond);
        shown := Shown(Pad2(days), Pad2(hours), Pad2(minutes), Pad2(seconds));
      } else {
        shown := Shown("00", "00", "00", "00");
      }
    }
  }

  /** The object `getTimeRemaining` returns. */
  datatype TimeRemaining = TimeRemaining(total: int, days: int, hours: int, minutes: int, seconds: int)

  /** `Math.trunc(x)`. */
  function Trunc(x: real): int
  {
    if x >= 0.0 then x.Floor else -((-x).Floor)
  }

  /** `x % y` on numbers: `x` less the multiple of `y` by the quotient rounded toward zero. */
  function FMod(x: real, y: real): real
    requires y > 0.0
  {
    x - y * Trunc(x / y) as real
  }

  /** `getTimeRemaining(targetDate)` (scripts/utils.js:17-26) with `Date.parse(targetDate)` as `target` and
      `Date.now()` as `now`. */
  function GetTimeRemaining(target: int, now: int): (r: TimeRemaining)
    ensures r.total == target - now && r.days == (target - now) / MsPerDay
  {
    var total := target - now;
    assert (total as real / MsPerDay as real).Floor == FloorDiv(total, MsPerDay);
    TimeRemaining(total,
                  (total as real / MsPerDay as real).Floor,
                  FMod(total as real / MsPerHour as real, 24.0).Floor,
                  FMod(total as real / 1000.0 / 60.0, 60.0).Floor,
                  FMod(total as real / 1000.0, 60.0).Floor)
  }

  /** The real quotient of integers rounded toward zero is the truncating integer quotient. */
  lemma TruncQuot(t: int, m: int)
    requires m > 0
    ensures Trunc(t as real / m as real) == Quot(t, m)
  {
    if t >= 0 {
      assert FloorDiv(t, m) == t / m;
    } else {
      assert -(t as real / m as real) == (-t) as real / m as real;
      assert FloorDiv(-t, m) == (-t) / m;
    }
  }

  lemma RealDivDiv(x: real, a: real, b: real)
    requires a > 0.0 && b > 0.0
    ensures x / a / b == x / (a * b)
  {
  }

  lemma RealSplit(x: real, a: real, b: real, n: real, r: real)
    requires a > 0.0 && r == x - a * b * n
    ensures x / a - b * n == r / a
  {
  }

  lemma CastProduct(a: int, b: int)
    ensures (a * b) as real == a as real * b as real
  {
  }

  lemma CastRemainder(t: int, ab: int, n: int, a: real, b: real)
    requires ab as real == a * b
    ensures (t - ab * n) as real == t as real - a * b * n as real
  {
    CastProduct(ab, n);
  }

  lemma TruncNested(t: int, a: int, b: int)
    requires a > 0 && b > 0
    ensures Trunc(t as real / a as real / b as real) == Quot(t, a * b)
  {
    CastProduct(a, b);
    RealDivDiv(t as real, a as real, b as real);
    TruncQuot(t, a * b);
  }

  lemma RemainderAsReal(t: int, a: int, b: int)
    requires a > 0 && b > 0
    ensures Rem(t, a * b) as real == t as real - a as real * b as real * Quot(t, a * b) as real
  {
    var ab, n := a * b, Quot(t, a * b);
    CastProduct(a, b);
    CastRemainder(t, ab, n, a as real, b as real);
    assert t - ab * n == Rem(t, ab);
  }

  lemma TruncStep(x: real, y: real, n: int)
    requires y > 0.0 && Trunc(x / y) == n
    ensures FMod(x, y) == x - y * n as real
  {
  }

  /** `(t / a) % b` is the integral remainder of `t` by `a * b`, divided by `a`. */
  lemma FModQuot(t: int, a: int, b: int)
    requires a > 0 && b > 0
    ensures FMod(t as real / a as real, b as real) == Rem(t, a * b) as real / a as real
  {
    var n, r := Quot(t, a * b), Rem(t, a * b);
    var x, y := t as real / a as real, b as real;
    TruncNested(t, a, b);
    TruncStep(x, y, n);
    assert FMod(x, y) == x - y * n as real;
    RemainderAsReal(t, a, b);
    RealSplit(t as real, a as real, y, n as real, r as real);
    assert x - y * n as real == r as real / a as real;
  }

  /** `Math.floor((t / a) % b)` is the integral remainder of `t` by `a * b`, divided by `a` and rounded down. */
  lemma FloorFMod(t: int, a: int, b: int)
    requires a > 0 && b > 0
    ensures FMod(t as real / a as real, b as real).Floor == FloorDiv(Rem(t, a * b), a)
  {
    FModQuot(t, a, b);
  }

  /** `getTimeRemaining` reports the span itself and, for every span, the very fields main.js computes. */
  lemma TimeRemainingAgrees(target: int, now: int)
    ensures GetTimeRemaining(target, now).total == target - now
    ensures var r := GetTimeRemaining(target, now);
            Fields(r.days, r.hours, r.minutes, r.seconds) == Breakdown(target - now)
  {
    var t := target - now;
    HoursAgree(t);
    MinutesAgree(t);
    SecondsAgree(t);
  }

  lemma HoursAgree(t: int)
    ensures FMod(t as real / MsPerHour as real, 24.0).Floor == FloorDiv(Rem(t, MsPerDay), MsPerHour)
  {
    FloorFMod(t, MsPerHour, 24);
  }

  lemma MinutesAgree(t: int)
    ensures FMod(t as real / 1000.0 / 60.0, 60.0).Floor == FloorDiv(Rem(t, MsPerHour), MsPerMinute)
  {
    assert t as real / 1000.0 / 60.0 == t as real / MsPerMinute as real;
    FloorFMod(t, MsPerMinute, 60);
  }

  lemma SecondsAgree(t: int)
    ensures FMod(t as real / 1000.0, 60.0).Floor == FloorDiv(Rem(t, MsPerMinute), MsPerSecond)
  {
    FloorFMod(t, MsPerSecond, 60);
  }

  /** For a span that has not run out, `getTimeRemaining`'s fields are in range and account for the span. */
  lemma TimeRemainingBounds(target: int, now: int)
    requires target - now >= 0
    ensures var r := GetTimeRemaining(target, now);
            var f := Fields(r.days, r.hours, r.minutes, r.seconds);
            InRange(f) && Total(f) <= r.total < Total(f) + MsPerSecond
  {
    var r := GetTimeRemaining(target, now);
    TimeRemainingAgrees(target, now);
    BreakdownBounds(Fields(r.days, r.hours, r.minutes, r.seconds), r.total);
  }

  lemma BreakdownBounds(f: Fields, distance: int)
    requires distance >= 0 && f == Breakdown(distance)
    ensures InRange(f) && Total(f) <= distance < Total(f) + MsPerSecond
  {
    BreakdownSpec(distance);
  }
}
