/**
 * The "TECH FEST HEADSTARTS IN" countdown of the home page: once a second the remaining
 * milliseconds are split into days, hours, minutes and seconds; at or past the target the
 * fields go to zero and the interval stops itself. Each field is shown padded to two digits.
 */
module Countdown {
  import Arith

  const MsPerSecond: int := 1000
  const MsPerMinute: int := 60 * MsPerSecond
  const MsPerHour: int := 60 * MsPerMinute
  const MsPerDay: int := 24 * MsPerHour

  /** The `timeLeft` state. Every value the page ever stores is non-negative. */
  datatype TimeLeft = TimeLeft(days: nat, hours: nat, minutes: nat, seconds: nat)

  /** The initial state, and the state once the target is reached. */
  const Zero: TimeLeft := TimeLeft(0, 0, 0, 0)

  // ---------------------------------------------------------------------------------
  // The arithmetic as the page writes it, on exact reals
  // ---------------------------------------------------------------------------------

  /** `Math.floor`: the greatest integer not above `x`. */
  function MathFloor(x: real): (z: int)
    ensures z as real <= x < z as real + 1.0
  {
    x.Floor
  }

  /** A fraction in `[0, 1)` scaled by a positive `m` lies in `[0, m)`. */
  lemma ScaleFraction(u: real, m: real)
    requires m > 0.0 && 0.0 <= u < 1.0
    ensures 0.0 <= u * m < m
  {
    assert m - u * m == (1.0 - u) * m;
  }

  /** Dividing by a positive `m` and multiplying back gives `x`, and keeps the sign of `x`. */
  lemma QuotientTimes(x: real, m: real)
    requires m > 0.0
    ensures (x / m) * m == x
    ensures x >= 0.0 <==> x / m >= 0.0
  {
    RealScale(x / m, m);
  }

  /** Taking `b` multiples of `m` off `a` multiples leaves `a - b` multiples. */
  lemma TakeMultiples(a: real, b: real, m: real)
    ensures a * m - m * b == (a - b) * m
  {
  }

  /** Negating the dividend negates the quotient and the multiple. */
  lemma NegateQuotient(x: real, m: real, t: real)
    requires m > 0.0
    ensures (-x) / m == -(x / m)
    ensures m * (-t) == -(m * t)
  {
  }

  /** A whole multiple of a positive `m`, divided by `m`. */
  lemma ExactQuotient(t: real, m: real)
    requires m > 0.0
    ensures (m * t) / m == t
  {
  }

  /** For a non-negative `x`, `x - m * floor(x / m)` lies in `[0, m)`. */
  lemma FloorRemBounds(x: real, m: real, t: int)
    requires m > 0.0 && x >= 0.0
    requires t == (x / m).Floor
    ensures 0.0 <= x - m * (t as real) < m
  {
    var q := x / m;
    QuotientTimes(x, m);
    TakeMultiples(q, t as real, m);
    var u := q - t as real;
    ScaleFraction(u, m);
    var w := u * m;
    assert 0.0 <= w < m;
    assert x - m * (t as real) == w;
  }

  /**
   * The bounds of `x - m * trunc(x / m)`: the sign follows `x`, the magnitude is below `m`,
   * and what was taken off is exactly `trunc(x / m)` multiples of `m`.
   */
  lemma TruncRemBounds(x: real, m: real, t: int)
    requires m > 0.0
    requires t == if x / m >= 0.0 then (x / m).Floor else -((-(x / m)).Floor)
    ensures x >= 0.0 ==> 0.0 <= x - m * (t as real) < m
    ensures x < 0.0 ==> -m < x - m * (t as real) <= 0.0
    ensures (x - (x - m * (t as real))) / m == t as real
  {
    QuotientTimes(x, m);
    if x >= 0.0 {
      FloorRemBounds(x, m, t);
    } else {
      NegateQuotient(x, m, t as real);
      FloorRemBounds(-x, m, -t);
    }
    ExactQuotient(t as real, m);
  }

  /**
   * JavaScript `%` on numbers: `x - m * trunc(x / m)`. The remainder takes the sign of `x`,
   * is smaller than `m` in magnitude, and differs from `x` by a whole multiple of `m`.
   */
  function JsRealRem(x: real, m: real): (r: real)
    requires m > 0.0
    ensures x >= 0.0 ==> 0.0 <= r < m
    ensures x < 0.0 ==> -m < r <= 0.0
    ensures ((x - r) / m).Floor as real == (x - r) / m
  {
    var q := x / m;
    var t := if q >= 0.0 then q.Floor else -((-q).Floor);
    TruncRemBounds(x, m, t);
    assert (t as real).Floor == t;
    x - m * (t as real)
  }

  /** An integer `z` with `z <= x < z + 1` is the floor of `x`. */
  lemma FloorUnique(x: real, z: int)
    requires z as real <= x < z as real + 1.0
    ensures x.Floor == z
  {
  }

  /** Multiplying by a positive `b` keeps a negative factor negative and a factor of at least one at least `b`. */
  lemma RealScale(u: real, b: real)
    requires b > 0.0
    ensures u < 0.0 ==> u * b < 0.0
    ensures u >= 1.0 ==> u * b >= b
  {
    if u >= 1.0 {
      assert u * b == b + (u - 1.0) * b;
    }
  }

  /** A factor that scales a positive `b` into `[0, b)` lies in `[0, 1)`. */
  lemma FractionBounds(u: real, b: real, r: real)
    requires b > 0.0 && u * b == r && 0.0 <= r < b
    ensures 0.0 <= u < 1.0
  {
    RealScale(u, b);
  }

  /** The floor of an exact quotient of naturals is the natural-number quotient. */
  lemma FloorOfQuotient(a: int, b: int)
    requires a >= 0 && b > 0
    ensures (a as real / b as real).Floor == a / b
  {
    var q, r := a / b, a % b;
    var x, qr, br, rr := a as real / b as real, q as real, b as real, r as real;
    assert a == b * q + r;
    assert (b * q) as real == br * qr;
    assert a as real == br * qr + rr;
    assert x * br == a as real;
    var u := x - qr;
    assert u * br == x * br - qr * br;
    assert u * br == rr;
    assert 0.0 <= rr < br;
    FractionBounds(u, br, rr);
    FloorUnique(x, q);
  }

  /**
   * `Math.floor((a / unit) % m)` on a non-negative `a` is `(a div unit) mod m`:
   * the page's floating expression and natural-number arithmetic agree (exactly, on reals).
   */
  lemma FloorRemAgrees(a: int, unit: int, m: int)
    requires a >= 0 && unit > 0 && m > 0
    ensures MathFloor(JsRealRem(a as real / unit as real, m as real)) == (a / unit) % m
  {
    var x := a as real / unit as real;
    var um := unit * m;
    Arith.DivDiv(a, unit, m);
    assert um as real == unit as real * m as real;
    assert x / m as real == a as real / um as real;
    FloorOfQuotient(a, um);
    var big := a / um;
    assert JsRealRem(x, m as real) == x - (m * big) as real;
    FloorOfQuotient(a, unit);
    var y := a / unit;
    FloorUnique(x - (m * big) as real, y - m * big);
    assert (a / unit) / m == big;
  }

  /** The page's days expression is natural-number division by the milliseconds in a day. */
  lemma DaysFormula(difference: int)
    requires difference >= 0
    ensures MathFloor(difference as real / (1000.0 * 60.0 * 60.0 * 24.0)) == difference / MsPerDay
  {
    assert MsPerDay as real == 1000.0 * 60.0 * 60.0 * 24.0;
    FloorOfQuotient(difference, MsPerDay);
  }

  /** The page's hours expression is the whole hours modulo 24. */
  lemma HoursFormula(difference: int)
    requires difference >= 0
    ensures MathFloor(JsRealRem(difference as real / (1000.0 * 60.0 * 60.0), 24.0))
      == (difference / MsPerHour) % 24
  {
    assert MsPerHour as real == 1000.0 * 60.0 * 60.0;
    FloorRemAgrees(difference, MsPerHour, 24);
  }

  /** The page's minutes expression, dividing by 1000 and then by 60, is the whole minutes modulo 60. */
  lemma MinutesFormula(difference: int)
    requires difference >= 0
    ensures MathFloor(JsRealRem(difference as real / 1000.0 / 60.0, 60.0))
      == (difference / MsPerMinute) % 60
  {
    assert difference as real / 1000.0 / 60.0 == difference as real / MsPerMinute as real;
    FloorRemAgrees(difference, MsPerMinute, 60);
  }

  /** The page's seconds expression is the whole seconds modulo 60. */
  lemma SecondsFormula(difference: int)
    requires difference >= 0
    ensures MathFloor(JsRealRem(difference as real / 1000.0, 60.0)) == (difference / MsPerSecond) % 60
  {
    FloorRemAgrees(difference, MsPerSecond, 60);
  }

  /**
   * The interval's split of a positive remaining time `difference` (milliseconds).
   * The body is the page's own expressions; the contract gives the same fields in
   * natural-number arithmetic, with their ranges.
   */
  function Breakdown(difference: int): (t: TimeLeft)
    requires difference > 0
    ensures t.days == difference / MsPerDay
    ensures t.hours == (difference / MsPerHour) % 24
    ensures t.minutes == (difference / MsPerMinute) % 60
    ensures t.seconds == (difference / MsPerSecond) % 60
    ensures t.hours < 24 && t.minutes < 60 && t.seconds < 60
  {
    var d := difference as real;
    DaysFormula(difference);
    HoursFormula(difference);
    MinutesFormula(difference);
    SecondsFormula(difference);
    var days := MathFloor(d / (1000.0 * 60.0 * 60.0 * 24.0));
    var hours := MathFloor(JsRealRem(d / (1000.0 * 60.0 * 60.0), 24.0));
    var minutes := MathFloor(JsRealRem(d / 1000.0 / 60.0, 60.0));
    var seconds := MathFloor(JsRealRem(d / 1000.0, 60.0));
    TimeLeft(days, hours, minutes, seconds)
  }

  /** The four fields add back up to the whole seconds remaining. */
  lemma Reconstruction(difference: int)
    requires difference > 0
    ensures var t := Breakdown(difference);
      t.days * 86400 + t.hours * 3600 + t.minutes * 60 + t.seconds == difference / MsPerSecond
  {
    var t := Breakdown(difference);
    var s := difference / MsPerSecond;
    Arith.DivDiv(difference, MsPerSecond, 60);
    Arith.DivDiv(difference, MsPerMinute, 60);
    Arith.DivDiv(difference, MsPerHour, 24);
    var m := s / 60;
    var h := m / 60;
    assert difference / MsPerMinute == m;
    assert difference / MsPerHour == h;
    assert t.days == h / 24;
    assert s == 60 * m + t.seconds;
    assert m == 60 * h + t.minutes;
    assert h == 24 * t.days + t.hours;
  }

  /**
   * The split is the only one with hours below 24 and minutes and seconds below 60
   * that adds back up to the whole seconds remaining.
   */
  lemma BreakdownUnique(difference: int, t: TimeLeft)
    requires difference > 0
    requires t.hours < 24 && t.minutes < 60 && t.seconds < 60
    requires t.days * 86400 + t.hours * 3600 + t.minutes * 60 + t.seconds == difference / MsPerSecond
    ensures t == Breakdown(difference)
  {
    var s := difference / MsPerSecond;
    Arith.DivDiv(difference, MsPerSecond, 60);
    Arith.DivDiv(difference, MsPerMinute, 60);
    Arith.DivDiv(difference, MsPerHour, 24);
    var m := t.days * 1440 + t.hours * 60 + t.minutes;
    var h := t.days * 24 + t.hours;
    Arith.DivModUnique(s, 60, m, t.seconds);
    Arith.DivModUnique(m, 60, h, t.minutes);
    Arith.DivModUnique(h, 24, t.days, t.hours);
  }

  /** Under one second left, every field already shows zero while the interval keeps running. */
  lemma UnderOneSecondShowsZero(difference: int)
    requires 0 < difference < MsPerSecond
    ensures Breakdown(difference) == Zero
  {
    Arith.SmallMod(difference, MsPerSecond);
    Arith.DivDiv(difference, MsPerSecond, 60);
    Arith.DivDiv(difference, MsPerMinute, 60);
    Arith.DivDiv(difference, MsPerHour, 24);
  }

  // ---------------------------------------------------------------------------------
  // The interval as a state machine
  // ---------------------------------------------------------------------------------

  /** Hours below 24, minutes and seconds below 60: what every stored `timeLeft` satisfies. */
  predicate InRange(t: TimeLeft) {
    t.hours < 24 && t.minutes < 60 && t.seconds < 60
  }

  /** The countdown's state: the shown fields and whether the interval is still armed. */
  datatype Clock = Clock(timeLeft: TimeLeft, running: bool)

  /**
   * One firing of the interval, given `targetDate - now`. A cleared interval never fires;
   * a positive difference stores its split; otherwise the fields go to zero and the
   * interval is cleared. The fields stay in range.
   */
  function Step(c: Clock, difference: int): (c': Clock)
    ensures !c.running ==> c' == c
    ensures c.running && difference > 0 ==> c'.running && c'.timeLeft == Breakdown(difference)
    ensures c.running && difference <= 0 ==> !c'.running && c'.timeLeft == Zero
    ensures InRange(c.timeLeft) ==> InRange(c'.timeLeft)
  {
    if !c.running then c
    else if difference > 0 then Clock(Breakdown(difference), true)
    else Clock(Zero, false)
  }

  /**
   * The state after the interval fires once for each difference in `ds`, in order.
   * The interval is never re-armed, a stopped result is either the start or all zero,
   * and the fields stay in range.
   */
  function Run(c: Clock, ds: seq<int>): (c': Clock)
    ensures c'.running ==> c.running
    ensures !c'.running ==> c' == c || c'.timeLeft == Zero
    ensures InRange(c.timeLeft) ==> InRange(c'.timeLeft)
    decreases |ds|
  {
    if ds == [] then c else Run(Step(c, ds[0]), ds[1..])
  }

  /** Once the interval is cleared, no later firing changes anything: the stopped state is terminal. */
  lemma {:induction false} StoppedIsTerminal(c: Clock, ds: seq<int>)
    requires !c.running
    ensures Run(c, ds) == c
    decreases |ds|
  {
    if ds != [] {
      StoppedIsTerminal(Step(c, ds[0]), ds[1..]);
    }
  }

  /** A running countdown that reaches a non-positive difference ends at zero, stopped, for good. */
  lemma {:induction false} NonPositiveStops(c: Clock, ds: seq<int>, k: nat)
    requires c.running && k < |ds| && ds[k] <= 0
    ensures Run(c, ds) == Clock(Zero, false)
    decreases |ds|
  {
    if k == 0 {
      StoppedIsTerminal(Clock(Zero, false), ds[1..]);
    } else {
      var c' := Step(c, ds[0]);
      if c'.running {
        NonPositiveStops(c', ds[1..], k - 1);
      } else {
        assert c' == Clock(Zero, false);
        StoppedIsTerminal(c', ds[1..]);
      }
    }
  }

  /** While every difference is positive the interval stays armed and shows the split of the latest one. */
  lemma {:induction false} RunningWhilePositive(c: Clock, ds: seq<int>)
    requires c.running && ds != []
    requires forall k :: 0 <= k < |ds| ==> ds[k] > 0
    ensures Run(c, ds) == Clock(Breakdown(ds[|ds| - 1]), true)
    decreases |ds|
  {
    var c' := Step(c, ds[0]);
    if |ds| > 1 {
      RunningWhilePositive(c', ds[1..]);
    }
  }

  // ---------------------------------------------------------------------------------
  // Display: String(n).padStart(2, '0')
  // ---------------------------------------------------------------------------------

  predicate IsDigit(c: char) {
    '0' <= c <= '9'
  }

  predicate AllDigits(s: string) {
    forall i :: 0 <= i < |s| ==> IsDigit(s[i])
  }

  function DigitChar(d: nat): (c: char)
    requires d < 10
    ensures IsDigit(c) && c as int - '0' as int == d
  {
    ('0' as int + d) as char
  }

  /** The value of a string of decimal digits; the inverse of `Decimal`. */
  function DigitsValue(s: string): nat
    requires AllDigits(s)
    decreases |s|
  {
    if s == [] then 0 else DigitsValue(s[..|s| - 1]) * 10 + (s[|s| - 1] as int - '0' as int)
  }

  /** `String(n)` for a natural number: its decimal digits, with no leading zero. */
  function Decimal(n: nat): (s: string)
    ensures AllDigits(s) && |s| >= 1
    ensures |s| == 1 <==> n < 10
    ensures s[0] != '0' || n == 0
    ensures n < 100 ==> |s| <= 2
    ensures n >= 100 ==> |s| >= 3
    decreases n
  {
    if n < 10 then [DigitChar(n)] else Decimal(n / 10) + [DigitChar(n % 10)]
  }

  /** Reading back the decimal string gives the number. */
  lemma {:induction false} DecimalRoundTrip(n: nat)
    ensures DigitsValue(Decimal(n)) == n
    decreases n
  {
    if n >= 10 {
      DecimalRoundTrip(n / 10);
      var s := Decimal(n);
      assert s[..|s| - 1] == Decimal(n / 10);
    }
  }

  /** `s.padStart(width, fill)` for a one-character fill: `fill` repeated on the left up to `width`. */
  function PadStart(s: string, width: nat, fill: char): (r: string)
    ensures |r| == if |s| >= width then |s| else width
    ensures r[|r| - |s|..] == s
    ensures forall i :: 0 <= i < |r| - |s| ==> r[i] == fill
  {
    if |s| >= width then s else seq(width - |s|, _ => fill) + s
  }

  /** `String(n).padStart(2, '0')`. */
  function Pad2(n: nat): (r: string)
    ensures n < 10 ==> r == ['0', DigitChar(n)]
    ensures n >= 10 ==> r == Decimal(n)
    ensures AllDigits(r) && |r| >= 2
    ensures n < 100 ==> |r| == 2
    ensures n >= 100 ==> |r| >= 3
  {
    PadStart(Decimal(n), 2, '0')
  }

  /** The padded text still reads back as the number. */
  lemma Pad2RoundTrip(n: nat)
    ensures DigitsValue(Pad2(n)) == n
  {
    if n < 10 {
      var r := Pad2(n);
      assert r[..1] == ['0'];
      assert DigitsValue(r[..1]) == 0 by {
        assert r[..1][..0] == [];
      }
    } else {
      DecimalRoundTrip(n);
    }
  }

  /** The four cells under DAYS, HOURS, MIN and SEC. */
  function Cells(t: TimeLeft): (cells: seq<string>)
    ensures cells == [Pad2(t.days), Pad2(t.hours), Pad2(t.minutes), Pad2(t.seconds)]
    ensures |cells| == 4
    ensures AllDigits(cells[0]) && AllDigits(cells[1]) && AllDigits(cells[2]) && AllDigits(cells[3])
    ensures |cells[0]| >= 2 && |cells[1]| >= 2 && |cells[2]| >= 2 && |cells[3]| >= 2
    ensures t.hours < 24 && t.minutes < 60 && t.seconds < 60 ==> |cells[1]| == 2 && |cells[2]| == 2 && |cells[3]| == 2
    ensures DigitsValue(cells[0]) == t.days && DigitsValue(cells[1]) == t.hours
    ensures DigitsValue(cells[2]) == t.minutes && DigitsValue(cells[3]) == t.seconds
  {
    Pad2RoundTrip(t.days);
    Pad2RoundTrip(t.hours);
    Pad2RoundTrip(t.minutes);
    Pad2RoundTrip(t.seconds);
    var d, h, m, s := Pad2(t.days), Pad2(t.hours), Pad2(t.minutes), Pad2(t.seconds);
    [d, h, m, s]
  }

  // ---------------------------------------------------------------------------------
  // The component
  // ---------------------------------------------------------------------------------

  /** The `timeLeft` state and the interval that overwrites it each second until it clears itself. */
  class CountdownTimer {
    var timeLeft: TimeLeft
    var running: bool

    /** The stored fields are always in range. */
    ghost predicate Valid()
      reads this
    {
      InRange(timeLeft)
    }

    /** Mount: all four fields zero, the interval armed. */
    constructor ()
      ensures Valid()
      ensures timeLeft == Zero && running
    {
      timeLeft := Zero;
      running := true;
    }

    /**
     * The interval fires with `difference = targetDate - now`. A positive difference stores
     * its split; otherwise the fields go to zero and the interval is cleared. A cleared
     * interval does not fire, so nothing changes.
     */
    method Tick(difference: int)
      requires Valid()
      modifies this
      ensures Valid()
      ensures Clock(timeLeft, running) == Step(Clock(old(timeLeft), old(running)), difference)
      ensures old(running) && difference > 0 ==> timeLeft == Breakdown(difference) && running
      ensures old(running) && difference <= 0 ==> timeLeft == Zero && !running
      ensures !old(running) ==> timeLeft == old(timeLeft) && !running
    {
      if running {
        if difference > 0 {
          timeLeft := Breakdown(difference);
        } else {
          timeLeft := Zero;
          running := false;
        }
      }
    }

    /** The text of the four cells; HOURS, MIN and SEC always take exactly two characters. */
    function Display(): (cells: seq<string>)
      requires Valid()
      reads this
      ensures |cells| == 4
      ensures cells[0] == Pad2(timeLeft.days) && cells[1] == Pad2(timeLeft.hours)
      ensures cells[2] == Pad2(timeLeft.minutes) && cells[3] == Pad2(timeLeft.seconds)
      ensures |cells[0]| >= 2 && |cells[1]| == 2 && |cells[2]| == 2 && |cells[3]| == 2
      ensures AllDigits(cells[0]) && AllDigits(cells[1]) && AllDigits(cells[2]) && AllDigits(cells[3])
      ensures DigitsValue(cells[0]) == timeLeft.days && DigitsValue(cells[1]) == timeLeft.hours
      ensures DigitsValue(cells[2]) == timeLeft.minutes && DigitsValue(cells[3]) == timeLeft.seconds
    {
      var t := timeLeft;
      assert t.hours < 24 && t.minutes < 60 && t.seconds < 60;
      Cells(t)
    }
  }
}
