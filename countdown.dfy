/** The countdown of the schedule section: `useCountdown`'s `calc`, which splits the
    time left until a target instant into days, hours, minutes and seconds.
    Instants are integer milliseconds since the epoch, as `Date.getTime()` gives them. */
module Countdown {
  import opened DivMod

  const MsPerSecond: nat := 1000
  const MsPerMinute: nat := 1000 * 60
  const MsPerHour: nat := 1000 * 60 * 60
  const MsPerDay: nat := 1000 * 60 * 60 * 24

  /** What `calc` returns: `{ d, h, m, s, done }`. */
  datatype Remaining = Remaining(days: nat, hours: nat, minutes: nat, seconds: nat, done: bool)

  /** The four fields read back as a number of whole seconds. */
  function TotalSeconds(r: Remaining): nat {
    r.days * 86400 + r.hours * 3600 + r.minutes * 60 + r.seconds
  }

  /** The zero state shown once the target has been reached. */
  const Finished: Remaining := Remaining(0, 0, 0, 0, true)

  /** Milliseconds still to go, clamped at zero: the least non-negative value
      that is at least `target - now`. */
  function Diff(target: int, now: int): (diff: nat)
    ensures diff >= target - now
    ensures diff == 0 || diff == target - now
  {
    if target - now > 0 then target - now else 0
  }

  /** `calc` with integer division, given the current instant as a parameter. */
  function Calc(target: int, now: int): (r: Remaining)
    ensures r.hours < 24 && r.minutes < 60 && r.seconds < 60
    ensures r.done <==> now >= target
    ensures now >= target ==> r == Finished
  {
    var diff := Diff(target, now);
    Remaining(diff / MsPerDay, (diff / MsPerHour) % 24, (diff / MsPerMinute) % 60,
              (diff / MsPerSecond) % 60, diff == 0)
  }

  /** The fields recompose to the whole seconds left:
      `d*86400 + h*3600 + m*60 + s == diff / 1000`. */
  lemma {:induction false} Recomposition(target: int, now: int)
    ensures TotalSeconds(Calc(target, now)) == Diff(target, now) / MsPerSecond
  {
    var diff := Diff(target, now);
    var secs := diff / 1000;
    DivDiv(diff, 1000, 60);
    DivDiv(diff, 60000, 60);
    DivDiv(diff, 3600000, 24);
    DivDiv(secs, 60, 60);
    DivDiv(secs, 3600, 24);
    assert diff / MsPerMinute == secs / 60;
    assert diff / MsPerHour == secs / 3600;
    assert diff / MsPerDay == secs / 86400;
  }

  /** The countdown never overstates the time left and falls short of it by less
      than a second. */
  lemma {:induction false} WithinOneSecond(target: int, now: int)
    ensures TotalSeconds(Calc(target, now)) * 1000 <= Diff(target, now)
    ensures Diff(target, now) < (TotalSeconds(Calc(target, now)) + 1) * 1000
  {
    Recomposition(target, now);
  }

  /** The decomposition is the only one within the field bounds: any days, hours,
      minutes and seconds that respect the bounds and add up to the whole seconds
      left are the ones `Calc` returns. */
  lemma {:induction false} Uniqueness(target: int, now: int, r: Remaining)
    requires r.hours < 24 && r.minutes < 60 && r.seconds < 60
    requires TotalSeconds(r) == Diff(target, now) / MsPerSecond
    ensures r.days == Calc(target, now).days && r.hours == Calc(target, now).hours
    ensures r.minutes == Calc(target, now).minutes && r.seconds == Calc(target, now).seconds
  {
    var c := Calc(target, now);
    Recomposition(target, now);
    var secs := Diff(target, now) / MsPerSecond;
    var rm := r.days * 60 * 24 + r.hours * 60 + r.minutes;
    var cm := c.days * 60 * 24 + c.hours * 60 + c.minutes;
    assert secs == rm * 60 + r.seconds;
    assert secs == cm * 60 + c.seconds;
    DivUnique(secs, 60, rm, r.seconds);
    DivUnique(secs, 60, cm, c.seconds);
    var rh := r.days * 24 + r.hours;
    var ch := c.days * 24 + c.hours;
    DivUnique(rm, 60, rh, r.minutes);
    DivUnique(cm, 60, ch, c.minutes);
    DivUnique(rh, 24, r.days, r.hours);
    DivUnique(ch, 24, c.days, c.hours);
  }

  /** Once the countdown reads done, every later recomputation reads done and zero. */
  lemma DoneIsStable(target: int, now: int, later: int)
    requires Calc(target, now).done
    requires now <= later
    ensures Calc(target, later).done && Calc(target, later) == Finished
  {
  }

  /** `DoneIsStable` needs the later instant: a clock set back before the target
      reads not done again (for instance `Calc(10, 20)` is done, `Calc(10, 0)` is not). */
  lemma ClockSetBack(target: int, earlier: int, later: int)
    requires earlier < target <= later
    ensures Calc(target, later).done && !Calc(target, earlier).done
  {
  }

  /** As time passes the seconds left never go up. */
  lemma {:induction false} NonIncreasing(target: int, now: int, later: int)
    requires now <= later
    ensures TotalSeconds(Calc(target, later)) <= TotalSeconds(Calc(target, now))
  {
    Recomposition(target, now);
    Recomposition(target, later);
    var a, b := Diff(target, later), Diff(target, now);
    assert a <= b;
  }

  /** 90 061 000 ms to go is one day, one hour, one minute and one second. */
  lemma OneOfEach()
    ensures Calc(90061000, 0) == Remaining(1, 1, 1, 1, false)
  {
  }

  /** A target 5 000 ms in the past reads done and zero. */
  lemma AlreadyPast()
    ensures Calc(0, 5000) == Finished
  {
  }

  // ---------------------------------------------------------------------------
  // `calc` read over exact real numbers: `Math.floor((diff / unit) % modulus)`,
  // where `/` is real division and `%` is the truncating remainder of JavaScript.

  /** `x` rounded toward zero: the integer nearest `x` on the side of zero. */
  function Trunc(x: real): (t: int)
    ensures x >= 0.0 ==> t as real <= x < t as real + 1.0
    ensures x < 0.0 ==> t as real - 1.0 < x <= t as real
  {
    if x >= 0.0 then x.Floor else -((-x).Floor)
  }

  /** JavaScript's `x % y`: `x` less a whole number of `y`, with the sign of the
      dividend and a magnitude below that of the divisor. */
  function JsRem(x: real, y: real): (r: real)
    requires y != 0.0
    ensures ((x - r) / y).Floor as real == (x - r) / y
    ensures y > 0.0 && x >= 0.0 ==> 0.0 <= r < y
    ensures y > 0.0 && x < 0.0 ==> -y < r <= 0.0
  {
    var t := Trunc(x / y);
    assert y > 0.0 ==> (x >= 0.0 ==> 0.0 <= x - y * t as real < y) &&
                       (x < 0.0 ==> -y < x - y * t as real <= 0.0) by {
      if y > 0.0 { RemBounds(x, y, x / y, t); }
    }
    var r := x - y * t as real;
    WholeMultiple(x, y, r, t);
    r
  }

  /** `x - r` is `t` times `y` for an integer `t`: a whole multiple of `y`. */
  lemma WholeMultiple(x: real, y: real, r: real, t: int)
    requires y != 0.0 && r == x - y * t as real
    ensures ((x - r) / y).Floor as real == (x - r) / y
  {
    assert x - r == y * t as real;
    MulDivCancel(y, t as real);
    assert (x - r) / y == t as real;
    assert (t as real).Floor == t;
  }

  /** Multiplying by `y` and dividing by it again gives back the factor. */
  lemma MulDivCancel(y: real, t: real)
    requires y != 0.0
    ensures (y * t) / y == t
  {
  }

  /** Bounds on `x - y * t` for `t` the truncation of the quotient `q = x / y`,
      multiplied out. */
  lemma RemBounds(x: real, y: real, q: real, t: int)
    requires y > 0.0 && y * q == x
    requires q >= 0.0 ==> t as real <= q < t as real + 1.0
    requires q < 0.0 ==> t as real - 1.0 < q <= t as real
    ensures x >= 0.0 ==> 0.0 <= x - y * t as real < y
    ensures x < 0.0 ==> -y < x - y * t as real <= 0.0
  {
    var tr := t as real;
    SignOfQuotient(x, y, q);
    Factor(x, y, q, tr);
    if q >= 0.0 {
      ScaleLe(0.0, q - tr, y);
      ScaleLt(q - tr, 1.0, y);
      FactoredUp(x, y, tr, q - tr);
    } else {
      ScaleLt(-1.0, q - tr, y);
      ScaleLe(q - tr, 0.0, y);
      FactoredDown(x, y, tr, q - tr);
    }
  }

  lemma SignOfQuotient(x: real, y: real, q: real)
    requires y > 0.0 && y * q == x
    ensures x >= 0.0 <==> q >= 0.0
  {
    if q >= 0.0 { ScaleLe(0.0, q, y); } else { ScaleLt(q, 0.0, y); }
  }

  lemma Factor(x: real, y: real, q: real, t: real)
    requires y * q == x
    ensures x - y * t == y * (q - t)
  {
  }

  lemma FactoredUp(x: real, y: real, t: real, f: real)
    requires x - y * t == y * f && y * 0.0 <= y * f < y * 1.0
    ensures 0.0 <= x - y * t < y
  {
  }

  lemma FactoredDown(x: real, y: real, t: real, f: real)
    requires x - y * t == y * f && y * -1.0 < y * f <= y * 0.0
    ensures -y < x - y * t <= 0.0
  {
  }

  lemma ScaleLe(a: real, b: real, y: real)
    requires a <= b && y > 0.0
    ensures y * a <= y * b
  {
  }

  lemma ScaleLt(a: real, b: real, y: real)
    requires a < b && y > 0.0
    ensures y * a < y * b
  {
  }

  /** A real quotient of naturals is the integer quotient plus a fraction in `[0, 1)`. */
  lemma QuotientSplit(a: nat, b: nat)
    requires b > 0
    ensures a as real / b as real == (a / b) as real + (a % b) as real / b as real
    ensures 0.0 <= (a % b) as real / b as real < 1.0
  {
  }

  /** `a == q * b + r` carries over to the reals. */
  lemma CastSplit(a: int, b: int, q: int, r: int)
    requires a == q * b + r
    ensures a as real == q as real * b as real + r as real
  {
  }

  /** An integer plus a fraction in `[0, 1)` floors to the integer. */
  lemma FloorPlusFraction(n: int, f: real)
    requires 0.0 <= f < 1.0
    ensures (n as real + f).Floor == n
  {
  }

  /** `Math.floor` of a real quotient of naturals is integer division. */
  lemma FloorOfQuotient(a: nat, b: nat)
    requires b > 0
    ensures (a as real / b as real).Floor == a / b
  {
    QuotientSplit(a, b);
    FloorPlusFraction(a / b, (a % b) as real / b as real);
  }

  /** Real division twice is real division by the product. */
  lemma RealDivDiv(a: real, b: real, c: real)
    requires b != 0.0 && c != 0.0
    ensures a / b / c == a / (b * c)
  {
  }

  /** `Math.floor((diff / unit) / modulus)` is `(diff / unit) / modulus` in integers. */
  lemma FloorOfNestedQuotient(diff: nat, unit: nat, modulus: nat)
    requires unit > 0 && modulus > 0
    ensures (diff as real / unit as real / modulus as real).Floor == diff / unit / modulus
  {
    RealDivDiv(diff as real, unit as real, modulus as real);
    assert unit as real * modulus as real == (unit * modulus) as real;
    FloorOfQuotient(diff, unit * modulus);
    DivDiv(diff, unit, modulus);
  }

  /** `Math.floor((diff / unit) % modulus)` over the reals equals its integer
      counterpart `(diff / unit) % modulus`. */
  lemma {:induction false} FloorOfRem(diff: nat, unit: nat, modulus: nat)
    requires unit > 0 && modulus > 0
    ensures JsRem(diff as real / unit as real, modulus as real).Floor == (diff / unit) % modulus
  {
    var x := diff as real / unit as real;
    var q := diff / unit;
    var f := (diff % unit) as real / unit as real;
    var m := modulus as real;
    QuotientSplit(diff, unit);
    assert x == q as real + f;
    FloorOfNestedQuotient(diff, unit, modulus);
    var t := q / modulus;
    assert Trunc(x / m) == t;
    CastSplit(q, modulus, t, q % modulus);
    assert JsRem(x, m) == x - m * t as real;
    assert JsRem(x, m) == (q % modulus) as real + f;
    FloorPlusFraction(q % modulus, f);
  }

  /** One field of `calc` over the reals: `Math.floor((diff / unit) % modulus)`. */
  function ExactField(diff: nat, unit: nat, modulus: nat): (v: nat)
    requires unit > 0 && modulus > 0
    ensures v == (diff / unit) % modulus
  {
    FloorOfRem(diff, unit, modulus);
    JsRem(diff as real / unit as real, modulus as real).Floor
  }

  /** `Math.floor(diff / (1000 * 60 * 60 * 24))` over the reals. */
  function ExactDays(diff: nat): (v: nat)
    ensures v == diff / MsPerDay
  {
    FloorOfQuotient(diff, MsPerDay);
    (diff as real / MsPerDay as real).Floor
  }

  /** `calc` as written, over exact reals: it returns the same record as `Calc`. */
  function CalcExact(target: int, now: int): (r: Remaining)
    ensures r == Calc(target, now)
  {
    var diff := Diff(target, now);
    Remaining(ExactDays(diff), ExactField(diff, MsPerHour, 24), ExactField(diff, MsPerMinute, 60),
              ExactField(diff, MsPerSecond, 60), diff == 0)
  }
}
