/** The countdown shown on a sealed capsule: the time left until the unlock
    instant, split into days, hours, minutes and seconds, recomputed every
    second, and the unlock callback fired once the instant has passed.
    Instants are integer milliseconds. */
module CountdownTimer {
  import opened Wrappers
  import opened JsString
  import opened Hex

  const MillisPerSecond: nat := 1000
  const MillisPerMinute: nat := 60 * 1000
  const MillisPerHour: nat := 60 * 60 * 1000
  const MillisPerDay: nat := 24 * 60 * 60 * 1000
  /** Period of the refresh interval, in milliseconds. */
  const TickMillis: nat := 1000

  datatype TimeLeft = TimeLeft(days: int, hours: int, minutes: int, seconds: int)

  const Zero := TimeLeft(0, 0, 0, 0)

  /** The whole milliseconds a `TimeLeft` stands for. */
  function Millis(t: TimeLeft): int {
    t.days * MillisPerDay + t.hours * MillisPerHour + t.minutes * MillisPerMinute + t.seconds * MillisPerSecond
  }

  /** A decomposition with every unit below its carry. */
  predicate Normal(t: TimeLeft) {
    0 <= t.days && 0 <= t.hours < 24 && 0 <= t.minutes < 60 && 0 <= t.seconds < 60
  }

  /** `(x % (a * b)) % a == x % a`: reducing by a multiple first changes nothing. */
  lemma ModOfMod(x: int, a: int, b: int)
    requires a > 0 && b > 0
    ensures (x % (a * b)) % a == x % a
  {
    var q := x / (a * b);
    var r := x % (a * b);
    assert x == q * b * a + r;
    var q2 := r / a;
    var r2 := r % a;
    assert x == (q * b + q2) * a + r2;
    DivModUnique(x, a, q * b + q2, r2);
  }

  /** Euclidean division is determined by quotient and remainder. */
  lemma DivModUnique(x: int, n: int, q: int, r: int)
    requires n > 0 && 0 <= r < n && x == q * n + r
    ensures x / n == q && x % n == r
  {
    var q0, r0 := x / n, x % n;
    var k := q - q0;
    assert k * n == r0 - r by {
      assert q * n - q0 * n == (q - q0) * n;
    }
    if k > 0 {
      MulAtLeast(k, n);
    } else if k < 0 {
      MulAtLeast(-k, n);
    }
  }

  lemma MulAtLeast(k: int, n: int)
    requires k >= 1 && n > 0
    ensures k * n >= n
  {
    assert k * n == (k - 1) * n + n;
    assert (k - 1) * n >= 0;
  }

  /** `calculateTimeLeft` at clock `now`: all zeros once the unlock instant is
      reached, otherwise the remaining milliseconds in normal form, truncated
      to whole seconds. */
  function CalculateTimeLeft(target: int, now: int): (t: TimeLeft)
    ensures target - now <= 0 ==> t == Zero
    ensures target - now > 0 ==> Normal(t) && t.days == (target - now) / MillisPerDay
    ensures target - now > 0 ==> Millis(t) <= target - now < Millis(t) + 1000
  {
    var d := target - now;
    if d <= 0 then Zero
    else
      var t := TimeLeft(d / MillisPerDay,
                        (d % MillisPerDay) / MillisPerHour,
                        (d % MillisPerHour) / MillisPerMinute,
                        (d % MillisPerMinute) / MillisPerSecond);
      Covers(d);
      t
  }

  /** The four units cover `d` to within a second. */
  lemma Covers(d: int)
    requires d > 0
    ensures var t := TimeLeft(d / MillisPerDay, (d % MillisPerDay) / MillisPerHour,
                              (d % MillisPerHour) / MillisPerMinute, (d % MillisPerMinute) / MillisPerSecond);
            Millis(t) <= d < Millis(t) + 1000
  {
    var t := TimeLeft(d / MillisPerDay, (d % MillisPerDay) / MillisPerHour,
                      (d % MillisPerHour) / MillisPerMinute, (d % MillisPerMinute) / MillisPerSecond);
    ModOfMod(d, MillisPerHour, 24);
    ModOfMod(d, MillisPerMinute, 60);
    ModOfMod(d, MillisPerSecond, 60);
    assert d == t.days * MillisPerDay + d % MillisPerDay;
    assert d % MillisPerDay == t.hours * MillisPerHour + d % MillisPerHour;
    assert d % MillisPerHour == t.minutes * MillisPerMinute + d % MillisPerMinute;
    assert d % MillisPerMinute == t.seconds * MillisPerSecond + d % MillisPerSecond;
  }

  /** The decomposition is the only normal one that covers the remaining time
      to within a second. */
  lemma TimeLeftUnique(target: int, now: int, u: TimeLeft)
    requires target - now > 0 && Normal(u)
    requires Millis(u) <= target - now < Millis(u) + 1000
    ensures u == CalculateTimeLeft(target, now)
  {
    var d := target - now;
    var r3 := d - Millis(u);
    DivModUnique(d, MillisPerDay, u.days, u.hours * MillisPerHour + u.minutes * MillisPerMinute + u.seconds * MillisPerSecond + r3);
    DivModUnique(d % MillisPerDay, MillisPerHour, u.hours, u.minutes * MillisPerMinute + u.seconds * MillisPerSecond + r3);
    DivModUnique(d, MillisPerHour, u.days * 24 + u.hours, u.minutes * MillisPerMinute + u.seconds * MillisPerSecond + r3);
    DivModUnique(d % MillisPerHour, MillisPerMinute, u.minutes, u.seconds * MillisPerSecond + r3);
    DivModUnique(d, MillisPerMinute, (u.days * 24 + u.hours) * 60 + u.minutes, u.seconds * MillisPerSecond + r3);
    DivModUnique(d % MillisPerMinute, MillisPerSecond, u.seconds, r3);
  }

  /** The displayed time never grows while the clock advances. */
  lemma TimeLeftNonIncreasing(target: int, now: int, later: int)
    requires now <= later
    ensures Millis(CalculateTimeLeft(target, later)) <= Millis(CalculateTimeLeft(target, now))
  {
    var t1, t2 := CalculateTimeLeft(target, now), CalculateTimeLeft(target, later);
    if target - later > 0 {
      WholeSeconds(t1);
      WholeSeconds(t2);
      var m1, m2 := Millis(t1), Millis(t2);
      assert m2 < m1 + 1000;
      assert m2 / 1000 <= m1 / 1000;
    } else {
      assert Normal(t1) || t1 == Zero;
    }
  }

  /** A decomposition stands for a whole number of seconds. */
  lemma WholeSeconds(t: TimeLeft)
    ensures Millis(t) % 1000 == 0
  {
    var s := t.days * 86400 + t.hours * 3600 + t.minutes * 60 + t.seconds;
    assert Millis(t) == s * 1000;
  }

  /** One box of the display: its label and its two-digit value. */
  datatype Unit = Unit(name: string, text: string)

  class Countdown {
    const unlockAt: int
    var timeLeft: TimeLeft
    var isComplete: bool
    /** How many times `onUnlock` has been called. */
    var unlockCalls: nat
    /** Whether the refresh interval is installed. */
    var running: bool

    /** First render: zeros, not complete, no interval yet. */
    constructor (unlockAt: int)
      ensures this.unlockAt == unlockAt
      ensures timeLeft == Zero && !isComplete && unlockCalls == 0 && !running
    {
      this.unlockAt := unlockAt;
      timeLeft := Zero;
      isComplete := false;
      unlockCalls := 0;
      running := false;
    }

    /** One evaluation of `calculateTimeLeft` and the state update around it. */
    method Refresh(now: int)
      modifies this
      ensures timeLeft == CalculateTimeLeft(unlockAt, now)
      ensures isComplete == (old(isComplete) || unlockAt <= now)
      ensures unlockCalls == old(unlockCalls) + (if unlockAt <= now then 1 else 0)
      ensures running == old(running)
    {
      if unlockAt - now <= 0 {
        isComplete := true;
        unlockCalls := unlockCalls + 1;
      }
      timeLeft := CalculateTimeLeft(unlockAt, now);
    }

    /** The effect: compute once, then install the one-second interval. */
    method Mount(now: int)
      modifies this
      ensures timeLeft == CalculateTimeLeft(unlockAt, now)
      ensures isComplete == (old(isComplete) || unlockAt <= now)
      ensures unlockCalls == old(unlockCalls) + (if unlockAt <= now then 1 else 0)
      ensures running
    {
      Refresh(now);
      running := true;
    }

    /** An interval callback at clock `now`; nothing happens once the interval
        is cleared. The callback keeps firing `onUnlock` on every tick after the
        unlock instant, since completion does not clear the interval. */
    method Tick(now: int)
      modifies this
      ensures old(running) ==> timeLeft == CalculateTimeLeft(unlockAt, now)
      ensures old(running) ==> isComplete == (old(isComplete) || unlockAt <= now)
      ensures old(running) ==> unlockCalls == old(unlockCalls) + (if unlockAt <= now then 1 else 0)
      ensures !old(running) ==> timeLeft == old(timeLeft) && isComplete == old(isComplete) && unlockCalls == old(unlockCalls)
      ensures running == old(running)
    {
      if running {
        Refresh(now);
      }
    }

    /** The effect's cleanup: clear the interval. */
    method Cleanup()
      modifies this
      ensures !running
      ensures timeLeft == old(timeLeft) && isComplete == old(isComplete) && unlockCalls == old(unlockCalls)
    {
      running := false;
    }

    /** What the component renders: nothing once complete, otherwise four
        labelled boxes holding the time left, each at least two digits. */
    function Render(): (r: Option<seq<Unit>>)
      reads this
      ensures r.None? <==> isComplete
      ensures r.Some? ==> |r.value| == 4 && forall k :: 0 <= k < 4 ==> |r.value[k].text| >= 2
      ensures r.Some? ==>
                r.value[0].name == "Days" && r.value[1].name == "Hours" &&
                r.value[2].name == "Minutes" && r.value[3].name == "Seconds"
      ensures r.Some? ==>
                r.value[0].text == Pad(timeLeft.days) && r.value[1].text == Pad(timeLeft.hours) &&
                r.value[2].text == Pad(timeLeft.minutes) && r.value[3].text == Pad(timeLeft.seconds)
      ensures r.Some? && Normal(timeLeft) ==>
                DecimalValue(r.value[0].text) == timeLeft.days && DecimalValue(r.value[1].text) == timeLeft.hours &&
                DecimalValue(r.value[2].text) == timeLeft.minutes && DecimalValue(r.value[3].text) == timeLeft.seconds
    {
      if isComplete then None
      else Some([Unit("Days", Pad(timeLeft.days)), Unit("Hours", Pad(timeLeft.hours)),
                 Unit("Minutes", Pad(timeLeft.minutes)), Unit("Seconds", Pad(timeLeft.seconds))])
    }
  }

  /** `String(v).padStart(2, '0')`. The values shown are never negative; for
      those the result is the decimal text, with one leading zero below ten,
      and reads back as `v`. */
  function Pad(v: int): (r: string)
    ensures |r| >= 2
    ensures v >= 0 ==> r == (if v < 10 then "0" else "") + DecimalString(v)
    ensures v >= 0 ==> (forall k :: 0 <= k < |r| ==> IsDigit(r[k])) && DecimalValue(r) == v
  {
    if v < 0 then PadStart2("-" + DecimalString(-v))
    else
      var d := DecimalString(v);
      DecimalStringValue(v);
      if v < 10 then
        assert PadStart2(d) == ['0'] + d;
        LeadingZeroValue(d);
        PadStart2(d)
      else PadStart2(d)
  }
}
