/**
 * The selection-cutoff gate of src/utils/dateUtils.ts.
 *
 * The source reads the ambient clock (`new Date()`) and compares it with today's
 * date at 21:00:00.000 local time. Here the clock is an explicit argument: the
 * local wall-clock time as milliseconds since local midnight. Both `now` and the
 * cutoff lie on the same calendar day, so the difference of their absolute
 * timestamps equals the difference of their times of day.
 */
module Cutoff {

  const MsPerSecond: nat := 1000
  const MsPerMinute: nat := 60 * MsPerSecond
  const MsPerHour: nat := 60 * MsPerMinute
  const MsPerDay: nat := 24 * MsPerHour

  /** The hour that `getCutoffTime` passes to `setHours`. */
  const CutoffHour: nat := 21

  /** A local time of day, in milliseconds since local midnight. */
  type MsOfDay = t: int | 0 <= t < MsPerDay

  /** The `{ hours, minutes, seconds }` object returned by `getTimeUntilCutoff`. */
  datatype Remaining = Remaining(hours: nat, minutes: nat, seconds: nat)

  /** The milliseconds a triple stands for. */
  function ToMs(r: Remaining): nat {
    r.hours * MsPerHour + r.minutes * MsPerMinute + r.seconds * MsPerSecond
  }

  /** The whole seconds a triple stands for: the countdown's total. */
  function TotalSeconds(r: Remaining): nat {
    r.hours * 3600 + r.minutes * 60 + r.seconds
  }

  /** `r` is the floor decomposition of `diff` milliseconds. */
  predicate IsFloorDecomposition(r: Remaining, diff: int) {
    && r.minutes < 60
    && r.seconds < 60
    && ToMs(r) <= diff < ToMs(r) + MsPerSecond
  }

  /**
   * `getCutoffTime`: today's date with hours, minutes, seconds and milliseconds
   * set to 21, 0, 0, 0.
   */
  function CutoffTime(): (c: MsOfDay)
    ensures c / MsPerHour == CutoffHour
    ensures c % MsPerHour == 0
    ensures c == 75_600_000
  {
    CutoffHour * MsPerHour
  }

  /**
   * `isCutoffPassed`: the current instant is strictly later than the cutoff. In
   * wall-clock terms: from hour 21 on, except the instant 21:00:00.000 itself.
   */
  predicate IsCutoffPassed(now: MsOfDay)
    ensures IsCutoffPassed(now) <==> now / MsPerHour >= CutoffHour && now != CutoffTime()
  {
    now > CutoffTime()
  }

  /**
   * The three divisions of `getTimeUntilCutoff`: whole hours of `diff`, whole
   * minutes of what is left after the hours, whole seconds of what is left
   * after the minutes. `diff` is never negative where the source divides, so
   * JavaScript's truncating `%` and `Math.floor` agree with Dafny's `%` and `/`.
   */
  function Split(diff: nat): (r: Remaining)
    ensures IsFloorDecomposition(r, diff)
  {
    var h := diff / MsPerHour;
    var afterHours := diff % MsPerHour;
    var m := afterHours / MsPerMinute;
    var s := (diff % MsPerMinute) / MsPerSecond;
    assert diff == h * MsPerHour + afterHours;
    assert afterHours == m * MsPerMinute + afterHours % MsPerMinute;
    SubMinuteRemainder(diff, h);
    Remaining(h, m, s)
  }

  /** Removing whole hours does not change the remainder modulo a minute. */
  lemma SubMinuteRemainder(diff: nat, h: nat)
    requires h == diff / MsPerHour
    ensures (diff % MsPerHour) % MsPerMinute == diff % MsPerMinute
  {
    var a := diff % MsPerHour;
    assert diff == h * MsPerHour + a;
    assert h * MsPerHour == (h * 60) * MsPerMinute;
    var q := a / MsPerMinute;
    assert a == q * MsPerMinute + a % MsPerMinute;
    assert diff == (h * 60 + q) * MsPerMinute + a % MsPerMinute;
    DivModUnique(diff, MsPerMinute, h * 60 + q, a % MsPerMinute);
  }

  /** A quotient and remainder within bounds are the quotient and remainder. */
  lemma DivModUnique(n: nat, d: nat, q: nat, rest: nat)
    requires 0 < d && rest < d && n == q * d + rest
    ensures n / d == q && n % d == rest
  {
    var q' := n / d;
    var rest' := n % d;
    assert n == q' * d + rest';
    if q' < q {
      assert q' * d + d <= q * d by { MulMonotone(q' + 1, q, d); }
      assert false;
    } else if q' > q {
      assert q * d + d <= q' * d by { MulMonotone(q + 1, q', d); }
      assert false;
    }
  }

  lemma MulMonotone(a: nat, b: nat, d: nat)
    requires a <= b
    ensures a * d <= b * d
  {
  }

  /**
   * `getTimeUntilCutoff`: (0, 0, 0) once the cutoff has passed, otherwise the
   * floor decomposition of the milliseconds left until the cutoff.
   */
  function TimeUntilCutoff(now: MsOfDay): (r: Remaining)
    ensures IsCutoffPassed(now) ==> r == Remaining(0, 0, 0)
    ensures !IsCutoffPassed(now) ==> IsFloorDecomposition(r, CutoffTime() - now)
    ensures r.hours <= CutoffHour && r.minutes <= 59 && r.seconds <= 59
  {
    if IsCutoffPassed(now) then Remaining(0, 0, 0)
    else
      var r := Split(CutoffTime() - now);
      assert r.hours * MsPerHour <= CutoffTime();
      r
  }

  // ---------------------------------------------------------------------------
  // Properties of the gate
  // ---------------------------------------------------------------------------

  /** The gate is strict: open at exactly 21:00:00.000, closed one millisecond later. */
  lemma CutoffBoundary()
    ensures !IsCutoffPassed(75_600_000)
    ensures IsCutoffPassed(75_600_001)
    ensures TimeUntilCutoff(75_600_000) == Remaining(0, 0, 0)
  {
  }

  /** Within a day the gate only goes from open to closed, never back. */
  lemma GateOneWay(earlier: MsOfDay, later: MsOfDay)
    requires earlier <= later
    ensures IsCutoffPassed(earlier) ==> IsCutoffPassed(later)
    ensures !IsCutoffPassed(later) ==> !IsCutoffPassed(earlier)
  {
  }

  /** The floor decomposition of a duration is unique, so `Split` is the only answer. */
  lemma {:induction false} SplitUnique(diff: nat, r: Remaining)
    requires IsFloorDecomposition(r, diff)
    ensures r == Split(diff)
  {
    var fine := r.minutes * MsPerMinute + r.seconds * MsPerSecond;
    assert fine < MsPerHour;
    assert diff == r.hours * MsPerHour + (diff - ToMs(r) + fine);
    DivModUnique(diff, MsPerHour, r.hours, diff - ToMs(r) + fine);
    var a := diff % MsPerHour;
    assert a == r.minutes * MsPerMinute + (diff - ToMs(r) + r.seconds * MsPerSecond);
    DivModUnique(a, MsPerMinute, r.minutes, diff - ToMs(r) + r.seconds * MsPerSecond);
    SubMinuteRemainder(diff, r.hours);
    var b := diff % MsPerMinute;
    assert b == r.seconds * MsPerSecond + (diff - ToMs(r));
    DivModUnique(b, MsPerSecond, r.seconds, diff - ToMs(r));
  }

  /** The countdown's total in seconds is the whole seconds left: it never rounds up. */
  lemma {:induction false} SplitTotalSeconds(diff: nat)
    ensures TotalSeconds(Split(diff)) == diff / MsPerSecond
  {
    var r := Split(diff);
    assert ToMs(r) == TotalSeconds(r) * MsPerSecond;
    DivModUnique(diff, MsPerSecond, TotalSeconds(r), diff - ToMs(r));
  }

  /** Later instants of the same day never show more time left. */
  lemma {:induction false} TimeUntilCutoffMonotone(earlier: MsOfDay, later: MsOfDay)
    requires earlier <= later
    ensures TotalSeconds(TimeUntilCutoff(earlier)) >= TotalSeconds(TimeUntilCutoff(later))
  {
    if !IsCutoffPassed(later) {
      var d1 := CutoffTime() - earlier;
      var d2 := CutoffTime() - later;
      SplitTotalSeconds(d1);
      SplitTotalSeconds(d2);
    }
  }

  /** A duration of 3,661 seconds is one hour, one minute and one second. */
  lemma ThreeThousandSixHundredSixtyOneSeconds()
    ensures Split(3_661_000) == Remaining(1, 1, 1)
    ensures TimeUntilCutoff(CutoffTime() - 3_661_000) == Remaining(1, 1, 1)
  {
  }

  /**
   * In the last second before the cutoff the gate is still open although the
   * countdown already shows (0, 0, 0); before that it shows a positive total.
   */
  lemma {:induction false} LastSecondShowsZero(now: MsOfDay)
    ensures CutoffTime() - MsPerSecond < now <= CutoffTime() ==>
              !IsCutoffPassed(now) && TimeUntilCutoff(now) == Remaining(0, 0, 0)
    ensures now <= CutoffTime() - MsPerSecond ==> TotalSeconds(TimeUntilCutoff(now)) > 0
  {
    if now <= CutoffTime() {
      SplitTotalSeconds(CutoffTime() - now);
      if CutoffTime() - MsPerSecond < now {
        SplitUnique(CutoffTime() - now, Remaining(0, 0, 0));
      }
    }
  }
}
