/**
 * The nearest-minute-bucket properties of Date+Extensions.swift
 * (`nearestFiveMinutes`, `nearestTenMinutes`, `nearestQuarterHour`,
 * `nearestHalfHour`, `nearestHour`).
 */
module DateRounding {
  import opened Options
  import opened DateModel

  /** What `nearestFiveMinutes` and its siblings extract before rounding. */
  const ROUNDING_UNITS: set<CalendarUnit> := {
    CalendarUnit.Year, CalendarUnit.Month, CalendarUnit.Day, CalendarUnit.Hour,
    CalendarUnit.Minute, CalendarUnit.Second, CalendarUnit.Nanosecond
  }

  /** What `nearestHour` keeps. */
  const HOUR_UNITS: set<CalendarUnit> := {
    CalendarUnit.Year, CalendarUnit.Month, CalendarUnit.Day, CalendarUnit.Hour
  }

  /**
   * The new minute: down to the bucket's start when the remainder is below the
   * threshold, otherwise up to the next bucket's start. For a minute of the hour the
   * result moves down (or stays) exactly when the remainder is below the threshold,
   * is never negative, and for a positive threshold moves by less than a bucket.
   */
  function RoundMinute(m: int, bucket: int, threshold: int): (r: int)
    requires bucket > 0
    ensures 0 <= m ==> (r <= m <==> m % bucket < threshold)
    ensures 0 <= m ==> 0 <= r
    ensures 0 <= m && 0 < threshold ==> Distance(r, m) < bucket
  {
    var rem := Rem(m, bucket);
    assert 0 <= m ==> 0 <= rem < bucket && rem <= m by {
      if 0 <= m {
        assert m == (m / bucket) * bucket + rem;
        assert 0 <= m / bucket;
      }
    }
    if rem < threshold then m - rem else m + bucket - rem
  }

  lemma MulMonotone(p: int, q: int, b: int)
    requires p <= q && 0 < b
    ensures p * b <= q * b
  {
    assert q * b - p * b == (q - p) * b;
  }

  lemma MultipleHasNoRemainder(k: int, b: int)
    requires 0 < b
    ensures (k * b) % b == 0
  {
    var a := k * b;
    var q, r := a / b, a % b;
    assert a == q * b + r;
    var j := k - q;
    assert j * b == r by {
      assert j * b == k * b - q * b;
    }
    if j >= 1 {
      MulMonotone(1, j, b);
    } else if j <= -1 {
      MulMonotone(j, -1, b);
    }
  }

  /**
   * The rounded minute is `k * bucket` for `k` the bucket below `m` or the one above,
   * and it is no farther from `m` than either of the two.
   */
  lemma RoundMinuteBetweenNeighbours(m: int, bucket: int, threshold: int) returns (k: int)
    requires 0 <= m && 0 < bucket && bucket <= 2 * threshold <= bucket + 2
    ensures RoundMinute(m, bucket, threshold) == k * bucket
    ensures k == m / bucket || k == m / bucket + 1
    ensures Distance(RoundMinute(m, bucket, threshold), m) <= m % bucket
    ensures Distance(RoundMinute(m, bucket, threshold), m) <= bucket - m % bucket
  {
    var q, rem := m / bucket, m % bucket;
    assert m == q * bucket + rem;
    assert (q + 1) * bucket == q * bucket + bucket;
    k := if rem < threshold then q else q + 1;
  }

  /**
   * At a tie (the minute exactly half a bucket past a bucket start) the threshold alone
   * decides: the minute goes down to the bucket start when the remainder is below the
   * threshold, and up to the next one otherwise.
   */
  lemma RoundMinuteTie(m: int, bucket: int, threshold: int)
    requires 0 <= m && 0 < bucket && 2 * (m % bucket) == bucket
    ensures RoundMinute(m, bucket, threshold) == m - m % bucket <==> m % bucket < threshold
    ensures RoundMinute(m, bucket, threshold) == m + m % bucket <==> threshold <= m % bucket
  {
  }

  /** No multiple `n` of the bucket is closer to `m` than the rounded minute. */
  lemma RoundMinuteIsClosest(m: int, bucket: int, threshold: int, n: int)
    requires 0 <= m && 0 < bucket && bucket <= 2 * threshold <= bucket + 2
    requires n % bucket == 0
    ensures Distance(RoundMinute(m, bucket, threshold), m) <= Distance(n, m)
  {
    var _ := RoundMinuteBetweenNeighbours(m, bucket, threshold);
    var q, p := m / bucket, n / bucket;
    assert m == q * bucket + m % bucket;
    assert n == p * bucket;
    assert (q + 1) * bucket == q * bucket + bucket;
    if p <= q {
      MulMonotone(p, q, bucket);
    } else {
      MulMonotone(q + 1, p, bucket);
    }
  }

  /** A bucket index at most one past the last bucket start below 60 stays within the hour. */
  lemma BucketWithinHour(k: int, q: int, hour: int, b: int, m: int)
    requires 0 < b && 0 <= q && (k == q || k == q + 1)
    requires q * b <= m < 60 && hour * b == 60
    ensures 0 <= k * b <= 60
  {
    if hour <= q {
      MulMonotone(hour, q, b);
    }
    MulMonotone(0, k, b);
    MulMonotone(k, hour, b);
  }

  /** The truncated quotient of a non-negative `n` times `b` is at most `n`, and is `n` when `b` divides it. */
  lemma QuotientBelow(n: int, b: int)
    requires 0 <= n && 0 < b
    ensures 0 <= n / b && (n / b) * b <= n
    ensures n % b == 0 ==> (n / b) * b == n
  {
    assert n == (n / b) * b + n % b;
  }

  /** For a bucket that divides the hour, a minute of the hour rounds into 0..60. */
  lemma RoundMinuteWithinHour(m: int, bucket: int, threshold: int)
    requires 0 <= m < 60 && 0 < bucket && bucket <= 2 * threshold <= bucket + 2
    requires 60 % bucket == 0
    ensures 0 <= RoundMinute(m, bucket, threshold) <= 60
  {
    var k := RoundMinuteBetweenNeighbours(m, bucket, threshold);
    QuotientBelow(m, bucket);
    QuotientBelow(60, bucket);
    BucketWithinHour(k, m / bucket, 60 / bucket, bucket, m);
  }

  /**
   * For a threshold at the bucket's midpoint (rounded either way), the rounded
   * minute is a multiple of the bucket, no multiple of the bucket is closer to the
   * original minute, and a minute of an hour stays within 0..60.
   */
  lemma RoundMinuteIsNearest(m: int, bucket: int, threshold: int)
    requires 0 <= m && 0 < bucket && bucket <= 2 * threshold <= bucket + 2
    ensures RoundMinute(m, bucket, threshold) % bucket == 0
    ensures 2 * Distance(RoundMinute(m, bucket, threshold), m) <= bucket
    ensures forall n :: n % bucket == 0 ==>
              Distance(RoundMinute(m, bucket, threshold), m) <= Distance(n, m)
    ensures m < 60 && 60 % bucket == 0 ==> 0 <= RoundMinute(m, bucket, threshold) <= 60
  {
    var k := RoundMinuteBetweenNeighbours(m, bucket, threshold);
    MultipleHasNoRemainder(k, bucket);
    forall n | n % bucket == 0
      ensures Distance(RoundMinute(m, bucket, threshold), m) <= Distance(n, m)
    {
      RoundMinuteIsClosest(m, bucket, threshold, n);
    }
    if m < 60 && 60 % bucket == 0 {
      RoundMinuteWithinHour(m, bucket, threshold);
    }
  }

  /**
   * `c` asks the calendar for the rounding of `f` to a `bucket`-minute boundary:
   * year, month, day and hour as in `f`, no weekday, second and nanosecond zero,
   * and a minute that is a multiple of the bucket within 0..60 (60 is left to the
   * calendar to carry into the hour) than which no multiple of the bucket is closer
   * to `f`'s minute.
   */
  ghost predicate IsRoundingOf(c: DateComponents, f: Fields, bucket: int)
    requires bucket > 0
  {
    && c.year == Some(f.year) && c.month == Some(f.month) && c.day == Some(f.day)
    && c.hour == Some(f.hour) && c.weekday == None
    && c.second == Some(0) && c.nanosecond == Some(0)
    && c.minute.Some? && c.minute.value % bucket == 0 && 0 <= c.minute.value <= 60
    && 2 * Distance(c.minute.value, f.minute) <= bucket
    && forall n :: n % bucket == 0 ==> Distance(c.minute.value, f.minute) <= Distance(n, f.minute)
  }

  /**
   * The components `nearestFiveMinutes` and its siblings hand to the calendar: the
   * extracted ones with the minute rounded and second and nanosecond zero. For a
   * minute of the hour, a bucket dividing the hour and a threshold at its midpoint,
   * they ask for the rounding of the date's fields.
   */
  function RoundedComponents(cal: Calendar, d: Date, bucket: int, threshold: int): (c: DateComponents)
    requires bucket > 0
    ensures var f := cal.fields(d);
      && c.year == Some(f.year) && c.month == Some(f.month) && c.day == Some(f.day)
      && c.hour == Some(f.hour) && c.weekday == None
      && c.second == Some(0) && c.nanosecond == Some(0) && c.minute.Some?
    ensures var f := cal.fields(d);
      0 <= f.minute < 60 && 60 % bucket == 0 && bucket <= 2 * threshold <= bucket + 2 ==>
        IsRoundingOf(c, f, bucket)
    ensures var f := cal.fields(d);
      0 <= f.minute && 2 * (f.minute % bucket) == bucket ==>
        (c.minute == Some(f.minute - f.minute % bucket) <==> f.minute % bucket < threshold)
  {
    var f := cal.fields(d);
    var c := Extract(cal, ROUNDING_UNITS, d).(
      minute := Some(RoundMinute(f.minute, bucket, threshold)),
      second := Some(0),
      nanosecond := Some(0));
    if 0 <= f.minute < 60 && 60 % bucket == 0 && bucket <= 2 * threshold <= bucket + 2 then
      RoundMinuteIsNearest(f.minute, bucket, threshold);
      c
    else if 0 <= f.minute && 2 * (f.minute % bucket) == bucket then
      RoundMinuteTie(f.minute, bucket, threshold);
      c
    else
      c
  }

  /*
   * The four bucket roundings. `None` is the case in which the calendar cannot build
   * a date from the rounded components, where the source's force unwrap traps.
   */

  function NearestFiveMinutes(cal: Calendar, d: Date): (r: Option<Date>)
    ensures 0 <= cal.fields(d).minute < 60 ==>
              exists c :: IsRoundingOf(c, cal.fields(d), 5) && r == cal.dateFrom(c)
  {
    var c := RoundedComponents(cal, d, 5, 3);
    assert 0 <= cal.fields(d).minute < 60 ==> IsRoundingOf(c, cal.fields(d), 5);
    cal.dateFrom(c)
  }

  /** A ten-minute tie (remainder 5) rounds down. */
  function NearestTenMinutes(cal: Calendar, d: Date): (r: Option<Date>)
    ensures var f := cal.fields(d);
      0 <= f.minute < 60 ==>
        exists c :: && IsRoundingOf(c, f, 10) && r == cal.dateFrom(c)
                    && (f.minute % 10 == 5 ==> c.minute == Some(f.minute - 5))
  {
    var f := cal.fields(d);
    var c := RoundedComponents(cal, d, 10, 6);
    assert 0 <= f.minute < 60 ==> IsRoundingOf(c, f, 10);
    assert 0 <= f.minute && f.minute % 10 == 5 ==> c.minute == Some(f.minute - 5);
    cal.dateFrom(c)
  }

  function NearestQuarterHour(cal: Calendar, d: Date): (r: Option<Date>)
    ensures 0 <= cal.fields(d).minute < 60 ==>
              exists c :: IsRoundingOf(c, cal.fields(d), 15) && r == cal.dateFrom(c)
  {
    var c := RoundedComponents(cal, d, 15, 8);
    assert 0 <= cal.fields(d).minute < 60 ==> IsRoundingOf(c, cal.fields(d), 15);
    cal.dateFrom(c)
  }

  /** A half-hour tie (remainder 15) rounds up. */
  function NearestHalfHour(cal: Calendar, d: Date): (r: Option<Date>)
    ensures var f := cal.fields(d);
      0 <= f.minute < 60 ==>
        exists c :: && IsRoundingOf(c, f, 30) && r == cal.dateFrom(c)
                    && (f.minute % 30 == 15 ==> c.minute == Some(f.minute + 15))
  {
    var f := cal.fields(d);
    var c := RoundedComponents(cal, d, 30, 15);
    assert 0 <= f.minute < 60 ==> IsRoundingOf(c, f, 30);
    assert 0 <= f.minute && f.minute % 30 == 15 ==> c.minute == Some(f.minute + 15);
    cal.dateFrom(c)
  }

  /**
   * The minutes the documentation comments give, and the tie policy: a ten-minute
   * tie (remainder 5) goes down, a half-hour tie (remainder 15) goes up.
   */
  lemma DocumentedRoundings()
    ensures RoundMinute(32, 5, 3) == 30 && RoundMinute(44, 5, 3) == 45
    ensures RoundMinute(34, 10, 6) == 30 && RoundMinute(48, 10, 6) == 50
    ensures RoundMinute(34, 15, 8) == 30 && RoundMinute(40, 15, 8) == 45
    ensures RoundMinute(41, 30, 15) == 30 && RoundMinute(51, 30, 15) == 60
    ensures RoundMinute(5, 10, 6) == 0 && RoundMinute(15, 30, 15) == 30
  {
  }

  /** The components `nearestHour` truncates to: year, month, day and hour only. */
  function HourTruncation(cal: Calendar, d: Date): (c: DateComponents)
    ensures var f := cal.fields(d);
      && c.year == Some(f.year) && c.month == Some(f.month) && c.day == Some(f.day)
      && c.hour == Some(f.hour)
      && c.weekday == None && c.minute == None && c.second == None && c.nanosecond == None
  {
    Extract(cal, HOUR_UNITS, d)
  }

  /**
   * `nearestHour`: the date truncated to the hour, one hour later when the minute is
   * 30 or more. `None` is where the source's force unwraps trap: it comes back
   * whenever the truncation builds no date.
   */
  function NearestHour(cal: Calendar, d: Date): (r: Option<Date>)
    ensures cal.dateFrom(HourTruncation(cal, d)).None? ==> r.None?
    ensures cal.dateFrom(HourTruncation(cal, d)).Some? && cal.fields(d).minute < 30 ==>
              r == cal.dateFrom(HourTruncation(cal, d))
    ensures cal.dateFrom(HourTruncation(cal, d)).Some? && cal.fields(d).minute >= 30 ==>
              r == cal.adding(CalendarUnit.Hour, 1, cal.dateFrom(HourTruncation(cal, d)).value)
  {
    var m := cal.fields(d).minute;
    var date := cal.dateFrom(HourTruncation(cal, d));
    if date.None? then None
    else if m < 30 then date
    else cal.adding(CalendarUnit.Hour, 1, date.value)
  }

  /**
   * With `t` the date truncated to the hour, on a calendar on which adding an hour
   * moves `t`, `nearestHour` keeps `t` exactly when the minute is under 30.
   */
  lemma NearestHourAddsOneHourIffLate(cal: Calendar, d: Date, t: Date)
    requires cal.dateFrom(HourTruncation(cal, d)) == Some(t)
    requires cal.adding(CalendarUnit.Hour, 1, t) != Some(t)
    ensures NearestHour(cal, d) == Some(t) <==> cal.fields(d).minute < 30
  {
  }
}
