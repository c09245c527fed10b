/** `combine(day:time:)`: the calendar date of one instant with the clock time of another. */
module DateUtils {
  import opened Dates

  /** Year, month and day of `day` with hour, minute and second of `time`, rebuilt through
      the calendar. (Rebuilding from valid components always succeeds, so the source's
      fallback to `day` is never taken.) */
  function Combine(day: Instant, time: Instant): (r: Instant)
    ensures DayOf(r) == DayOf(day) && TimeOfDay(r) == TimeOfDay(time)
    ensures CivilOf(r) == CivilOf(day)
    ensures Hour(r) == Hour(time) && Minute(r) == Minute(time) && Second(r) == Second(time)
  {
    DaysFromCivilFromDays(DayOf(day));
    ClockDeterminesTimeOfDay(time, time);
    var r := StartOfCivil(CivilOf(day)) + Hour(time) * 3600 + Minute(time) * 60 + Second(time);
    assert DayOf(r) == DayOf(day) && TimeOfDay(r) == TimeOfDay(time);
    r
  }

  /** An instant is its own day combined with its own time. */
  lemma CombineSelf(t: Instant)
    ensures Combine(t, t) == t
  {
    assert t == DayOf(t) * SecondsPerDay + TimeOfDay(t);
    assert Combine(t, t) == DayOf(t) * SecondsPerDay + TimeOfDay(t);
  }

  /** Only the day of the first and the clock of the second matter. */
  lemma CombineAbsorbs(d: Instant, t: Instant, d': Instant, t': Instant)
    ensures Combine(Combine(d, t), t') == Combine(d, t')
    ensures Combine(d, Combine(d', t)) == Combine(d, t)
  {
    InstantByDayAndTime(Combine(Combine(d, t), t'), Combine(d, t'));
    InstantByDayAndTime(Combine(d, Combine(d', t)), Combine(d, t));
  }

  /** Day and time of day determine an instant. */
  lemma InstantByDayAndTime(a: Instant, b: Instant)
    requires DayOf(a) == DayOf(b) && TimeOfDay(a) == TimeOfDay(b)
    ensures a == b
  {
    assert a == DayOf(a) * SecondsPerDay + TimeOfDay(a);
    assert b == DayOf(b) * SecondsPerDay + TimeOfDay(b);
  }
}
