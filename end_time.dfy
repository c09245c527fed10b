/** When an occurrence of an event is over (`EventItem+EndTime`), and the older
    whole-event variant (`EventItemExt`). */
module EndTimes {
  import opened Wrappers
  import opened Dates
  import opened EventItems

  /** `endDate(for:)`: the occurrence's day at the end time's clock, else at the start's
      clock, else the start of the following day. */
  function EndDate(e: EventItem, occurrence: Instant): (r: Instant)
    ensures StartOfDay(occurrence) <= r <= StartOfDay(occurrence) + SecondsPerDay
  {
    if e.endTime.Some? then SettingClock(occurrence, e.endTime.value)
    else if e.eventDate.Some? then SettingClock(occurrence, e.eventDate.value)
    else AddDays(StartOfDay(occurrence), 1)
  }

  /** `hasFinished(on:relativeTo:)`. */
  predicate HasFinished(e: EventItem, occurrence: Instant, now: Instant) {
    now >= EndDate(e, occurrence)
  }

  /** The end lies on the occurrence's own day unless the event has no times at all,
      in which case it is the first instant of the next day. */
  lemma EndDateOnOccurrenceDay(e: EventItem, occurrence: Instant)
    ensures e.endTime.Some? ==>
              DayOf(EndDate(e, occurrence)) == DayOf(occurrence) &&
              TimeOfDay(EndDate(e, occurrence)) == TimeOfDay(e.endTime.value)
    ensures e.endTime.None? && e.eventDate.Some? ==>
              DayOf(EndDate(e, occurrence)) == DayOf(occurrence) &&
              TimeOfDay(EndDate(e, occurrence)) == TimeOfDay(e.eventDate.value)
    ensures e.endTime.None? && e.eventDate.None? ==>
              DayOf(EndDate(e, occurrence)) == DayOf(occurrence) + 1 &&
              TimeOfDay(EndDate(e, occurrence)) == 0
    ensures StartOfDay(occurrence) <= EndDate(e, occurrence) <= StartOfDay(occurrence) + SecondsPerDay
  {
  }

  /** Once finished, an occurrence stays finished. */
  lemma HasFinishedMonotone(e: EventItem, occurrence: Instant, now: Instant, later: Instant)
    requires now <= later
    ensures HasFinished(e, occurrence, now) ==> HasFinished(e, occurrence, later)
  {
  }

  /** Without an end time, the occurrence on the start's own day finishes exactly at the start. */
  lemma FinishedAtStartWithoutEndTime(e: EventItem, now: Instant)
    requires e.endTime.None? && e.eventDate.Some?
    ensures HasFinished(e, e.eventDate.value, now) <==> now >= e.eventDate.value
  {
    var s := e.eventDate.value;
    assert s == StartOfDay(s) + TimeOfDay(s);
  }

  /** An event from 20:00 to 21:00 is not finished at 20:30 and is finished at 21:05. */
  lemma EveningEvent(e: EventItem, today: Instant)
    requires TimeOfDay(today) == 0
    requires e.eventDate == Some(today + 20 * 3600) && e.endTime == Some(today + 21 * 3600)
    ensures !HasFinished(e, today + 20 * 3600, today + 20 * 3600 + 30 * 60)
    ensures HasFinished(e, today + 20 * 3600, today + 21 * 3600 + 5 * 60)
  {
    assert EndDate(e, today + 20 * 3600) == today + 21 * 3600 by {
      assert DayOf(today + 20 * 3600) == DayOf(today) && DayOf(today + 21 * 3600) == DayOf(today);
      assert TimeOfDay(today + 21 * 3600) == 21 * 3600;
    }
  }

  // ---------------------------------------------------------------------
  // The whole-event variant

  /** `effectiveEndTime`: the end time, else the start. */
  function EffectiveEndTime(e: EventItem): (r: Option<Instant>)
    ensures r.Some? <==> e.endTime.Some? || e.eventDate.Some?
    ensures e.endTime.Some? ==> r == e.endTime
  {
    if e.endTime.Some? then e.endTime else e.eventDate
  }

  /** `hasFinished(relativeTo:)`: strictly after the effective end; never without one. */
  predicate HasFinishedOverall(e: EventItem, now: Instant) {
    match EffectiveEndTime(e)
    case None => false
    case Some(finish) => now > finish
  }

  /** The two variants differ at the very end instant: the per-occurrence test already says
      finished, the whole-event test does not yet. */
  lemma VariantsAtEndInstant(e: EventItem)
    requires e.endTime.Some?
    ensures HasFinished(e, e.endTime.value, e.endTime.value)
    ensures !HasFinishedOverall(e, e.endTime.value)
    ensures forall now :: HasFinishedOverall(e, now) ==> HasFinished(e, e.endTime.value, now)
  {
    var t := e.endTime.value;
    assert EndDate(e, t) == t by {
      assert t == StartOfDay(t) + TimeOfDay(t);
    }
  }
}
