/** `EventItem.occurs(on:)`: whether an event has an occurrence on a given day. */
module Occurrences {
  import opened Wrappers
  import opened Dates
  import opened EventItems
  import Frequencies

  /** Some skipped day in `exceptionDates` is the same day as `day`. */
  predicate ExceptedOn(e: EventItem, day: Instant) {
    e.exceptionDates.Some? &&
    exists i :: 0 <= i < |e.exceptionDates.value| && SameDay(e.exceptionDates.value[i], day)
  }

  /** The per-frequency test applied once `day` lies inside the event's window. */
  predicate MatchesPattern(f: Frequencies.RepeatFrequency, start: Instant, day: Instant) {
    match f
    case Never => SameDay(day, start)
    case Daily => true
    case Weekly => Weekday(start) == Weekday(day)
    case Monthly => DayOfMonth(start) == DayOfMonth(day)
    case Yearly => Month(start) == Month(day) && DayOfMonth(start) == DayOfMonth(day)
  }

  /** `occurs(on:)`: an exception on the day wins, then a missing start, then a day
      after the repeat end date, then a day before the start; otherwise the pattern decides. */
  predicate Occurs(e: EventItem, day: Instant) {
    if ExceptedOn(e, day) then false
    else if e.eventDate.None? then false
    else if e.repeatEndDate.Some? && CompareByDay(day, e.repeatEndDate.value) == OrderedDescending then false
    else if CompareByDay(day, e.eventDate.value) == OrderedAscending then false
    else MatchesPattern(Recurrence(e), e.eventDate.value, day)
  }

  /** `exceptionDates.append(day)`, starting the list when there is none. */
  function AddingException(e: EventItem, day: Instant): (r: EventItem)
    ensures r.exceptionDates.Some? && |r.exceptionDates.value| > 0
    ensures r.exceptionDates.value[|r.exceptionDates.value| - 1] == day
    ensures r.(exceptionDates := e.exceptionDates) == e
  {
    e.(exceptionDates := Some(e.exceptionDates.GetOr([]) + [day]))
  }

  // ---------------------------------------------------------------------
  // An independent description of an event's series, by calendar arithmetic

  /** The same day of the month, `n` months later (earlier for negative `n`); may be no real date. */
  function AddMonths(c: Civil, n: int): Civil {
    var k := c.month - 1 + n;
    Civil(c.year + k / 12, k % 12 + 1, c.day)
  }

  /** The same month and day, `n` years later; may be no real date (29 February). */
  function AddYears(c: Civil, n: int): Civil {
    Civil(c.year + n, c.month, c.day)
  }

  /** Day `d` is generated from the start by repeating with frequency `f`. */
  ghost predicate Generated(f: Frequencies.RepeatFrequency, start: Instant, d: DayNumber) {
    match f
    case Never => d == DayOf(start)
    case Daily => true
    case Weekly => (d - DayOf(start)) % 7 == 0
    case Monthly => exists n: int :: ValidCivil(AddMonths(CivilOf(start), n)) && DaysFromCivil(AddMonths(CivilOf(start), n)) == d
    case Yearly => exists n: int :: ValidCivil(AddYears(CivilOf(start), n)) && DaysFromCivil(AddYears(CivilOf(start), n)) == d
  }

  /** Day `d` belongs to the event's series: it has a start, d lies between the start day and
      the repeat end day (inclusive), it is not skipped and the frequency generates it. */
  ghost predicate InSeries(e: EventItem, d: DayNumber) {
    e.eventDate.Some? &&
    DayOf(e.eventDate.value) <= d &&
    (e.repeatEndDate.Some? ==> d <= DayOf(e.repeatEndDate.value)) &&
    !(e.exceptionDates.Some? && exists x :: x in e.exceptionDates.value && DayOf(x) == d) &&
    Generated(Recurrence(e), e.eventDate.value, d)
  }

  /** Same day of the month means "some whole number of months later". */
  lemma MonthlyIsGenerated(start: Instant, day: Instant)
    ensures DayOfMonth(start) == DayOfMonth(day) <==> Generated(Frequencies.Monthly, start, DayOf(day))
  {
    if DayOfMonth(start) == DayOfMonth(day) {
      SameDayOfMonthIsGenerated(start, day);
    }
    if Generated(Frequencies.Monthly, start, DayOf(day)) {
      GeneratedIsSameDayOfMonth(start, day);
    }
  }

  /** A day with the start's day of month is a whole number of months after it. */
  lemma SameDayOfMonthIsGenerated(start: Instant, day: Instant)
    requires DayOfMonth(start) == DayOfMonth(day)
    ensures Generated(Frequencies.Monthly, start, DayOf(day))
  {
    DaysFromCivilFromDays(DayOf(day));
    MonthsLaterReached(CivilOf(start), CivilOf(day), DayOf(day));
  }

  /** Day `d`, a valid date with the day of month of `c`, is a whole number of months after it. */
  lemma MonthsLaterReached(c: Civil, c': Civil, d: DayNumber)
    requires c.day == c'.day && 1 <= c.month <= 12 && ValidCivil(c') && DaysFromCivil(c') == d
    ensures exists n: int :: ValidCivil(AddMonths(c, n)) && DaysFromCivil(AddMonths(c, n)) == d
  {
    var n := (c'.year - c.year) * 12 + (c'.month - c.month);
    AddMonthsReaches(c, c');
    assert ValidCivil(AddMonths(c, n)) && DaysFromCivil(AddMonths(c, n)) == d;
  }

  /** Adding the months between two dates with the same day of month reaches the later one. */
  lemma AddMonthsReaches(c: Civil, c': Civil)
    requires c.day == c'.day && 1 <= c.month <= 12 && 1 <= c'.month <= 12
    ensures AddMonths(c, (c'.year - c.year) * 12 + (c'.month - c.month)) == c'
  {
    var k := c.month - 1 + (c'.year - c.year) * 12 + (c'.month - c.month);
    assert k == (c'.year - c.year) * 12 + (c'.month - 1);
    assert k / 12 == c'.year - c.year && k % 12 == c'.month - 1;
  }

  /** A day a whole number of months after the start has the start's day of month. */
  lemma GeneratedIsSameDayOfMonth(start: Instant, day: Instant)
    requires Generated(Frequencies.Monthly, start, DayOf(day))
    ensures DayOfMonth(start) == DayOfMonth(day)
  {
    var c := CivilOf(start);
    var n :| ValidCivil(AddMonths(c, n)) && DaysFromCivil(AddMonths(c, n)) == DayOf(day);
    CivilOfDayNumberIff(DayOf(day), AddMonths(c, n));
  }

  /** Same month and day means "some whole number of years later". */
  lemma YearlyIsGenerated(start: Instant, day: Instant)
    ensures (Month(start) == Month(day) && DayOfMonth(start) == DayOfMonth(day))
            <==> Generated(Frequencies.Yearly, start, DayOf(day))
  {
    var c, c' := CivilOf(start), CivilOf(day);
    if Month(start) == Month(day) && DayOfMonth(start) == DayOfMonth(day) {
      assert AddYears(c, c'.year - c.year) == c';
      CivilOfDayNumberIff(DayOf(day), c');
    }
    if Generated(Frequencies.Yearly, start, DayOf(day)) {
      var n :| ValidCivil(AddYears(c, n)) && DaysFromCivil(AddYears(c, n)) == DayOf(day);
      CivilOfDayNumberIff(DayOf(day), AddYears(c, n));
    }
  }

  /** The component tests of `occurs(on:)` agree with the calendar-arithmetic series. */
  lemma MatchesPatternIsGenerated(f: Frequencies.RepeatFrequency, start: Instant, day: Instant)
    ensures MatchesPattern(f, start, day) <==> Generated(f, start, DayOf(day))
  {
    match f
    case Never =>
    case Daily =>
    case Weekly => WeekdayPeriodic(start, day);
    case Monthly => MonthlyIsGenerated(start, day);
    case Yearly => YearlyIsGenerated(start, day);
  }

  /** `occurs(on:)` holds exactly on the days of the event's series. */
  lemma OccursIffInSeries(e: EventItem, day: Instant)
    ensures Occurs(e, day) <==> InSeries(e, DayOf(day))
  {
    if e.eventDate.Some? {
      MatchesPatternIsGenerated(Recurrence(e), e.eventDate.value, day);
    }
    if e.exceptionDates.Some? {
      var xs := e.exceptionDates.value;
      if ExceptedOn(e, day) {
        var i :| 0 <= i < |xs| && SameDay(xs[i], day);
        assert xs[i] in xs && DayOf(xs[i]) == DayOf(day);
      }
      if exists x :: x in xs && DayOf(x) == DayOf(day) {
        var x :| x in xs && DayOf(x) == DayOf(day);
        var i :| 0 <= i < |xs| && xs[i] == x;
        assert SameDay(xs[i], day);
      }
    }
  }

  // ---------------------------------------------------------------------
  // Properties of the series

  /** An event never occurs on a skipped day, nor before its start day, nor after its end day. */
  lemma OccursOnlyInWindow(e: EventItem, day: Instant)
    ensures ExceptedOn(e, day) ==> !Occurs(e, day)
    ensures e.eventDate.None? ==> !Occurs(e, day)
    ensures e.eventDate.Some? && DayOf(day) < DayOf(e.eventDate.value) ==> !Occurs(e, day)
    ensures e.repeatEndDate.Some? && DayOf(day) > DayOf(e.repeatEndDate.value) ==> !Occurs(e, day)
  {
  }

  /** The repeat end day itself still counts: removing an end date on or after `day` changes nothing. */
  lemma RepeatEndInclusive(e: EventItem, day: Instant)
    requires e.repeatEndDate.Some? && DayOf(day) <= DayOf(e.repeatEndDate.value)
    ensures Occurs(e, day) == Occurs(e.(repeatEndDate := None), day)
  {
  }

  /** Skipping a day removes exactly that day from the series. */
  lemma AddingExceptionRemovesOnlyThatDay(e: EventItem, x: Instant, day: Instant)
    ensures Occurs(AddingException(e, x), day) <==> Occurs(e, day) && !SameDay(x, day)
  {
    var xs := e.exceptionDates.GetOr([]);
    var ys := xs + [x];
    assert ys[|xs|] == x;
    assert ExceptedOn(AddingException(e, x), day) <==> ExceptedOn(e, day) || SameDay(x, day) by {
      if ExceptedOn(AddingException(e, x), day) {
        var i :| 0 <= i < |ys| && SameDay(ys[i], day);
        if i < |xs| { assert ys[i] == xs[i]; }
      }
      if ExceptedOn(e, day) {
        var i :| 0 <= i < |xs| && SameDay(xs[i], day);
        assert ys[i] == xs[i];
      }
    }
  }

  /** Ending the series the day before `occurrence` keeps every earlier day and drops every later one. */
  lemma TruncatedBefore(e: EventItem, occurrence: Instant, day: Instant)
    ensures var t := e.(repeatEndDate := Some(AddDays(occurrence, -1)));
            (DayOf(day) >= DayOf(occurrence) ==> !Occurs(t, day)) &&
            (DayOf(day) < DayOf(occurrence) ==> Occurs(t, day) == Occurs(e.(repeatEndDate := None), day))
  {
  }

  /** A non-repeating event can only occur on its start day. */
  lemma NeverRepeatsOnlyOnStartDay(e: EventItem, day: Instant)
    requires Recurrence(e) == Frequencies.Never
    ensures Occurs(e, day) ==> e.eventDate.Some? && SameDay(day, e.eventDate.value)
    ensures (e.eventDate.Some? && SameDay(day, e.eventDate.value) && !ExceptedOn(e, day) &&
             (e.repeatEndDate.Some? ==> DayOf(day) <= DayOf(e.repeatEndDate.value)))
            ==> Occurs(e, day)
  {
  }

  /** A weekly event occurs every seventh day from its start (when not skipped or past its end)
      and never on the day after one. */
  lemma {:induction false} WeeklyEverySeventhDay(e: EventItem, k: nat)
    requires Recurrence(e) == Frequencies.Weekly && e.eventDate.Some?
    ensures var day := AddDays(e.eventDate.value, 7 * k);
            !ExceptedOn(e, day) && (e.repeatEndDate.Some? ==> DayOf(day) <= DayOf(e.repeatEndDate.value))
            ==> Occurs(e, day)
    ensures !Occurs(e, AddDays(e.eventDate.value, 7 * k + 1))
  {
    var start := e.eventDate.value;
    WeekdayPeriodic(start, AddDays(start, 7 * k));
    WeekdayPeriodic(start, AddDays(start, 7 * k + 1));
    assert (7 * k + 1) % 7 == 1;
  }

  /** A monthly series anchored on the 31st skips every month that has 30 days or fewer. */
  lemma MonthlyOnThirtyFirst(e: EventItem, day: Instant)
    requires Recurrence(e) == Frequencies.Monthly && e.eventDate.Some? && DayOfMonth(e.eventDate.value) == 31
    ensures Occurs(e, day) ==> Month(day) in {1, 3, 5, 7, 8, 10, 12}
  {
    DayThirtyOneMonths(day);
  }

  /** A yearly series anchored on 29 February occurs only in leap years. */
  lemma YearlyOnLeapDay(e: EventItem, day: Instant)
    requires Recurrence(e) == Frequencies.Yearly && e.eventDate.Some?
    requires Month(e.eventDate.value) == 2 && DayOfMonth(e.eventDate.value) == 29
    ensures Occurs(e, day) ==> IsLeapYear(Year(day))
  {
  }

  /** 3 May 2025 is a Saturday; a weekly event starting then occurs a week later and not the next day. */
  lemma WeeklyFromThirdOfMay2025(e: EventItem)
    requires e.eventDate == Some(StartOfCivil(Civil(2025, 5, 3)))
    requires Recurrence(e) == Frequencies.Weekly && e.exceptionDates == None && e.repeatEndDate == None
    ensures Weekday(e.eventDate.value) == 7
    ensures Occurs(e, StartOfCivil(Civil(2025, 5, 10)))
    ensures !Occurs(e, StartOfCivil(Civil(2025, 5, 4)))
  {
    assert DaysFromCivil(Civil(2025, 5, 3)) == 20211;
    WeeklyEverySeventhDay(e, 1);
  }
}
