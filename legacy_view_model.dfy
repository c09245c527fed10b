/** The earlier `EventViewModel`: the same store and reminder bookkeeping as the editor view
    model, but a split ends the original series the day before the occurrence, an update keeps
    skipped days and the repeat end, and it also filters events by day and looks up holidays. */
module LegacyEvents {
  import opened Wrappers
  import opened Dates
  import opened EventItems
  import Frequencies
  import EventColors
  import opened Occurrences
  import opened Notifications
  import opened Store
  import opened Holidays
  import opened EventEditor

  /** The listed records occurring on `day`, in list order. */
  function OccurringOn(s: seq<EventRecord>, day: Instant): (r: seq<EventRecord>)
    reads s
    ensures |r| <= |s|
    ensures forall i :: 0 <= i < |r| ==> r[i] in s && Occurs(r[i].Value(), day)
    ensures forall i :: 0 <= i < |s| && Occurs(s[i].Value(), day) ==> s[i] in r
  {
    if s == [] then []
    else
      var rest := OccurringOn(s[1..], day);
      assert forall i :: 0 < i < |s| ==> s[i] == s[1..][i - 1];
      (if Occurs(s[0].Value(), day) then [s[0]] else []) + rest
  }

  /** Filtering keeps the order: the filter of a concatenation is the concatenation of the
      filters. */
  lemma {:induction false} OccurringOnAppend(a: seq<EventRecord>, b: seq<EventRecord>, day: Instant)
    ensures OccurringOn(a + b, day) == OccurringOn(a, day) + OccurringOn(b, day)
  {
    if a != [] {
      assert (a + b)[0] == a[0];
      assert (a + b)[1..] == a[1..] + b;
      OccurringOnAppend(a[1..], b, day);
    } else {
      assert a + b == b;
    }
  }

  /** A split ending the series the day before an occurrence it had leaves the earlier days
      unchanged. */
  lemma TruncationKeepsEarlierDays(e: EventItem, occurrence: Instant, day: Instant)
    requires Occurs(e, occurrence) && DayOf(day) < DayOf(occurrence)
    ensures Occurs(e.(repeatEndDate := Some(AddDays(occurrence, -1))), day) == Occurs(e, day)
  {
    TruncatedBefore(e, occurrence, day);
  }

  /** Ending a series the day before an occurrence removes that day and every later one, and,
      when the series had that occurrence, keeps every earlier day. */
  lemma SplitEndsSeries(e: EventItem, occurrence: Instant)
    ensures var t := e.(repeatEndDate := Some(AddDays(occurrence, -1)));
            (forall d :: DayOf(d) >= DayOf(occurrence) ==> !Occurs(t, d)) &&
            (Occurs(e, occurrence) ==>
               forall d :: DayOf(d) < DayOf(occurrence) ==> (Occurs(t, d) <==> Occurs(e, d)))
  {
    forall d | true
      ensures DayOf(d) >= DayOf(occurrence) ==> !Occurs(e.(repeatEndDate := Some(AddDays(occurrence, -1))), d)
      ensures Occurs(e, occurrence) && DayOf(d) < DayOf(occurrence) ==>
                (Occurs(e.(repeatEndDate := Some(AddDays(occurrence, -1))), d) <==> Occurs(e, d))
    {
      TruncatedBefore(e, occurrence, d);
      if Occurs(e, occurrence) && DayOf(d) < DayOf(occurrence) {
        TruncationKeepsEarlierDays(e, occurrence, d);
      }
    }
  }

  /** The reminder a split reschedules for the ended series is the one it had before, since the
      trigger does not look at the repeat end: it still fires at the start's clock time on the
      occurrence day, which the ended series no longer has. */
  lemma ReminderOutlivesSplit(e: EventItem, occurrence: Instant)
    requires RequestFor(e).Some? && Occurs(e, occurrence)
    ensures var ended := e.(repeatEndDate := Some(AddDays(occurrence, -1)));
            var t := SettingClock(occurrence, e.eventDate.value);
            RequestFor(ended) == RequestFor(e) && !Occurs(ended, t) &&
            FiresAt(RequestFor(ended).value.components, t)
  {
    var ended := e.(repeatEndDate := Some(AddDays(occurrence, -1)));
    var start := e.eventDate.value;
    var t := SettingClock(occurrence, start);
    SplitEndsSeries(e, occurrence);
    MatchesPatternIsGenerated(Recurrence(e), start, occurrence);
    MatchesPatternIsGenerated(Recurrence(e), start, t);
    ScheduledReminderFollowsEvent(ended, t);
  }

  class LegacyEventViewModel {
    var events: seq<EventRecord>
    const viewContext: ManagedContext
    const notifications: NotificationManager

    /** `events` is what a fetch would return now. */
    ghost predicate Synced()
      reads this, viewContext, events
    {
      ListsByDate(events, viewContext.events)
    }

    constructor (context: ManagedContext, notifications: NotificationManager)
      modifies {}
      ensures viewContext == context && this.notifications == notifications
      ensures Synced()
    {
      viewContext := context;
      this.notifications := notifications;
      events := [];
      new;
      FetchEvents();
    }

    method FetchEvents()
      modifies this`events
      ensures Synced()
    {
      events := viewContext.FetchEventsByDate();
    }

    /** `eventsForDay(_:)`: the fetched events occurring on `day`, in fetch order. */
    function EventsForDay(day: Instant): (r: seq<EventRecord>)
      reads this, events
      ensures |r| <= |events|
      ensures forall i :: 0 <= i < |r| ==> r[i] in events && Occurs(r[i].Value(), day)
      ensures forall i :: 0 <= i < |events| && Occurs(events[i].Value(), day) ==> events[i] in r
    {
      OccurringOn(events, day)
    }

    /** The private `scheduleNotification(for:)`: the same guard and request as the
        notification manager's, handed to the earlier manager's `schedule`. */
    method ScheduleNotification(e: EventItem)
      modifies notifications
      ensures notifications.center == old(notifications.center) + ScheduleCalls(e)
    {
      var request := RequestFor(e);
      if request.Some? {
        notifications.Schedule(request.value);
      }
    }

    /** `addEvent`: one new record, `events` refetched, a reminder when notifications are on. */
    method AddEvent(title: string, date: Instant, endTime: Option<Instant>, details: string,
                    color: EventColors.EventColor, recurrence: Frequencies.RepeatFrequency,
                    notificationsEnabled: bool, newId: Uuid) returns (e: EventRecord)
      modifies this`events, viewContext`events, notifications
      ensures fresh(e) && viewContext.events == old(viewContext.events) + {e}
      ensures e.Value() == NewEvent(newId, title, details, date, endTime, color, recurrence, notificationsEnabled)
      ensures Synced() && e in events
      ensures notifications.center == old(notifications.center) + (if notificationsEnabled then ScheduleCalls(e.Value()) else [])
    {
      e := InsertNew(viewContext, title, date, endTime, details, color, recurrence, notificationsEnabled, newId);
      FetchEvents();
      if notificationsEnabled {
        ScheduleNotification(e.Value());
      }
    }

    /** `updateEvent`: overwrites the edited attributes and keeps the skipped days and the
        repeat end; refetches, then cancels and reschedules when the record has an id. */
    method UpdateEvent(event: EventRecord, title: string, date: Instant, endTime: Option<Instant>,
                       details: string, color: EventColors.EventColor,
                       recurrence: Frequencies.RepeatFrequency, notificationsEnabled: bool)
      modifies event, this`events, notifications
      ensures event.Value() == old(event.Value()).(title := Some(title), eventDate := Some(date),
                endTime := endTime, details := Some(details),
                colorRawValue := Some(EventColors.RawValue(color)),
                repeatFrequency := Frequencies.RawValue(recurrence),
                notificationsEnabled := notificationsEnabled)
      ensures Synced()
      ensures notifications.center == old(notifications.center) +
                (if event.id.Some? then CancelCalls(event.id) + (if notificationsEnabled then ScheduleCalls(event.Value()) else [])
                 else [])
      ensures Recurrence(event.Value()) == recurrence && Color(event.Value()) == color
    {
      AssignEdits(event, title, date, endTime, details, color, recurrence, notificationsEnabled);
      FetchEvents();
      if event.id.Some? {
        notifications.RemovePendingNotification(event.id.value);
        if notificationsEnabled {
          ScheduleNotification(event.Value());
        }
      }
    }

    /** The attribute assignments of `updateEvent`; skipped days and the repeat end are kept. */
    method AssignEdits(event: EventRecord, title: string, date: Instant, endTime: Option<Instant>,
                       details: string, color: EventColors.EventColor,
                       recurrence: Frequencies.RepeatFrequency, notificationsEnabled: bool)
      modifies event
      ensures event.Value() == old(event.Value()).(title := Some(title), eventDate := Some(date),
                endTime := endTime, details := Some(details),
                colorRawValue := Some(EventColors.RawValue(color)),
                repeatFrequency := Frequencies.RawValue(recurrence),
                notificationsEnabled := notificationsEnabled)
      ensures Recurrence(event.Value()) == recurrence && Color(event.Value()) == color
    {
      event.title := Some(title);
      event.eventDate := Some(date);
      event.endTime := endTime;
      event.details := Some(details);
      event.colorRawValue := Some(EventColors.RawValue(color));
      event.repeatFrequency := Frequencies.RawValue(recurrence);
      event.notificationsEnabled := notificationsEnabled;
      RecurrenceGetAfterSet(old(event.Value()), recurrence);
      ColorGetAfterSet(old(event.Value()), color);
    }

    /** `splitEvent`: the original series ends the day before the occurrence and is
        rescheduled; a new record with `newRecurrence` starts at the occurrence. */
    method SplitEvent(event: EventRecord, occurrenceDate: Instant, newRecurrence: Frequencies.RepeatFrequency,
                      notificationsEnabled: bool, newTitle: string, newDetails: string,
                      newColor: EventColors.EventColor, newEndTime: Option<Instant>, newId: Uuid)
      returns (clone: EventRecord)
      modifies event, viewContext`events, this`events, notifications
      ensures fresh(clone) && viewContext.events == old(viewContext.events) + {clone}
      ensures event.Value() == old(event.Value()).(repeatEndDate := Some(AddDays(occurrenceDate, -1)))
      ensures clone.Value() == NewEvent(newId, newTitle, newDetails, occurrenceDate, newEndTime, newColor,
                                        newRecurrence, notificationsEnabled)
      ensures Synced()
      ensures notifications.center == old(notifications.center) +
                (if event.id.Some? then CancelCalls(event.id) + ScheduleCalls(event.Value()) else []) +
                (if notificationsEnabled then ScheduleCalls(clone.Value()) else [])
      ensures forall d :: DayOf(d) >= DayOf(occurrenceDate) ==> !Occurs(event.Value(), d)
      ensures Occurs(old(event.Value()), occurrenceDate) ==>
                forall d :: DayOf(d) < DayOf(occurrenceDate) ==> (Occurs(event.Value(), d) <==> Occurs(old(event.Value()), d))
      ensures forall d :: Occurs(clone.Value(), d) <==>
                DayOf(occurrenceDate) <= DayOf(d) && MatchesPattern(newRecurrence, occurrenceDate, d)
    {
      EndSeriesBefore(event, occurrenceDate);
      SplitEndsSeries(old(event.Value()), occurrenceDate);
      clone := InsertNew(viewContext, newTitle, occurrenceDate, newEndTime, newDetails, newColor, newRecurrence,
                         notificationsEnabled, newId);
      FetchEvents();
      if notificationsEnabled {
        ScheduleNotification(clone.Value());
      }
    }

    /** Steps 1 and 2 of `splitEvent`: end the series the day before the occurrence, then
        cancel and reschedule its reminder when it has an id. */
    method EndSeriesBefore(event: EventRecord, occurrenceDate: Instant)
      modifies event, notifications
      ensures event.Value() == old(event.Value()).(repeatEndDate := Some(AddDays(occurrenceDate, -1)))
      ensures notifications.center == old(notifications.center) +
                (if event.id.Some? then CancelCalls(event.id) + ScheduleCalls(event.Value()) else [])
    {
      event.repeatEndDate := Some(AddDays(occurrenceDate, -1));
      if event.id.Some? {
        notifications.RemovePendingNotification(event.id.value);
        ScheduleNotification(event.Value());
      }
    }

    /** `deleteOccurrence`: appends the day to the skipped days, refetches and cancels the
        series' reminder. */
    method DeleteOccurrence(event: EventRecord, day: Instant)
      modifies event, this`events, notifications
      ensures event.Value() == AddingException(old(event.Value()), day)
      ensures Synced()
      ensures notifications.center == old(notifications.center) + CancelCalls(event.id)
      ensures forall d :: Occurs(event.Value(), d) <==> Occurs(old(event.Value()), d) && !SameDay(day, d)
    {
      ghost var before := event.Value();
      event.exceptionDates := Some(event.exceptionDates.GetOr([]) + [day]);
      FetchEvents();
      if event.id.Some? {
        notifications.RemovePendingNotification(event.id.value);
      }
      forall d | true
        ensures Occurs(event.Value(), d) <==> Occurs(before, d) && !SameDay(day, d)
      {
        AddingExceptionRemovesOnlyThatDay(before, day, d);
      }
    }

    /** `deleteEvent`: cancels the reminder, removes the record and refetches. */
    method DeleteEvent(event: EventRecord)
      modifies viewContext`events, this`events, notifications
      ensures viewContext.events == old(viewContext.events) - {event}
      ensures Synced()
      ensures notifications.center == old(notifications.center) + CancelCalls(event.id)
    {
      if event.id.Some? {
        notifications.RemovePendingNotification(event.id.value);
      }
      viewContext.events := viewContext.events - {event};
      FetchEvents();
    }

    /** `holidayForDay(_:)`: the first stored holiday dated within the day. */
    method HolidayForDay(day: Instant) returns (r: Option<HolidayItem>)
      ensures r == HolidayOn(viewContext.holidays, day)
    {
      r := HolidayOn(viewContext.holidays, day);
    }
  }
}
