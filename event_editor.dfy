/** `EventEditorViewModel`: the current view model that creates, edits, splits and deletes
    stored events and keeps their reminders in step. */
module EventEditor {
  import opened Wrappers
  import opened Dates
  import opened EventItems
  import Frequencies
  import EventColors
  import opened Occurrences
  import opened Notifications
  import opened Store

  /** The attribute values `addEvent` gives a new record (and `splitEvent` its clone). */
  function NewEvent(id: Uuid, title: string, details: string, date: Instant, endTime: Option<Instant>,
                    color: EventColors.EventColor, recurrence: Frequencies.RepeatFrequency,
                    notificationsEnabled: bool): (r: EventItem)
    ensures r.id == Some(id) && r.eventDate == Some(date) && r.notificationsEnabled == notificationsEnabled
    ensures Recurrence(r) == recurrence && Color(r) == color
    ensures forall d :: Occurs(r, d) <==> DayOf(date) <= DayOf(d) && MatchesPattern(recurrence, date, d)
  {
    var r := EventItem(Some(id), Some(title), Some(details), Some(date), endTime,
                       Some(EventColors.RawValue(color)), Frequencies.RawValue(recurrence), None, None,
                       notificationsEnabled);
    RecurrenceGetAfterSet(r, recurrence);
    ColorGetAfterSet(r, color);
    r
  }

  /** The calls `removePendingNotification` makes for a record, when it has an identifier. */
  function CancelCalls(id: Option<Uuid>): seq<CenterCall> {
    if id.Some? then [RemovePending([id.value])] else []
  }

  /** The calls cancelling each listed record in turn. */
  function CancelAll(s: seq<EventRecord>): (r: seq<CenterCall>)
    reads s
    ensures |r| <= |s|
  {
    if s == [] then [] else CancelAll(s[..|s| - 1]) + CancelCalls(s[|s| - 1].id)
  }

  lemma CancelAllOfPrefix(s: seq<EventRecord>, i: int)
    requires 0 <= i < |s|
    ensures CancelAll(s[..i + 1]) == CancelAll(s[..i]) + CancelCalls(s[i].id)
  {
    assert s[..i + 1][..i] == s[..i];
  }

  lemma DeletedPrefix(before: set<EventRecord>, s: seq<EventRecord>, i: int)
    requires 0 <= i < |s|
    ensures before - Elements(s[..i + 1]) == (before - Elements(s[..i])) - {s[i]}
  {
    ElementsOfPrefix(s, i);
  }

  lemma CancelledPrefix(before: seq<CenterCall>, s: seq<EventRecord>, i: int)
    requires 0 <= i < |s|
    ensures before + CancelAll(s[..i + 1]) == (before + CancelAll(s[..i])) + CancelCalls(s[i].id)
  {
    CancelAllOfPrefix(s, i);
  }

  /** `EventItem(context:)` followed by the attribute assignments of `addEvent`. */
  method InsertNew(context: ManagedContext, title: string, date: Instant, endTime: Option<Instant>, details: string,
                   color: EventColors.EventColor, recurrence: Frequencies.RepeatFrequency,
                   notificationsEnabled: bool, newId: Uuid) returns (e: EventRecord)
    modifies context`events
    ensures fresh(e) && context.events == old(context.events) + {e}
    ensures e.Value() == NewEvent(newId, title, details, date, endTime, color, recurrence, notificationsEnabled)
  {
    e := new EventRecord();
    context.events := context.events + {e};
    e.id := Some(newId);
    e.title := Some(title);
    e.eventDate := Some(date);
    e.endTime := endTime;
    e.details := Some(details);
    e.colorRawValue := Some(EventColors.RawValue(color));
    e.repeatFrequency := Frequencies.RawValue(recurrence);
    e.notificationsEnabled := notificationsEnabled;
  }

  /** A recurring split leaves the series' days unchanged except that the split day now belongs
      to the clone instead. */
  lemma {:induction false} SplitMovesOneDay(original: EventItem, occurrence: Instant, clone: EventItem, day: Instant)
    requires Recurrence(clone) == Frequencies.Never && clone.eventDate == Some(occurrence)
    requires clone.exceptionDates.None? && clone.repeatEndDate.None?
    ensures var kept := if ExceptedOn(original, occurrence) then original else AddingException(original, occurrence);
            !Occurs(kept, occurrence) && Occurs(clone, occurrence) &&
            (Occurs(kept, day) <==> Occurs(original, day) && !SameDay(day, occurrence)) &&
            (Occurs(clone, day) <==> SameDay(day, occurrence))
  {
    AddingExceptionRemovesOnlyThatDay(original, occurrence, day);
    AddingExceptionRemovesOnlyThatDay(original, occurrence, occurrence);
  }

  class EventEditorViewModel {
    var events: seq<EventRecord>
    const context: ManagedContext
    const notifications: NotificationManager

    /** `events` is what a fetch would return now. */
    ghost predicate Synced()
      reads this, context, events
    {
      ListsByDate(events, context.events)
    }

    constructor (context: ManagedContext, notifications: NotificationManager)
      modifies {}
      ensures this.context == context && this.notifications == notifications
      ensures Synced()
    {
      this.context := context;
      this.notifications := notifications;
      events := [];
      new;
      FetchEvents();
    }

    /** `fetchEvents`: every stored record, ascending by start. */
    method FetchEvents()
      modifies this`events
      ensures Synced()
    {
      events := context.FetchEventsByDate();
    }

    /** `addEvent`: one new record, and a reminder when notifications are on. `events` is not
        refetched, so it does not list the new record. */
    method AddEvent(title: string, date: Instant, endTime: Option<Instant>, details: string,
                    color: EventColors.EventColor, recurrence: Frequencies.RepeatFrequency,
                    notificationsEnabled: bool, newId: Uuid) returns (e: EventRecord)
      modifies context`events, notifications
      ensures fresh(e) && context.events == old(context.events) + {e}
      ensures e.Value() == NewEvent(newId, title, details, date, endTime, color, recurrence, notificationsEnabled)
      ensures events == old(events)
      ensures notifications.center == old(notifications.center) + (if notificationsEnabled then ScheduleCalls(e.Value()) else [])
      ensures notificationsEnabled <==> |notifications.center| == |old(notifications.center)| + 1
    {
      e := InsertNew(context, title, date, endTime, details, color, recurrence, notificationsEnabled, newId);
      if notificationsEnabled {
        notifications.ScheduleNotification(e.Value());
      }
    }

    /** `addEvent` followed by the `fetchEvents` it lacks: `events` then lists the new record. */
    method AddEventAndRefresh(title: string, date: Instant, endTime: Option<Instant>, details: string,
                              color: EventColors.EventColor, recurrence: Frequencies.RepeatFrequency,
                              notificationsEnabled: bool, newId: Uuid) returns (e: EventRecord)
      modifies this`events, context`events, notifications
      ensures fresh(e) && context.events == old(context.events) + {e}
      ensures e.Value() == NewEvent(newId, title, details, date, endTime, color, recurrence, notificationsEnabled)
      ensures Synced() && e in events
      ensures notifications.center == old(notifications.center) + (if notificationsEnabled then ScheduleCalls(e.Value()) else [])
    {
      e := AddEvent(title, date, endTime, details, color, recurrence, notificationsEnabled, newId);
      FetchEvents();
    }

    /** `updateEvent`: overwrites the edited attributes, clears skipped days and the repeat end,
        refetches, then cancels the old reminder before scheduling the new one. */
    method UpdateEvent(event: EventRecord, title: string, time: Instant, endTime: Option<Instant>,
                       details: string, color: EventColors.EventColor,
                       recurrence: Frequencies.RepeatFrequency, notificationsEnabled: bool)
      modifies event, this`events, notifications
      ensures event.Value() == old(event.Value()).(title := Some(title), eventDate := Some(time),
                endTime := endTime, details := Some(details),
                colorRawValue := Some(EventColors.RawValue(color)),
                repeatFrequency := Frequencies.RawValue(recurrence),
                notificationsEnabled := notificationsEnabled, exceptionDates := None, repeatEndDate := None)
      ensures Synced()
      ensures notifications.center == old(notifications.center) +
                (if event.id.Some? then CancelCalls(event.id) + (if notificationsEnabled then ScheduleCalls(event.Value()) else [])
                 else [])
      ensures forall d :: Occurs(event.Value(), d) <==> DayOf(time) <= DayOf(d) && MatchesPattern(recurrence, time, d)
    {
      AssignEdits(event, title, time, endTime, details, color, recurrence, notificationsEnabled);
      FetchEvents();
      if event.id.Some? {
        notifications.RemovePendingNotification(event.id.value);
        if notificationsEnabled {
          notifications.ScheduleNotification(event.Value());
        }
      }
    }

    /** The attribute assignments of `updateEvent`: the series restarts at `time` with the new
        rule, no skipped days and no end. */
    method AssignEdits(event: EventRecord, title: string, time: Instant, endTime: Option<Instant>,
                       details: string, color: EventColors.EventColor,
                       recurrence: Frequencies.RepeatFrequency, notificationsEnabled: bool)
      modifies event
      ensures event.Value() == old(event.Value()).(title := Some(title), eventDate := Some(time),
                endTime := endTime, details := Some(details),
                colorRawValue := Some(EventColors.RawValue(color)),
                repeatFrequency := Frequencies.RawValue(recurrence),
                notificationsEnabled := notificationsEnabled, exceptionDates := None, repeatEndDate := None)
      ensures forall d :: Occurs(event.Value(), d) <==> DayOf(time) <= DayOf(d) && MatchesPattern(recurrence, time, d)
    {
      event.title := Some(title);
      event.eventDate := Some(time);
      event.endTime := endTime;
      event.details := Some(details);
      event.colorRawValue := Some(EventColors.RawValue(color));
      event.repeatFrequency := Frequencies.RawValue(recurrence);
      event.notificationsEnabled := notificationsEnabled;
      event.exceptionDates := None;
      event.repeatEndDate := None;
      RecurrenceGetAfterSet(event.Value(), recurrence);
    }

    /** `splitEvent`: a one-off event is edited in place and moved to the occurrence; a
        repeating one skips the occurrence day and gets a one-off clone on it. */
    method SplitEvent(event: EventRecord, occurrenceDate: Instant, notificationsEnabled: bool,
                      newTitle: string, newDetails: string, newColor: EventColors.EventColor,
                      newEndTime: Option<Instant>, newId: Uuid) returns (clone: Option<EventRecord>)
      modifies event, context`events, this`events, notifications
      ensures Synced()
      ensures Recurrence(old(event.Value())) == Frequencies.Never ==>
                clone.None? && context.events == old(context.events) &&
                event.Value() == old(event.Value()).(title := Some(newTitle), details := Some(newDetails),
                  eventDate := Some(occurrenceDate), endTime := newEndTime,
                  colorRawValue := Some(EventColors.RawValue(newColor)), notificationsEnabled := notificationsEnabled) &&
                notifications.center == old(notifications.center)
      ensures Recurrence(old(event.Value())) != Frequencies.Never ==>
                clone.Some? && fresh(clone.value) && context.events == old(context.events) + {clone.value} &&
                event.Value() == (if ExceptedOn(old(event.Value()), occurrenceDate) then old(event.Value())
                                  else AddingException(old(event.Value()), occurrenceDate)) &&
                clone.value.Value() == NewEvent(newId, newTitle, newDetails, occurrenceDate, newEndTime, newColor,
                                                Frequencies.Never, notificationsEnabled) &&
                notifications.center == old(notifications.center) +
                  (if notificationsEnabled then ScheduleCalls(clone.value.Value()) else [])
      ensures Recurrence(old(event.Value())) != Frequencies.Never ==>
                clone.Some? && !Occurs(event.Value(), occurrenceDate) && Occurs(clone.value.Value(), occurrenceDate) &&
                forall d :: !SameDay(d, occurrenceDate) ==> (Occurs(event.Value(), d) <==> Occurs(old(event.Value()), d))
    {
      if Recurrence(event.Value()) == Frequencies.Never {
        EditInPlace(event, occurrenceDate, notificationsEnabled, newTitle, newDetails, newColor, newEndTime);
        clone := None;
      } else {
        var c := SplitOffOccurrence(event, occurrenceDate, notificationsEnabled, newTitle, newDetails, newColor,
                                    newEndTime, newId);
        clone := Some(c);
      }
    }

    /** The one-off branch of `splitEvent`: the record itself takes the edits and moves to the
        occurrence; nothing is scheduled. */
    method EditInPlace(event: EventRecord, occurrenceDate: Instant, notificationsEnabled: bool,
                       newTitle: string, newDetails: string, newColor: EventColors.EventColor,
                       newEndTime: Option<Instant>)
      modifies event, this`events
      ensures Synced()
      ensures event.Value() == old(event.Value()).(title := Some(newTitle), details := Some(newDetails),
                eventDate := Some(occurrenceDate), endTime := newEndTime,
                colorRawValue := Some(EventColors.RawValue(newColor)), notificationsEnabled := notificationsEnabled)
    {
      event.title := Some(newTitle);
      event.details := Some(newDetails);
      event.eventDate := Some(occurrenceDate);
      event.endTime := newEndTime;
      event.colorRawValue := Some(EventColors.RawValue(newColor));
      event.notificationsEnabled := notificationsEnabled;
      FetchEvents();
    }

    /** The repeating branch of `splitEvent`: the series skips the occurrence day, unless it
        already does, and a new one-off record takes the edits on that day. */
    method SplitOffOccurrence(event: EventRecord, occurrenceDate: Instant, notificationsEnabled: bool,
                              newTitle: string, newDetails: string, newColor: EventColors.EventColor,
                              newEndTime: Option<Instant>, newId: Uuid) returns (c: EventRecord)
      modifies event, context`events, this`events, notifications
      ensures Synced()
      ensures fresh(c) && context.events == old(context.events) + {c}
      ensures event.Value() == (if ExceptedOn(old(event.Value()), occurrenceDate) then old(event.Value())
                                else AddingException(old(event.Value()), occurrenceDate))
      ensures c.Value() == NewEvent(newId, newTitle, newDetails, occurrenceDate, newEndTime, newColor,
                                    Frequencies.Never, notificationsEnabled)
      ensures notifications.center == old(notifications.center) +
                (if notificationsEnabled then ScheduleCalls(c.Value()) else [])
      ensures !Occurs(event.Value(), occurrenceDate) && Occurs(c.Value(), occurrenceDate)
      ensures forall d :: !SameDay(d, occurrenceDate) ==> (Occurs(event.Value(), d) <==> Occurs(old(event.Value()), d))
    {
      ghost var original := event.Value();
      if !ExceptedOn(event.Value(), occurrenceDate) {
        event.exceptionDates := Some(event.exceptionDates.GetOr([]) + [occurrenceDate]);
      }
      ghost var kept := event.Value();
      c := InsertNew(context, newTitle, occurrenceDate, newEndTime, newDetails, newColor, Frequencies.Never,
                     notificationsEnabled, newId);
      FetchEvents();
      if notificationsEnabled {
        notifications.ScheduleNotification(c.Value());
      }
      assert event.Value() == kept;
      forall d | true
        ensures !SameDay(d, occurrenceDate) ==> (Occurs(kept, d) <==> Occurs(original, d))
      {
        SplitMovesOneDay(original, occurrenceDate, c.Value(), d);
      }
      SplitMovesOneDay(original, occurrenceDate, c.Value(), occurrenceDate);
    }

    /** `deleteOccurrence`: appends the day to the skipped days (even if already there), refetches
        and cancels the series' reminder. */
    method DeleteOccurrence(event: EventRecord, day: Instant)
      modifies event, this`events, notifications
      ensures event.Value() == AddingException(old(event.Value()), day)
      ensures Synced()
      ensures notifications.center == old(notifications.center) + CancelCalls(event.id)
      ensures forall d :: Occurs(event.Value(), d) <==> Occurs(old(event.Value()), d) && !SameDay(day, d)
    {
      ghost var before := event.Value();
      event.exceptionDates := Some(event.exceptionDates.GetOr([]) + [day]);
      FetchEvents();
      if event.id.Some? {
        notifications.RemovePendingNotification(event.id.value);
      }
      forall d | true
        ensures Occurs(event.Value(), d) <==> Occurs(before, d) && !SameDay(day, d)
      {
        AddingExceptionRemovesOnlyThatDay(before, day, d);
      }
    }

    /** `deleteEvent`: cancels the reminder, removes the one record and refetches. */
    method DeleteEvent(event: EventRecord)
      modifies context`events, this`events, notifications
      ensures context.events == old(context.events) - {event}
      ensures Synced()
      ensures notifications.center == old(notifications.center) + CancelCalls(event.id)
    {
      if event.id.Some? {
        notifications.RemovePendingNotification(event.id.value);
      }
      context.events := context.events - {event};
      FetchEvents();
    }

    /** One step of `deleteAllEvents`: cancels the record's reminder and deletes it. */
    method CancelAndDelete(e: EventRecord)
      modifies context`events, notifications
      ensures context.events == old(context.events) - {e}
      ensures notifications.center == old(notifications.center) + CancelCalls(e.id)
    {
      if e.id.Some? {
        notifications.RemovePendingNotification(e.id.value);
      }
      context.events := context.events - {e};
    }

    /** The loop of `deleteAllEvents`: cancels and deletes each listed record in turn. */
    method DeleteListed(listed: seq<EventRecord>)
      modifies context`events, notifications
      ensures context.events == old(context.events) - Elements(listed)
      ensures notifications.center == old(notifications.center) + CancelAll(listed)
    {
      var i := 0;
      while i < |listed|
        invariant 0 <= i <= |listed|
        invariant context.events == old(context.events) - Elements(listed[..i])
        invariant notifications.center == old(notifications.center) + CancelAll(listed[..i])
      {
        DeletedPrefix(old(context.events), listed, i);
        CancelledPrefix(old(notifications.center), listed, i);
        CancelAndDelete(listed[i]);
        i := i + 1;
      }
      assert listed[..|listed|] == listed;
    }

    /** `deleteAllEvents`: cancels and deletes every record listed in `events`, then refetches.
        Records stored since the last fetch survive. */
    method DeleteAllEvents()
      modifies context`events, this`events, notifications
      ensures context.events == old(context.events) - Elements(old(events))
      ensures notifications.center == old(notifications.center) + CancelAll(old(events))
      ensures Synced()
      ensures old(Synced()) ==> context.events == {} && events == []
    {
      DeleteListed(events);
      FetchEvents();
      if context.events == {} {
        ListsNothing(events);
      }
    }
  }

  // ---------------------------------------------------------------------
  // A run from an empty store

  /** Adding an event and then deleting all events leaves the new record stored: `addEvent`
      never refetched, so `deleteAllEvents` saw an empty list and cancelled nothing. */
  method AddThenDeleteAllAsWritten() returns (vm: EventEditorViewModel, e: EventRecord)
    ensures vm.context.events == {e} && vm.events == [e]
    ensures |vm.notifications.center| == 1 && vm.notifications.center[0].Add?
  {
    var context := new ManagedContext();
    var notifications := new NotificationManager();
    vm := new EventEditorViewModel(context, notifications);
    ListsNothing(vm.events);
    e := vm.AddEvent("A1", 0, None, "", EventColors.Blue, Frequencies.Never, true, 0);
    vm.DeleteAllEvents();
    ListsOne(vm.events, e);
  }

  /** With the refetch, deleting all events empties the store and cancels the new reminder. */
  method AddThenDeleteAllRefreshing() returns (vm: EventEditorViewModel, e: EventRecord)
    ensures vm.context.events == {} && vm.events == []
    ensures |vm.notifications.center| == 2
    ensures vm.notifications.center[0].Add? && vm.notifications.center[0].request.identifier == 0
    ensures vm.notifications.center[1] == RemovePending([0])
  {
    var context := new ManagedContext();
    var notifications := new NotificationManager();
    vm := new EventEditorViewModel(context, notifications);
    e := vm.AddEventAndRefresh("A1", 0, None, "", EventColors.Blue, Frequencies.Never, true, 0);
    ListsOne(vm.events, e);
    vm.DeleteAllEvents();
    assert [e][..0] == [];
  }
}
