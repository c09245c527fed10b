/** Local reminders (`NotificationManager`): which calendar components a trigger matches,
    the request built for an event, and the calls made on the notification centre. */
module Notifications {
  import opened Wrappers
  import Dates
  import opened EventItems
  import Frequencies
  import Occurrences

  /** The `Calendar.Component`s a trigger can fix. */
  datatype Component = Year | Month | Day | Hour | Minute | Weekday

  /** `calendar.component(c, from: t)`. */
  function ComponentValue(t: Dates.Instant, c: Component): int {
    match c
    case Year => Dates.Year(t)
    case Month => Dates.Month(t)
    case Day => Dates.DayOfMonth(t)
    case Hour => Dates.Hour(t)
    case Minute => Dates.Minute(t)
    case Weekday => Dates.Weekday(t)
  }

  /** `DateComponents` holding only the listed components of `t`. */
  type DateComponents = map<Component, int>

  function ComponentsOf(t: Dates.Instant, fields: set<Component>): (r: DateComponents)
    ensures r.Keys == fields
    ensures forall c :: c in r ==> r[c] == ComponentValue(t, c)
  {
    map c | c in fields :: ComponentValue(t, c)
  }

  /** The components each frequency pins down. */
  function TriggerFields(f: Frequencies.RepeatFrequency): set<Component> {
    match f
    case Never => {Year, Month, Day, Hour, Minute}
    case Daily => {Hour, Minute}
    case Weekly => {Weekday, Hour, Minute}
    case Monthly => {Day, Hour, Minute}
    case Yearly => {Month, Day, Hour, Minute}
  }

  /** `makeTriggerComponents(for:frequency:)`: the components of the start date the trigger
      matches, and whether it repeats. */
  function MakeTriggerComponents(date: Dates.Instant, f: Frequencies.RepeatFrequency): (r: (DateComponents, bool))
    ensures r.1 <==> f != Frequencies.Never
    ensures Hour in r.0 && Minute in r.0
    ensures forall c :: c in r.0 ==> r.0[c] == ComponentValue(date, c)
  {
    (ComponentsOf(date, TriggerFields(f)), f != Frequencies.Never)
  }

  /** A calendar trigger fires at `t` when every component it fixes agrees with `t`. */
  predicate FiresAt(comps: DateComponents, t: Dates.Instant) {
    forall c :: c in comps ==> ComponentValue(t, c) == comps[c]
  }

  /** The component sets, per frequency. */
  lemma TriggerFieldSets(date: Dates.Instant)
    ensures MakeTriggerComponents(date, Frequencies.Never).0.Keys == {Year, Month, Day, Hour, Minute}
    ensures MakeTriggerComponents(date, Frequencies.Daily).0.Keys == {Hour, Minute}
    ensures MakeTriggerComponents(date, Frequencies.Weekly).0.Keys == {Weekday, Hour, Minute}
    ensures MakeTriggerComponents(date, Frequencies.Monthly).0.Keys == {Day, Hour, Minute}
    ensures MakeTriggerComponents(date, Frequencies.Yearly).0.Keys == {Month, Day, Hour, Minute}
  {
  }

  /** A trigger built for a start date fires at the start's hour and minute on exactly the
      days the occurrence pattern of the same frequency accepts. */
  lemma TriggerFiresOnPatternDays(date: Dates.Instant, f: Frequencies.RepeatFrequency, t: Dates.Instant)
    ensures FiresAt(MakeTriggerComponents(date, f).0, t)
            <==> Dates.Hour(t) == Dates.Hour(date) && Dates.Minute(t) == Dates.Minute(date)
                 && Occurrences.MatchesPattern(f, date, t)
  {
    var comps := MakeTriggerComponents(date, f).0;
    assert FiresAt(comps, t) <==> forall c :: c in TriggerFields(f) ==> ComponentValue(t, c) == ComponentValue(date, c);
    if f == Frequencies.Never {
      Dates.DaysFromCivilFromDays(Dates.DayOf(t));
      Dates.DaysFromCivilFromDays(Dates.DayOf(date));
      assert Dates.CivilOf(t) == Dates.CivilOf(date) <==> Dates.SameDay(t, date);
    }
  }

  /** `UNNotificationRequest`: identifier, content and calendar trigger. */
  datatype Request = Request(identifier: Uuid, title: string, body: string,
                             components: DateComponents, repeats: bool)

  /** The request `scheduleNotification` adds, or none when notifications are off or the
      event has no identifier or start. */
  function RequestFor(e: EventItem): (r: Option<Request>)
    ensures r.Some? <==> e.notificationsEnabled && e.id.Some? && e.eventDate.Some?
    ensures r.Some? ==> r.value.identifier == e.id.value
    ensures r.Some? ==> r.value.title == e.title.GetOr("Event Reminder") && r.value.body == e.details.GetOr("")
    ensures r.Some? ==> (r.value.components, r.value.repeats) == MakeTriggerComponents(e.eventDate.value, Recurrence(e))
  {
    if !e.notificationsEnabled || e.id.None? || e.eventDate.None? then None
    else
      var (components, repeats) := MakeTriggerComponents(e.eventDate.value, Recurrence(e));
      Some(Request(e.id.value, e.title.GetOr("Event Reminder"), e.details.GetOr(""), components, repeats))
  }

  /** A call received by the notification centre. */
  datatype CenterCall = Add(request: Request) | RemovePending(identifiers: seq<Uuid>)

  /** The calls `scheduleNotification(event:)` makes: one `add`, or none when guarded out. */
  function ScheduleCalls(e: EventItem): (r: seq<CenterCall>)
    ensures |r| <= 1
    ensures r != [] <==> e.notificationsEnabled && e.id.Some? && e.eventDate.Some?
    ensures r != [] ==> r[0] == Add(RequestFor(e).value) && r[0].request.identifier == e.id.value
  {
    match RequestFor(e)
    case Some(request) => [Add(request)]
    case None => []
  }

  /** A scheduled reminder for a repeating event repeats and fires on the event's pattern days
      at the start's hour and minute. */
  lemma ScheduledReminderFollowsEvent(e: EventItem, t: Dates.Instant)
    requires RequestFor(e).Some?
    ensures RequestFor(e).value.repeats <==> ShouldOfferSplit(e)
    ensures FiresAt(RequestFor(e).value.components, t)
            <==> Dates.Hour(t) == Dates.Hour(e.eventDate.value) && Dates.Minute(t) == Dates.Minute(e.eventDate.value)
                 && Occurrences.MatchesPattern(Recurrence(e), e.eventDate.value, t)
  {
    TriggerFiresOnPatternDays(e.eventDate.value, Recurrence(e), t);
  }

  /** The notification manager, reduced to the calls it has made on its centre. */
  class NotificationManager {
    var center: seq<CenterCall>

    constructor ()
      ensures center == []
    {
      center := [];
    }

    /** `scheduleNotification(event:)`. */
    method ScheduleNotification(e: EventItem)
      modifies this
      ensures center == old(center) + ScheduleCalls(e)
    {
      var request := RequestFor(e);
      if request.Some? {
        center := center + [Add(request.value)];
      }
    }

    /** `schedule(localNotification:)` of the earlier manager: adds one prepared request. */
    method Schedule(request: Request)
      modifies this
      ensures center == old(center) + [Add(request)]
    {
      center := center + [Add(request)];
    }

    /** `removePendingNotification(identifier:)`: removes exactly that one identifier. */
    method RemovePendingNotification(identifier: Uuid)
      modifies this
      ensures center == old(center) + [RemovePending([identifier])]
    {
      center := center + [RemovePending([identifier])];
    }
  }
}
