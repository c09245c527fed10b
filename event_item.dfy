/** The persisted `EventItem` record and its computed accessors. */
module EventItems {
  import opened Wrappers
  import opened Dates
  import Frequencies
  import EventColors

  /** A record identifier (`UUID`); fresh identifiers are drawn from a counter. */
  type Uuid = nat

  /** One stored event. Optional attributes of the data model are `Option`s;
      `exceptionDates` is the transformable list of skipped days. */
  datatype EventItem = EventItem(
    id: Option<Uuid>,
    title: Option<string>,
    details: Option<string>,
    eventDate: Option<Instant>,
    endTime: Option<Instant>,
    colorRawValue: Option<string>,
    repeatFrequency: Frequencies.Int16,
    repeatEndDate: Option<Instant>,
    exceptionDates: Option<seq<Instant>>,
    notificationsEnabled: bool)

  /** `recurrence` getter: an unknown raw value reads as `.none`. */
  function Recurrence(e: EventItem): Frequencies.RepeatFrequency {
    Frequencies.FromRaw(e.repeatFrequency).GetOr(Frequencies.Never)
  }

  /** `recurrence` setter: stores the raw value. */
  function WithRecurrence(e: EventItem, f: Frequencies.RepeatFrequency): EventItem {
    e.(repeatFrequency := Frequencies.RawValue(f))
  }

  /** `shouldOfferSplit`: only repeating events offer "this occurrence" editing. */
  predicate ShouldOfferSplit(e: EventItem) {
    Recurrence(e) != Frequencies.Never
  }

  /** `eventColor` getter: missing or unknown raw values read as blue. */
  function Color(e: EventItem): EventColors.EventColor {
    if e.colorRawValue.None? then EventColors.Blue
    else EventColors.FromRaw(e.colorRawValue.value).GetOr(EventColors.Blue)
  }

  /** `eventColor` setter: stores the raw value. */
  function WithColor(e: EventItem, c: EventColors.EventColor): EventItem {
    e.(colorRawValue := Some(EventColors.RawValue(c)))
  }

  /** Reading the recurrence back after setting it gives the value set; nothing else changes. */
  lemma RecurrenceGetAfterSet(e: EventItem, f: Frequencies.RepeatFrequency)
    ensures Recurrence(WithRecurrence(e, f)) == f
    ensures WithRecurrence(e, f).(repeatFrequency := e.repeatFrequency) == e
  {
  }

  /** The getter decodes raw values 0..4 and falls back to `.none` for every other raw value. */
  lemma RecurrenceOfRaw(e: EventItem)
    ensures 0 <= e.repeatFrequency <= 4 ==> Frequencies.RawValue(Recurrence(e)) == e.repeatFrequency
    ensures !(0 <= e.repeatFrequency <= 4) ==> Recurrence(e) == Frequencies.Never
  {
  }

  /** Splitting is offered exactly for raw values 1..4. */
  lemma ShouldOfferSplitIff(e: EventItem)
    ensures ShouldOfferSplit(e) <==> 1 <= e.repeatFrequency <= 4
  {
  }

  /** Reading the colour back after setting it gives the value set; nothing else changes. */
  lemma ColorGetAfterSet(e: EventItem, c: EventColors.EventColor)
    ensures Color(WithColor(e, c)) == c
    ensures WithColor(e, c).(colorRawValue := e.colorRawValue) == e
  {
    EventColors.RawValueRoundTrip(c, c, EventColors.RawValue(c));
  }

  /** The getter returns the stored colour when its raw value is known, blue otherwise. */
  lemma ColorOfRaw(e: EventItem)
    ensures Color(e) != EventColors.Blue ==> e.colorRawValue == Some(EventColors.RawValue(Color(e)))
    ensures e.colorRawValue.None? ==> Color(e) == EventColors.Blue
    ensures e.colorRawValue.Some? && EventColors.FromRaw(e.colorRawValue.value).None? ==> Color(e) == EventColors.Blue
  {
  }
}
