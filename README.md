# Calendar — a Dafny model of the event, reminder and holiday core

This project models the core of the Calendar iOS app (Swift, Core Data). The app stores
events, which may repeat daily, weekly, monthly or yearly, and may skip days or end early.
It keeps the local reminders of those events in step with the store. It also caches
public holidays and sunrise/sunset/temperature data from a calendar web API. The model
covers these parts:

- **The event record** (`EventItems`, `Store.EventRecord`):
  - its attributes;
  - the `recurrence` and `eventColor` accessors with their fallbacks;
  - `shouldOfferSplit`.
- **When an event occurs** (`Occurrences`):
  - `occurs(on:)` with its guard chain: exceptions, then a missing start, then the repeat
    end, then the start day.
  - An independent description of the series by calendar arithmetic, proved equal to it.
- **When an occurrence is over** (`EndTimes`): the per-occurrence end and the older
  whole-event `hasFinished`.
- **Date helpers**:
  - `combine(day:time:)` (`DateUtils`);
  - the soft-hyphen insertion for titles (`Hyphenation`);
  - the six-week month grid (`MonthGrid`).
- **Reminders** (`Notifications`):
  - which calendar components a trigger matches for each frequency;
  - the request built for an event;
  - the log of calls made on the notification centre.
- **The two view models**, `EventEditor.EventEditorViewModel` (current) and
  `LegacyEvents.LegacyEventViewModel` (earlier). Both operate on a shared
  `Store.ManagedContext`:
  - add, update, split and delete events;
  - delete one occurrence;
  - delete all events;
  - filter by day and look up holidays.
- **The API services**:
  - `Holidays.HolidayService`: holidays by day, and preloading a year at most once.
  - `DayInfo.DayInfoService`: cache, future-date gate, import with the temperature-range
    parsing.
  - The `yyyy-MM-dd` date strings of the API (`ApiDates`).

Time is an integer count of seconds in one fixed, DST-free local calendar (`Dates`):
- `DayOf(t) = t / 86400`;
- civil dates come from the proleptic Gregorian calendar, with proved round trips between
  day numbers and valid dates;
- weekdays are numbered 1 = Sunday to 7 = Saturday, as Foundation numbers them.

Core Data objects whose attributes the code assigns in place are classes:
- `EventRecord`;
- the context, with its set of registered events and its holiday and day-info rows;
- the notification manager, with the log of centre calls.

`Synced()` says that a view model's `events` list is what a fetch would return now: each
stored record once, ascending by date.

Things outside the app's code are parameters of the model:
- the current time (`now`);
- fresh identifiers (`newId`);
- API responses (`remote`: the decoded response, or `None` when the request or decoding
  fails).

A service's `fetches` counter counts the requests it would make.

## Model

| member | source | states |
|---|---|---|
| Frequencies.FromRaw | Calendar/Shared/Models/Enums/RepeatFrequency.swift:12-13 | a raw value is accepted exactly when it is 0..4, and the case it yields has that raw value |
| Frequencies.RawValuesAreIndices | Calendar/Shared/Models/Enums/RepeatFrequency.swift:12-13 | `allCases` lists all five cases once, and their raw values are 0..4 in declaration order |
| Frequencies.RawValueInjective | Calendar/Shared/Models/Enums/RepeatFrequency.swift:12-13 | two cases share a raw value only if they are the same case |
| Frequencies.RawValueRoundTrip | Calendar/Shared/Models/Enums/RepeatFrequency.swift:12-13 | decoding a case's raw value gives the case back; a raw value decodes to a case iff it is that case's raw value |
| Frequencies.Id | Calendar/Shared/Models/Enums/RepeatFrequency.swift:15 | a case's id is the case itself |
| Frequencies.DisplayName | Calendar/Shared/Models/Enums/RepeatFrequency.swift:18-26 | the Picker label of each frequency; `Frequencies.DisplayNames` states the five labels and that no two cases share one |
| Frequencies.DisplayNames | Calendar/Shared/Models/Enums/RepeatFrequency.swift:18-26 | the labels are Never/Daily/Weekly/Monthly/Yearly, and no two cases share one |
| EventColors.FromRaw | Calendar/Shared/Models/Enums/EventColor.swift:10-15 | a decoded colour's raw value is the string it was decoded from |
| EventColors.FiveCases | Calendar/Shared/Models/Enums/EventColor.swift:10-15 | there are five distinct colours, and `allCases` lists each of them |
| EventColors.RawValueRoundTrip | Calendar/Shared/Models/Enums/EventColor.swift:10-15 | raw values are distinct, and decoding a colour's raw value gives the colour back (iff) |
| EventColors.DisplayName | Calendar/Shared/Models/Enums/EventColor.swift:27-29 | the colour's raw value with its first letter upper-cased; `EventColors.DisplayNames` and `EventColors.DisplayNameShape` state the resulting labels |
| EventColors.DisplayNames | Calendar/Shared/Models/Enums/EventColor.swift:27-29 | the display name is the raw value with its first letter capitalised (Red, Blue, Green, Orange, Purple) |
| EventColors.LowerWordKept | Calendar/Shared/Models/Enums/EventColor.swift:27-29 | inside a word, `capitalized` keeps lower-case letters |
| EventColors.CapitalizedWord | Calendar/Shared/Models/Enums/EventColor.swift:27-29 | a lower-case word is capitalised in its first letter only |
| EventColors.DisplayNameShape | Calendar/Shared/Models/Enums/EventColor.swift:27-29 | each display name is its raw value with the first letter upper-cased |
| EventColors.RedLabel | Calendar/Shared/Models/Enums/EventColor.swift:27-29 | red is shown as "Red" |
| EventColors.BlueLabel | Calendar/Shared/Models/Enums/EventColor.swift:27-29 | blue is shown as "Blue" |
| EventColors.GreenLabel | Calendar/Shared/Models/Enums/EventColor.swift:27-29 | green is shown as "Green" |
| EventColors.OrangeLabel | Calendar/Shared/Models/Enums/EventColor.swift:27-29 | orange is shown as "Orange" |
| EventColors.PurpleLabel | Calendar/Shared/Models/Enums/EventColor.swift:27-29 | purple is shown as "Purple" |
| EventItems.Recurrence | Calendar/Shared/Models/Extensions/EventItem+Recurrence.swift:12-15 | the `recurrence` getter: the stored raw value decoded, an unknown raw value reading as never; `EventItems.RecurrenceOfRaw` states both cases and `EventItems.RecurrenceGetAfterSet` ties it to the setter |
| EventItems.WithRecurrence | Calendar/Shared/Models/Extensions/EventItem+Recurrence.swift:16-18 | the `recurrence` setter: stores the frequency's raw value; `EventItems.RecurrenceGetAfterSet` states that the getter then returns the frequency set and that no other field changes |
| EventItems.ShouldOfferSplit | Calendar/Shared/Models/Extensions/EventItem+Recurrence.swift:21 | an event offers per-occurrence editing when its recurrence is not never; `EventItems.ShouldOfferSplitIff` restates this over the stored raw value |
| EventItems.RecurrenceGetAfterSet | Calendar/Shared/Models/Extensions/EventItem+Recurrence.swift:12-19 | reading `recurrence` after setting it gives the value set; no other attribute changes |
| EventItems.RecurrenceOfRaw | Calendar/Shared/Models/Extensions/EventItem+Recurrence.swift:13-15 | raw values 0..4 decode to their case; every other stored raw value reads as `.none` |
| EventItems.ShouldOfferSplitIff | Calendar/Shared/Models/Extensions/EventItem+Recurrence.swift:21 | a split is offered exactly when the stored raw value is 1..4 |
| EventItems.Color | Calendar/Shared/Models/Extensions/EventItem+Color.swift:10-16 | the `eventColor` getter: a missing or unknown raw value reads as blue; `EventItems.ColorOfRaw` states both cases and `EventItems.ColorGetAfterSet` ties it to the setter |
| EventItems.WithColor | Calendar/Shared/Models/Extensions/EventItem+Color.swift:17-19 | the `eventColor` setter: stores the colour's raw value; `EventItems.ColorGetAfterSet` states that the getter then returns the colour set and that no other field changes |
| EventItems.ColorGetAfterSet | Calendar/Shared/Models/Extensions/EventItem+Color.swift:10-20 | reading `eventColor` after setting it gives the value set; no other attribute changes |
| EventItems.ColorOfRaw | Calendar/Shared/Models/Extensions/EventItem+Color.swift:11-16 | a missing or unknown raw colour reads as blue; any other colour read is the stored one |
| Occurrences.AddingException | Calendar/ViewModel/EventViewModel.swift:137-139 | the day becomes the last skipped day, a missing list is started, and no other attribute changes |
| Occurrences.Occurs | Calendar/Shared/Models/Extensions/EventItem+Recurrence.swift:23-71 | `occurs(on:)`: false on an excepted day, without a start date, after the repeat end day or before the start day, else the frequency's pattern decides; `Occurrences.OccursIffInSeries` states it against the series of generated days |
| Occurrences.MatchesPattern | Calendar/Shared/Models/Extensions/EventItem+Recurrence.swift:42-70 | the per-frequency test of `occurs(on:)` (same day, every day, same weekday, same day of month, same month and day); `Occurrences.MatchesPatternIsGenerated` states that a day on or after the start matches exactly when the frequency's generator reaches it |
| Occurrences.OccursIffInSeries | Calendar/Shared/Models/Extensions/EventItem+Recurrence.swift:23-71 | `occurs(on:)` holds exactly on the days of the series: from the start day to the repeat end day inclusive, not skipped, and generated by the frequency through calendar arithmetic |
| Occurrences.MatchesPatternIsGenerated | Calendar/Shared/Models/Extensions/EventItem+Recurrence.swift:42-70 | each frequency's component test holds exactly on the days that frequency generates from the start |
| Occurrences.MonthlyIsGenerated | Calendar/Shared/Models/Extensions/EventItem+Recurrence.swift:57-61 | same day of month iff the day is a valid date a whole number of months from the start |
| Occurrences.SameDayOfMonthIsGenerated | Calendar/Shared/Models/Extensions/EventItem+Recurrence.swift:57-61 | a day with the start's day of month is a valid date some whole number of months after the start |
| Occurrences.GeneratedIsSameDayOfMonth | Calendar/Shared/Models/Extensions/EventItem+Recurrence.swift:57-61 | a valid date a whole number of months after the start has the start's day of month |
| Occurrences.YearlyIsGenerated | Calendar/Shared/Models/Extensions/EventItem+Recurrence.swift:63-69 | same month and day iff the day is a valid date a whole number of years from the start |
| Occurrences.OccursOnlyInWindow | Calendar/Shared/Models/Extensions/EventItem+Recurrence.swift:25-40 | no occurrence on a skipped day, without a start, before the start day, or after the repeat end day |
| Occurrences.RepeatEndInclusive | Calendar/Shared/Models/Extensions/EventItem+Recurrence.swift:33-36 | the repeat end day itself still occurs; an end date on or after the day changes nothing |
| Occurrences.AddingExceptionRemovesOnlyThatDay | Calendar/Shared/Models/Extensions/EventItem+Recurrence.swift:25-28 | after skipping a day, an event occurs on a day iff it did before and that day is not the skipped one |
| Occurrences.TruncatedBefore | Calendar/Shared/Models/Extensions/EventItem+Recurrence.swift:33-40 | an end date the day before an occurrence removes that day and every later one, and keeps every earlier one |
| Occurrences.NeverRepeatsOnlyOnStartDay | Calendar/Shared/Models/Extensions/EventItem+Recurrence.swift:43-45 | a one-off event occurs only on its start day, and then does unless skipped or already ended |
| Occurrences.WeeklyEverySeventhDay | Calendar/Shared/Models/Extensions/EventItem+Recurrence.swift:51-55 | a weekly event occurs every seventh day from its start (unless skipped or ended), and never on the day after any of them |
| Occurrences.MonthlyOnThirtyFirst | Calendar/Shared/Models/Extensions/EventItem+Recurrence.swift:57-61 | a monthly series started on the 31st occurs only in 31-day months |
| Occurrences.YearlyOnLeapDay | Calendar/Shared/Models/Extensions/EventItem+Recurrence.swift:63-69 | a yearly series started on 29 February occurs only in leap years |
| Occurrences.WeeklyFromThirdOfMay2025 | Calendar/Shared/Models/Extensions/EventItem+Recurrence.swift:51-55 | 3 May 2025 is a Saturday; a weekly event started then occurs on 10 May and not on 4 May |
| Dates.CompareByDay | Calendar/Shared/Models/Extensions/EventItem+Recurrence.swift:33-40 | day-granularity comparison is ascending, same or descending exactly as the day numbers compare |
| Dates.WeekdayPeriodic | Calendar/Shared/Models/Extensions/EventItem+Recurrence.swift:51-55 | two instants share a weekday iff their days are a whole number of weeks apart |
| Dates.CivilFromDaysFromCivil | Calendar/DateUtils.swift:13-22 | building a date from valid year/month/day components and reading them back gives the same components |
| Dates.DaysFromCivilFromDays | Calendar/DateUtils.swift:13-22 | reading the components of a day and building a date from them gives the same day |
| Dates.DayNumberInMonth | Calendar/View/Calendar/MonthView/CalendarGridView.swift:19-22 | a day lies in a given month exactly when it is one of that month's consecutive days from its 1st, and then its day of month is its offset plus one |
| EndTimes.EndDate | Calendar/Shared/Models/Extensions/EventItem+EndTime.swift:15-37 | the end of one occurrence lies between the start of the occurrence's day and the start of the next day; `EndTimes.EndDateOnOccurrenceDay` says which clock time it carries |
| EndTimes.HasFinished | Calendar/Shared/Models/Extensions/EventItem+EndTime.swift:39-43 | an occurrence has finished once `now` reaches its end; `EndTimes.HasFinishedMonotone` states that it stays finished as time goes on |
| EndTimes.EndDateOnOccurrenceDay | Calendar/Shared/Models/Extensions/EventItem+EndTime.swift:15-37 | an occurrence ends on its own day at the end time's clock, else at the start's clock; with neither, at the next midnight; always within its day |
| EndTimes.HasFinishedMonotone | Calendar/Shared/Models/Extensions/EventItem+EndTime.swift:39-43 | once an occurrence has finished it stays finished |
| EndTimes.FinishedAtStartWithoutEndTime | Calendar/Shared/Models/Extensions/EventItem+EndTime.swift:26-43 | without an end time, the occurrence on the start day has finished exactly from the start instant on |
| EndTimes.EveningEvent | Calendar/Shared/Models/Extensions/EventItem+EndTime.swift:18-24 | an event from 20:00 to 21:00 has not finished at 20:30 and has finished at 21:05 |
| EndTimes.EffectiveEndTime | Calendar/EventItemExt.swift:13-15 | the end time when present, else the start; absent only when both are |
| EndTimes.HasFinishedOverall | Calendar/EventItemExt.swift:16-19 | an event without end time or start has never finished, otherwise it has once `now` is strictly after its effective end; `EndTimes.VariantsAtEndInstant` compares it with the per-occurrence test |
| EndTimes.VariantsAtEndInstant | Calendar/EventItemExt.swift:16-19 | at the end instant the per-occurrence test already says finished and the whole-event test does not; whole-event finished implies per-occurrence finished |
| DateUtils.Combine | Calendar/DateUtils.swift:11-23 | the result has the date (year, month, day) of `day` and the hour, minute and second of `time` |
| DateUtils.CombineSelf | Calendar/DateUtils.swift:11-23 | an instant combined with itself is itself |
| DateUtils.CombineAbsorbs | Calendar/DateUtils.swift:11-23 | only the day of the first argument and the clock of the second matter |
| Hyphenation.SoftHyphenated | Calendar/Shared/Models/Extensions/String+Hyphen.swift:11-16 | short strings are unchanged; longer ones gain one soft hyphen after at most `firstN` characters, at least three characters before the end, and removing it gives the input |
| Hyphenation.OneSoftHyphenAdded | Calendar/Shared/Models/Extensions/String+Hyphen.swift:13-15 | in a string without soft hyphens, the break index is the only place the output has one |
| Hyphenation.DefaultBreak | Calendar/Shared/Models/Extensions/String+Hyphen.swift:11-16 | with the default 8: "Meeting" unchanged, "Wednes-day", "Conferen-ce call" |
| MonthGrid.DaysBackTo | Calendar/View/Calendar/MonthView/CalendarGridView.swift:24-25 | `leading` is 0..6 and steps back from the 1st to a day that is `firstWeekday` |
| MonthGrid.AllRows | Calendar/View/Calendar/MonthView/CalendarGridView.swift:18-55 | the three loops and the chunking give six weeks of seven consecutive days, starting `leading` days before the 1st |
| MonthGrid.Weeks | Calendar/View/Calendar/MonthView/CalendarGridView.swift:52-54 | chunking gives ceil(n/7) slices, each the next seven elements (a shorter last one) |
| MonthGrid.Rows | Calendar/View/Calendar/MonthView/CalendarGridView.swift:57-63 | the kept weeks are the first 4 to 6 grid weeks, those up to the one holding the month's last day |
| MonthGrid.GridDayInMonth | Calendar/View/Calendar/MonthView/CalendarGridView.swift:28-41 | a cell is in the displayed month iff it is one of the month's cells, which are the 1st, 2nd, … in order |
| MonthGrid.GridColumnWeekday | Calendar/View/Calendar/MonthView/CalendarGridView.swift:24-54 | every cell of column c shows weekday `firstWeekday + c` (cyclically) |
| MonthGrid.EveryDayOfMonthShown | Calendar/View/Calendar/MonthView/CalendarGridView.swift:36-63 | each day of the month has a cell within the kept weeks |
| MonthGrid.WeekTouchesMonth | Calendar/View/Calendar/MonthView/CalendarGridView.swift:57-63 | a grid week contains a day of the month iff it starts before the month's last cell |
| MonthGrid.RowsOfMonth | Calendar/View/Calendar/MonthView/CalendarGridView.swift:58-62 | keeps, in order, the weeks holding a day of the displayed month; `MonthGrid.RowsOfMonthFilters` and `MonthGrid.RowsOfMonthPrefix` state what it keeps |
| MonthGrid.RowsOfMonthFilters | Calendar/View/Calendar/MonthView/CalendarGridView.swift:58-62 | the filtered rows are never more than the weeks given, and a week is kept exactly when it is one of them and holds a day of the displayed month |
| MonthGrid.RowsOfMonthPrefix | Calendar/View/Calendar/MonthView/CalendarGridView.swift:58-62 | filtering a list whose touching weeks form a prefix gives that prefix |
| Notifications.ComponentsOf | Calendar/Shared/Services/Notifications/NotificationManager.swift:109-112 | the components hold exactly the requested fields, each with the date's value |
| Notifications.MakeTriggerComponents | Calendar/Shared/Services/Notifications/NotificationManager.swift:103-139 | the trigger repeats iff the frequency is not `.none`, always fixes hour and minute, and every fixed value is the start's |
| Notifications.TriggerFieldSets | Calendar/Shared/Services/Notifications/NotificationManager.swift:107-138 | the fields fixed per frequency: y/m/d/h/min, h/min, weekday/h/min, day/h/min, month/day/h/min |
| Notifications.TriggerFiresOnPatternDays | Calendar/Shared/Services/Notifications/NotificationManager.swift:103-139 | a trigger fires at an instant iff it is at the start's hour and minute on a day whose components pass the occurrence test of the same frequency |
| Notifications.RequestFor | Calendar/Shared/Services/Notifications/NotificationManager.swift:51-69 | a request exists iff notifications are on and the event has an id and a start; its identifier, title (default "Event Reminder"), body (default "") and trigger |
| Notifications.ScheduleCalls | Calendar/Shared/Services/Notifications/NotificationManager.swift:51-72 | `scheduleNotification` adds one request with the event's identifier exactly when the guard passes, and otherwise nothing |
| Notifications.ScheduledReminderFollowsEvent | Calendar/Shared/Services/Notifications/NotificationManager.swift:58-69 | a scheduled reminder repeats iff the event offers a split, and fires on the event's pattern days at its hour and minute |
| Notifications.NotificationManager.constructor | Calendar/Shared/Services/Notifications/NotificationManager.swift:16-19 | a new manager has made no calls |
| Notifications.NotificationManager.ScheduleNotification | Calendar/Shared/Services/Notifications/NotificationManager.swift:51-72 | the centre receives exactly the calls of `ScheduleCalls` |
| Notifications.NotificationManager.Schedule | Calendar/NotificationManager.swift:47-64 | the centre receives exactly one `add` of the prepared request |
| Notifications.NotificationManager.RemovePendingNotification | Calendar/Shared/Services/Notifications/NotificationManager.swift:75-77 | the centre receives exactly one removal, of that one identifier |
| Store.EventRecord.constructor | Calendar/ViewModel/EventViewModel.swift:47 | a new record has no attributes set: optionals nil, frequency 0, notifications off |
| Store.EventRecord.Value | Calendar/ViewModel/EventViewModel.swift:48-55 | the record's ten attributes as one `EventItem` value; the constructor and every view-model method state the record's new contents through it |
| Store.OnDayIsSameDay | Calendar/Shared/Services/Networking/HolidayService.swift:24-32 | the fetch window `[startOfDay, startOfDay + 1 day)` holds exactly the instants of that calendar day |
| Store.ManagedContext.FetchEventsByDate | Calendar/ViewModel/EventViewModel.swift:29-32 | the fetch lists every stored record once, ascending by date (missing dates first) |
| Seqs.FirstWhere | Calendar/Shared/Services/Networking/HolidayService.swift:65 | finds an element iff one satisfies the test, and returns the first such |
| EventEditor.NewEvent | Calendar/ViewModel/EventViewModel.swift:47-55 | the new record's id, start, notification flag, recurrence and colour are the given ones, and it occurs exactly on the pattern days from its start on |
| EventEditor.InsertNew | Calendar/ViewModel/EventViewModel.swift:47-55 | exactly one new record joins the store, with the `NewEvent` attributes |
| EventEditor.SplitMovesOneDay | Calendar/ViewModel/EventViewModel.swift:111-125 | after a recurring split the series keeps every day but the occurrence, and the one-off clone has exactly that day |
| EventEditor.EventEditorViewModel.constructor | Calendar/ViewModel/EventViewModel.swift:20-26 | the new view model lists the stored events |
| EventEditor.EventEditorViewModel.FetchEvents | Calendar/ViewModel/EventViewModel.swift:28-36 | afterwards `events` lists the store, ascending by date |
| EventEditor.EventEditorViewModel.AddEvent | Calendar/ViewModel/EventViewModel.swift:38-61 | one new record with the given attributes is stored, `events` is left as it was, and one reminder is scheduled iff notifications are on |
| EventEditor.EventEditorViewModel.AddEventAndRefresh | Calendar/ViewModel/EventViewModel.swift:38-61 | as `AddEvent`, followed by the refetch that makes `events` list the new record |
| EventEditor.EventEditorViewModel.UpdateEvent | Calendar/ViewModel/EventViewModel.swift:63-83 | the edited attributes are overwritten and skipped days and repeat end cleared; the list is refetched; old reminder cancelled before the new one is scheduled; the event then occurs exactly on the new pattern days |
| EventEditor.EventEditorViewModel.AssignEdits | Calendar/ViewModel/EventViewModel.swift:64-72 | the edited attributes are overwritten, skipped days and repeat end cleared, and the event then occurs exactly on the days of the new rule from the new start |
| EventEditor.EventEditorViewModel.SplitEvent | Calendar/ViewModel/EventViewModel.swift:86-133 | a one-off is edited in place and nothing is stored or scheduled; a recurring event skips the day (once) and a one-off clone is stored on it, so the day moves to the clone and every other day is unchanged |
| EventEditor.EventEditorViewModel.EditInPlace | Calendar/ViewModel/EventViewModel.swift:97-109 | the one-off record takes the new title, details, colour, times and flag and moves to the occurrence; the list is refetched |
| EventEditor.EventEditorViewModel.SplitOffOccurrence | Calendar/ViewModel/EventViewModel.swift:111-132 | the series skips the occurrence day unless it already does, one fresh one-off clone is stored there and scheduled iff notifications are on; the day moves to the clone and every other day of the series is unchanged |
| EventEditor.EventEditorViewModel.DeleteOccurrence | Calendar/ViewModel/EventViewModel.swift:136-146 | the day is appended to the skipped days, the list is refetched, the series' reminder is cancelled, and exactly that day stops occurring |
| EventEditor.EventEditorViewModel.DeleteEvent | Calendar/ViewModel/EventViewModel.swift:149-157 | the reminder is cancelled, the record removed and the list refetched |
| EventEditor.EventEditorViewModel.CancelAndDelete | Calendar/ViewModel/EventViewModel.swift:161-164 | one record's reminder is cancelled when it has an identifier, and exactly that record is removed |
| EventEditor.EventEditorViewModel.DeleteListed | Calendar/ViewModel/EventViewModel.swift:160-165 | each listed record is cancelled and removed, in list order |
| EventEditor.EventEditorViewModel.DeleteAllEvents | Calendar/ViewModel/EventViewModel.swift:159-168 | every record listed in `events` is cancelled and removed, then refetched; if `events` was current, the store ends empty |
| EventEditor.AddThenDeleteAllAsWritten | Calendar/ViewModel/EventViewModel.swift:159-168 | on an empty store, `addEvent` then `deleteAllEvents` leaves the new record stored and its reminder scheduled |
| EventEditor.AddThenDeleteAllRefreshing | Calendar/ViewModel/EventViewModel.swift:159-168 | with the refetch after adding, `deleteAllEvents` empties the store and cancels the reminder |
| LegacyEvents.OccurringOn | Calendar/EventViewModel.swift:39-41 | keeps exactly the listed events that occur on the day |
| LegacyEvents.OccurringOnAppend | Calendar/EventViewModel.swift:39-41 | filtering keeps list order: the filter of a concatenation is the concatenation of the filters |
| LegacyEvents.TruncationKeepsEarlierDays | Calendar/EventViewModel.swift:95-106 | ending the series the day before an occurrence it had keeps every earlier day |
| LegacyEvents.SplitEndsSeries | Calendar/EventViewModel.swift:95-106 | ending the series the day before an occurrence removes that day and every later one, and keeps the earlier ones |
| LegacyEvents.ReminderOutlivesSplit | Calendar/EventViewModel.swift:108-113 | the reminder rescheduled for the ended series equals the one it had, so it still fires at the start's clock time on the split day, a day the ended series no longer has (the trigger of lines 178-205 and Calendar/NotificationManager.swift:48-64 has no end date) |
| LegacyEvents.LegacyEventViewModel.constructor | Calendar/EventViewModel.swift:21-28 | the new view model lists the stored events |
| LegacyEvents.LegacyEventViewModel.FetchEvents | Calendar/EventViewModel.swift:30-38 | afterwards `events` lists the store, ascending by date |
| LegacyEvents.LegacyEventViewModel.EventsForDay | Calendar/EventViewModel.swift:39-41 | the fetched events occurring on the day, and all of them |
| LegacyEvents.LegacyEventViewModel.ScheduleNotification | Calendar/EventViewModel.swift:178-205 | the same guard and request as the notification manager's, handed on as one `schedule` |
| LegacyEvents.LegacyEventViewModel.AddEvent | Calendar/EventViewModel.swift:43-59 | one new record stored and listed after the refetch, with a reminder iff notifications are on |
| LegacyEvents.LegacyEventViewModel.UpdateEvent | Calendar/EventViewModel.swift:61-80 | the edited attributes are overwritten, skipped days and repeat end kept; refetch; cancel then reschedule when the record has an id |
| LegacyEvents.LegacyEventViewModel.AssignEdits | Calendar/EventViewModel.swift:62-68 | the edited attributes are overwritten and everything else, skipped days and repeat end included, is kept; the recurrence and colour read back as the given ones |
| LegacyEvents.LegacyEventViewModel.SplitEvent | Calendar/EventViewModel.swift:83-133 | the series ends the day before the occurrence (no later day occurs, earlier days kept) and is rescheduled; a new record with the new recurrence starts at the occurrence |
| LegacyEvents.LegacyEventViewModel.EndSeriesBefore | Calendar/EventViewModel.swift:95-113 | sets the repeat end to the day before, then cancels and reschedules when the record has an id |
| LegacyEvents.LegacyEventViewModel.DeleteOccurrence | Calendar/EventViewModel.swift:135-146 | the day is appended to the skipped days, refetched and the reminder cancelled; exactly that day stops occurring |
| LegacyEvents.LegacyEventViewModel.DeleteEvent | Calendar/EventViewModel.swift:149-157 | the reminder is cancelled, the record removed and the list refetched |
| LegacyEvents.LegacyEventViewModel.HolidayForDay | Calendar/EventViewModel.swift:159-168 | the first stored holiday dated within the day |
| ApiDates.ParseDate | Calendar/Shared/Models/Enums/APIDate.swift:11-17 | a string parses iff it is `yyyy-MM-dd` digits naming a real date |
| ApiDates.ParsedDate | Calendar/Shared/Models/Enums/APIDate.swift:11-17 | a parsed string yields midnight of exactly the date it names |
| ApiDates.FormatDate | Calendar/Shared/Models/Enums/APIDate.swift:11-17 | formatting a date with a four-digit year gives a `yyyy-MM-dd` string |
| ApiDates.ParseFormat | Calendar/Shared/Models/Enums/APIDate.swift:11-17 | parsing a formatted date gives midnight of that date |
| ApiDates.FormatOfFields | Calendar/Shared/Models/Enums/APIDate.swift:11-17 | every accepted string is the formatted form of its date, so distinct strings name distinct days |
| ApiDates.FormatOfWellFormed | Calendar/Shared/Models/Enums/APIDate.swift:11-17 | a string in the `yyyy-MM-dd` shape whose fields form a valid date is exactly the formatted form of those fields |
| ApiDates.NewYear2025 | Calendar/Shared/Models/Enums/APIDate.swift:11-17 | "2025-01-01" is 1 January 2025; "2025-02-29" and "2025-1-01" are rejected |
| ApiDates.NewYearParses | Calendar/Shared/Models/Enums/APIDate.swift:11-17 | "2025-01-01" is midnight of 1 January 2025 |
| ApiDates.LeapDayRejected | Calendar/Shared/Models/Enums/APIDate.swift:11-17 | "2025-02-29" is rejected because 2025 is not a leap year |
| ApiDates.ShortMonthRejected | Calendar/Shared/Models/Enums/APIDate.swift:11-17 | "2025-1-01", with a one-digit month, is rejected |
| Holidays.HolidayOn | Calendar/Shared/Services/Networking/HolidayService.swift:23-35 | a holiday found for a day is one of the stored records and falls on that calendar day; `Holidays.HolidayOnFirst` states that it is the first such record and that none is found only when no record falls on the day |
| Holidays.HolidayOnFirst | Calendar/Shared/Services/Networking/HolidayService.swift:23-35 | a holiday is found iff one is stored for that calendar day, and it is the first such |
| Holidays.YearCount | Calendar/Shared/Services/Networking/HolidayService.swift:47-52 | the count is 0 iff no stored holiday carries the year |
| Holidays.ImportedRecord | Calendar/Shared/Services/Networking/HolidayService.swift:63-72 | an entry yields a record iff its date parses and it has a holiday-flagged event; the record has that date, the year, and the first flagged event's label |
| Holidays.Imported | Calendar/Shared/Services/Networking/HolidayService.swift:61-75 | at most one record per entry, each with the requested year |
| Holidays.ImportedCount | Calendar/Shared/Services/Networking/HolidayService.swift:61-75 | the import adds exactly as many records as there are qualifying entries |
| Holidays.SecondPreloadSkips | Calendar/Shared/Services/Networking/HolidayService.swift:37-52 | once a preload stored a record for the year, the year is no longer missing and a second preload changes nothing |
| Holidays.ChristmasEntries | Calendar/Shared/Services/Networking/HolidayService.swift:62-71 | "2025-12-25" with a flagged event yields Juledag; a misdated entry and an unflagged one yield nothing |
| Holidays.ChristmasDate | Calendar/Shared/Models/Enums/APIDate.swift:11-17 | "2025-12-25" parses to midnight of 25 December 2025 |
| Holidays.ChristmasImported | Calendar/Shared/Services/Networking/HolidayService.swift:62-71 | a well-dated entry with a holiday-flagged event yields its date and label |
| Holidays.MisdatedNotImported | Calendar/Shared/Services/Networking/HolidayService.swift:63 | an entry dated "25-12-2025" yields nothing |
| Holidays.EveNotImported | Calendar/Shared/Services/Networking/HolidayService.swift:64 | an entry without a holiday-flagged event yields nothing |
| Holidays.PreloadChristmas | Calendar/Shared/Services/Networking/HolidayService.swift:37-75 | preloading a missing 2025 from those three entries adds exactly the Juledag record |
| Holidays.HolidayService.constructor | Calendar/Shared/Services/Networking/HolidayService.swift:18-21 | the service uses the given context and has made no requests |
| Holidays.HolidayService.Info | Calendar/Shared/Services/Networking/HolidayService.swift:23-35 | the first stored holiday dated within the day |
| Holidays.HolidayService.IsMissing | Calendar/Shared/Services/Networking/HolidayService.swift:47-52 | missing iff no stored holiday carries the year |
| Holidays.HolidayService.ImportIntoStore | Calendar/Shared/Services/Networking/HolidayService.swift:61-75 | the store gains exactly the imported records, in entry order |
| Holidays.ImportedPrefix | Calendar/Shared/Services/Networking/HolidayService.swift:61-71 | one more day entry adds exactly the record it yields, if any |
| Holidays.NothingImported | Calendar/Shared/Services/Networking/HolidayService.swift:61-73 | the import of a year's response adds no record exactly when no entry has a parseable date and a holiday event |
| Holidays.AfterPreload | Calendar/Shared/Services/Networking/HolidayService.swift:37-45 | the store after `preload` keeps the old records as its prefix, every record it adds carries the requested year, and a year already present leaves the store as it was |
| Holidays.HolidayService.Preload | Calendar/Shared/Services/Networking/HolidayService.swift:37-75 | a request is made iff the year is missing; for a year that fits `Int16` the store becomes `Holidays.AfterPreload` of the old one (the decoded entries imported, nothing imported after a failed request); a year outside `Int16` is accepted whenever nothing would be imported, and then leaves the store unchanged |
| DayInfo.Split | Calendar/DayInfoService.swift:69 | the pieces are non-empty, free of the separator, and together hold every other character in order |
| DayInfo.SplitAtSeparator | Calendar/DayInfoService.swift:69 | splitting at one separator splits each side independently |
| DayInfo.SplitPiece | Calendar/DayInfoService.swift:69 | a non-empty string without the separator is one piece |
| DayInfo.SplitPair | Calendar/DayInfoService.swift:68-69 | two separator-free pieces joined by one separator split back into exactly those two pieces |
| DayInfo.SplitPlain | Calendar/DayInfoService.swift:68-69 | "5-9" splits into "5" and "9" |
| DayInfo.SplitNegative | Calendar/DayInfoService.swift:68-69 | "-3-2" splits into "3" and "2": the empty piece before the leading '-' is dropped |
| DayInfo.SplitNoSeparator | Calendar/DayInfoService.swift:68-69 | "7.0 °C" has no '-' and is one piece |
| DayInfo.CommaToPoint | Calendar/DayInfoService.swift:71 | every comma becomes a point and every other character is kept |
| DayInfo.ParseDouble | Calendar/DayInfoService.swift:71-72 | `Double(_:)` on the forms the feed sends: only non-empty text made of digits, signs and points can parse; `DayInfo.ParseDecimal`, `DayInfo.ParseInteger` and `DayInfo.ParsedShape` state exactly which texts parse and to what |
| DayInfo.ReadUnsigned | Calendar/DayInfoService.swift:71-72 | an unsigned decimal reads only from non-empty text of digits and points; `DayInfo.UnsignedShape` gives the single-point shape |
| DayInfo.ReadDecimal | Calendar/DayInfoService.swift:71-72 | digits, a point and digits (one side may be empty, not both) read as the whole part plus the fraction over its power of ten |
| DayInfo.ReadWhole | Calendar/DayInfoService.swift:71-72 | a non-empty run of digits reads as its decimal value |
| DayInfo.SignedRead | Calendar/DayInfoService.swift:71-72 | an optional `+` or `-` before a readable unsigned body parses to the body's value, negated for `-` |
| DayInfo.ParseDecimal | Calendar/DayInfoService.swift:71-72 | every `sign w.f` with digit runs `w`, `f` not both empty parses to the signed value of `w` plus `f` over its power of ten |
| DayInfo.ParseInteger | Calendar/DayInfoService.swift:71-72 | every `sign w` with a non-empty digit run `w` parses to its signed decimal value |
| DayInfo.UnsignedShape | Calendar/DayInfoService.swift:71-72 | an unsigned body that reads is either digits, a point and digits, or digits alone |
| DayInfo.ParsedShape | Calendar/DayInfoService.swift:71-72 | conversely, every text that parses is `sign w.f` or `sign w` and parses to the value `DayInfo.ParseDecimal` or `DayInfo.ParseInteger` gives it |
| DayInfo.ParseDigits | Calendar/DayInfoService.swift:71-72 | a non-empty digit string reads back as its decimal value |
| DayInfo.ParseNegatedDigits | Calendar/DayInfoService.swift:71-72 | a minus sign before a non-empty digit string reads back as the negated value |
| DayInfo.ParseWholeUnsigned | Calendar/DayInfoService.swift:71-72 | a whole number written in decimal reads back as itself |
| DayInfo.ParseWholeNegated | Calendar/DayInfoService.swift:71-72 | a whole number written in decimal after a minus sign reads back as its negation |
| DayInfo.ParseWhole | Calendar/DayInfoService.swift:71-72 | whole numbers, with or without a minus sign, read back as themselves |
| DayInfo.SevenAndAHalf | Calendar/DayInfoService.swift:71 | "7.5" reads as 7.5 |
| DayInfo.SevenAndAHalfWithComma | Calendar/DayInfoService.swift:71 | "7,5" with its comma replaced reads as 7.5 |
| DayInfo.NineAndAHalfWithComma | Calendar/DayInfoService.swift:71-72 | "9,5" with its comma replaced reads as 9.5 |
| DayInfo.DecimalExamples | Calendar/DayInfoService.swift:72 | "9,5", "" and "." do not parse |
| DayInfo.ImportedDayInfo | Calendar/DayInfoService.swift:60-78 | a record is stored iff the date parses, with sunrise and sunset verbatim and the temperature range when one is found (0 otherwise) |
| DayInfo.Temperatures | Calendar/DayInfoService.swift:67-73 | the first `Temperatur` summary, split at `-`, gives the two temperatures only when it has exactly two pieces, each read as 0 when it does not parse; `DayInfo.TemperaturesOfPieces`, `DayInfo.NotARange` and `DayInfo.ImportedDayInfo` state its cases |
| DayInfo.TemperatureSpan | Calendar/DayInfoService.swift:67 | the first summary whose parameter is "Temperatur" is the one chosen |
| DayInfo.TemperaturesOfPieces | Calendar/DayInfoService.swift:67-73 | a two-piece value gives the minimum with commas read as points and the maximum as written |
| DayInfo.PlainRange | Calendar/DayInfoService.swift:67-73 | "5-9" gives 5 to 9 |
| DayInfo.CommaInMinimum | Calendar/DayInfoService.swift:67-73 | "7,5-9" gives 7.5 to 9 |
| DayInfo.NegativeMinimumLosesSign | Calendar/DayInfoService.swift:67-73 | "-3-2" gives 3 to 2: the minus sign is lost with the empty first piece |
| DayInfo.CommaInMaximum | Calendar/DayInfoService.swift:72 | "5-9,5" gives 5 to 0: the maximum keeps its comma and cannot be read |
| DayInfo.NotARange | Calendar/DayInfoService.swift:67-73 | "7.0 °C" is not a range: no temperatures are taken |
| DayInfo.TemperaturesReadingCommas | Calendar/DayInfoService.swift:67-73 | reading commas in both pieces finds a range exactly when the code does, with the same minimum, and changes only maxima the code reads as 0 |
| DayInfo.CommaInMaximumRead | Calendar/DayInfoService.swift:72 | with commas read in both pieces, "5-9,5" gives 5 to 9.5 |
| DayInfo.DayInfoService.constructor | Calendar/DayInfoService.swift:11-14 | the service uses the given context and has made no requests |
| DayInfo.DayInfoService.CachedItem | Calendar/DayInfoService.swift:38-48 | the first stored record dated within the day |
| DayInfo.DayInfoService.ImportIntoStore | Calendar/DayInfoService.swift:60-78 | the record `ImportedDayInfo` describes is returned and appended to the store; nothing is stored when the date does not parse |
| DayInfo.DayInfoService.Info | Calendar/DayInfoService.swift:18-35 | a cached day is answered from the store without a request; otherwise only today or an earlier instant is requested and its response imported; future days give nil |
| DayInfo.CachedDayWithoutRequest | Calendar/DayInfoService.swift:19-21 | a stored record is returned for its day and no request is made |
| DayInfo.FutureDateWithoutRequest | Calendar/DayInfoService.swift:24-26 | with nothing stored, a day three days ahead gives nil, makes no request and stores nothing |

## Findings

| source | as written | input that shows it | evidently intended | confidence | as-written member | corrected member |
|---|---|---|---|---|---|---|
| Calendar/ViewModel/EventViewModel.swift:38-61 | `addEvent` saves the new record but does not call `fetchEvents`, so `events` does not list it; `deleteAllEvents` (159-168) deletes only the records in `events` | an empty store, `addEvent(..., notificationsEnabled: true)`, then `deleteAllEvents()`: the record and its reminder survive | `addEvent` refetches as every other mutating operation (and the earlier view model) does, so that `deleteAllEvents` empties the store | high, not executed | EventEditor.AddThenDeleteAllAsWritten | EventEditor.AddThenDeleteAllRefreshing |
| Calendar/DayInfoService.swift:71-72 | commas are replaced by points in the minimum only; the maximum is read as written | the summary value "5-9,5": the maximum reads as 0 | both pieces read a decimal comma | medium, not executed | DayInfo.CommaInMaximum | DayInfo.CommaInMaximumRead |

## Left out

- The user interface (views, pickers, dialogs), except the grid computation and the title hyphenation.
- Core Data saves and their errors: a save is taken to succeed and is not a separate step. Fetch and count errors are not modelled either.
- Concurrency: `Task { … }`, `await`, and actor isolation, with calls run in program order. A reminder scheduled in a `Task` is logged right after the statement that starts it.
- Notification authorization, settings, the delegate and the platform notification centre. The centre is only the log of calls made on it.
- Networking: URLs, `URLSession` and JSON decoding. A response is the `remote` parameter, `None` when the request or decoding fails. The `dd-MM-yyyy` URL formatting of the day endpoint is not modelled.
- `UUID()` is the `newId` parameter. `Date()` is the `now` parameter, read once per call.
- Time zones and daylight saving time: one fixed calendar with 86400-second days. The API formatter's GMT time zone is taken to be that calendar, and `Calendar.firstWeekday` is a parameter.
- `DateFormatter` leniency and locale: the parser accepts exactly four-, two- and two-digit fields naming a real date.
- The `ddMMyyyy` formatter. It aliases the `yyyyMMdd` formatter object and would change its format, but nothing uses it.
- `Double(String)`: exponents, `inf`/`nan`, hexadecimal and binary floating-point rounding are not modelled. Values are exact reals.
- `HolidayItem.id` and `DayInfoItem`'s Core Data defaults: a temperature never assigned is taken to be 0.
- Fetch order among records with equal dates is left open. A fetch with `fetchLimit = 1` and no sort descriptor is taken to return the first record in insertion order.
- Holidays.HolidayService.Preload: requires the year to fit in `Int16` only when the year is missing, the response arrives and some entry passes the import guards. Only then is `Int16(year)` (HolidayService.swift:72) reached, and there it traps for a year outside that range. In every other case an out-of-range year leaves the store unchanged.
- Hyphenation.SoftHyphenated: requires the break index to be non-negative, because inserting at a negative index traps. That happens when `firstN` is negative, or when the string has fewer than three characters and `firstN` is below its length. The callers use the default 8, which never traps.
- Hyphenation.SoftHyphenated: one Dafny `char` stands for one Swift `Character`. Swift's `count` and `Array(self)` count grapheme clusters, and the model counts Unicode scalars. So the model is exact only for titles whose characters are single scalars. A title with emoji sequences or combining marks is broken at a different place, or is hyphenated where Swift leaves it unchanged. Grapheme segmentation is not modelled.
- DateUtils.Combine: the fallback to `day` when the calendar cannot build a date is not reachable in the model.
- LegacyEvents.LegacyEventViewModel.SplitEvent: the fallback for when the day before the occurrence cannot be computed is not reachable in the model.
- EventColors.DisplayNames: `String.capitalized` is modelled for ASCII text only (as are EventColors.CapitalizedWord and EventColors.LowerWordKept).
- Duplicate source copies are modelled once:
  - `Calendar/RepeatFrequency.swift` has the same enum and `occurs(on:)` as the `Shared` copies;
  - `Calendar/View/CalendarGridView.swift` has the same grid as the `MonthView` copy;
  - `Calendar/HolidayService.swift` has the same preload and import as the `Shared` copy;
  - `Calendar/APIDate.swift` and `Calendar/CalendarAPIModels.swift` match their `Shared` copies.
  - Of `Calendar/NotificationManager.swift`, only `schedule(localNotification:)` differs from the `Shared` manager, and only it is modelled separately.
- `LocalNotification` is represented by the request it is turned into.
- Members used only by tests or views (`calendarComponent`, `swiftUIColor`, `Date+Formatting`) are not part of this model.
