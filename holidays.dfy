/** `HolidayService`: looks up stored public holidays and fills the store with one year of
    them from the calendar API, fetching a year at most once while it is stored. */
module Holidays {
  import opened Wrappers
  import opened Dates
  import opened Seqs
  import opened ApiDates
  import opened Store
  import Frequencies

  datatype EventDTO = EventDTO(danishShort: string, holliday: bool)
  datatype DayDTO = DayDTO(date: string, events: seq<EventDTO>)
  /** A decoded response of the year endpoint. */
  datatype YearResponse = YearResponse(days: seq<DayDTO>)

  /** The first stored holiday dated within `day`. */
  function HolidayOn(holidays: seq<HolidayItem>, day: Instant): (r: Option<HolidayItem>)
    ensures r.Some? ==> r.value in holidays && SameDay(r.value.date, day)
  {
    var r := FirstWhere(holidays, (h: HolidayItem) => OnDay(h.date, day));
    if r.Some? then OnDayIsSameDay(r.value.date, day); r else r
  }

  /** `HolidayOn` finds a holiday exactly when one is stored for that day, and returns the
      first such. */
  lemma HolidayOnFirst(holidays: seq<HolidayItem>, day: Instant)
    ensures HolidayOn(holidays, day).Some? <==>
              exists i :: 0 <= i < |holidays| && SameDay(holidays[i].date, day)
    ensures HolidayOn(holidays, day).Some? ==>
              exists i :: 0 <= i < |holidays| && holidays[i] == HolidayOn(holidays, day).value &&
                          SameDay(holidays[i].date, day) &&
                          forall j :: 0 <= j < i ==> !SameDay(holidays[j].date, day)
  {
    forall i | 0 <= i < |holidays| {
      OnDayIsSameDay(holidays[i].date, day);
    }
  }

  /** The number of stored holidays recorded for `year`: the `count(for:)` of `isMissing`. */
  function YearCount(holidays: seq<HolidayItem>, year: int): (r: nat)
    ensures r <= |holidays|
    ensures r == 0 <==> forall i :: 0 <= i < |holidays| ==> holidays[i].year as int != year
  {
    if holidays == [] then 0
    else
      assert forall i :: 0 < i < |holidays| ==> holidays[i] == holidays[1..][i - 1];
      (if holidays[0].year as int == year then 1 else 0) + YearCount(holidays[1..], year)
  }

  lemma {:induction false} YearCountAppend(a: seq<HolidayItem>, b: seq<HolidayItem>, year: int)
    ensures YearCount(a + b, year) == YearCount(a, year) + YearCount(b, year)
  {
    if a == [] {
      assert a + b == b;
    } else {
      assert (a + b)[1..] == a[1..] + b;
      YearCountAppend(a[1..], b, year);
    }
  }

  /** The record one day entry yields: its parsed date and the label of its first
      holiday-flagged event, when both exist. */
  function ImportedRecord(d: DayDTO, year: Frequencies.Int16): (r: Option<HolidayItem>)
    ensures r.Some? <==> ParseDate(d.date).Some? && exists i :: 0 <= i < |d.events| && d.events[i].holliday
    ensures r.Some? ==> r.value.date == ParseDate(d.date).value && r.value.year == year &&
                        exists i :: 0 <= i < |d.events| && d.events[i].holliday &&
                                    d.events[i].danishShort == r.value.title &&
                                    forall j :: 0 <= j < i ==> !d.events[j].holliday
  {
    var date := ParseDate(d.date);
    var ev := FirstWhere(d.events, (e: EventDTO) => e.holliday);
    if date.Some? && ev.Some? then Some(HolidayItem(date.value, ev.value.danishShort, year)) else None
  }

  function AsSeq<T>(o: Option<T>): seq<T> {
    if o.Some? then [o.value] else []
  }

  /** The records `importIntoCoreData(days:year:)` inserts, in order. */
  function Imported(days: seq<DayDTO>, year: Frequencies.Int16): (r: seq<HolidayItem>)
    ensures |r| <= |days|
    ensures forall i :: 0 <= i < |r| ==> r[i].year == year
  {
    if days == [] then []
    else Imported(days[..|days| - 1], year) + AsSeq(ImportedRecord(days[|days| - 1], year))
  }

  /** One more day entry adds exactly the record it yields, if any. */
  lemma ImportedPrefix(days: seq<DayDTO>, i: int, year: Frequencies.Int16)
    requires 0 <= i < |days|
    ensures Imported(days[..i + 1], year) == Imported(days[..i], year) + AsSeq(ImportedRecord(days[i], year))
  {
    assert days[..i + 1][..i] == days[..i];
  }

  lemma ImportedAppend(before: seq<HolidayItem>, days: seq<DayDTO>, i: int, year: Frequencies.Int16)
    requires 0 <= i < |days|
    ensures var r := ImportedRecord(days[i], year);
            before + Imported(days[..i + 1], year) ==
              (before + Imported(days[..i], year)) + (if r.Some? then [r.value] else [])
  {
    ImportedPrefix(days, i, year);
  }

  /** A day entry passes both guards of the import loop: its date parses and one of its
      events is flagged as a holiday. */
  predicate Qualifies(d: DayDTO) {
    ParseDate(d.date).Some? && exists i :: 0 <= i < |d.events| && d.events[i].holliday
  }

  /** The import adds nothing exactly when no entry passes the guards, whatever the year. */
  lemma {:induction false} NothingImported(days: seq<DayDTO>, year: Frequencies.Int16)
    ensures Imported(days, year) == [] <==> forall i :: 0 <= i < |days| ==> !Qualifies(days[i])
  {
    if days != [] {
      var init := days[..|days| - 1];
      NothingImported(init, year);
      forall i | 0 <= i < |init|
        ensures init[i] == days[i]
      {
      }
    }
  }

  /** The positions of the day entries that yield a record. */
  ghost function Qualifying(days: seq<DayDTO>, year: Frequencies.Int16, n: nat): set<nat>
    requires n <= |days|
  {
    set i: nat | i < n && ImportedRecord(days[i], year).Some?
  }

  lemma QualifyingStep(days: seq<DayDTO>, year: Frequencies.Int16, n: nat)
    requires 0 < n <= |days|
    ensures Qualifying(days, year, n) ==
              Qualifying(days, year, n - 1) + (if ImportedRecord(days[n - 1], year).Some? then {n - 1} else {})
  {
  }

  lemma ImportedStep(days: seq<DayDTO>, year: Frequencies.Int16, n: nat)
    requires 0 < n <= |days|
    ensures |Imported(days[..n], year)| ==
              |Imported(days[..n - 1], year)| + (if ImportedRecord(days[n - 1], year).Some? then 1 else 0)
  {
    assert days[..n][..n - 1] == days[..n - 1];
  }

  /** The store grows by exactly the number of qualifying day entries. */
  lemma {:induction false} ImportedCount(days: seq<DayDTO>, year: Frequencies.Int16, n: nat)
    requires n <= |days|
    ensures |Imported(days[..n], year)| == |Qualifying(days, year, n)|
  {
    if n == 0 {
      assert Qualifying(days, year, n) == {};
    } else {
      ImportedCount(days, year, n - 1);
      ImportedStep(days, year, n);
      QualifyingStep(days, year, n);
      assert n - 1 !in Qualifying(days, year, n - 1);
    }
  }

  /** The store after `preload(year:)`, where `remote` is the decoded response, or None when
      the fetch or the decoding fails. */
  function AfterPreload(holidays: seq<HolidayItem>, year: Frequencies.Int16, remote: Option<YearResponse>): (r: seq<HolidayItem>)
    ensures |holidays| <= |r| && r[..|holidays|] == holidays
    ensures forall i :: |holidays| <= i < |r| ==> r[i].year == year
    ensures YearCount(holidays, year as int) != 0 ==> r == holidays
  {
    if YearCount(holidays, year as int) != 0 || remote.None? then holidays
    else holidays + Imported(remote.value.days, year)
  }

  /** Once a preload has stored at least one record for the year, the year is no longer
      missing, so a second preload neither fetches nor changes the store. */
  lemma SecondPreloadSkips(holidays: seq<HolidayItem>, year: Frequencies.Int16, first: Option<YearResponse>, second: Option<YearResponse>)
    requires first.Some? && Imported(first.value.days, year) != []
    ensures YearCount(AfterPreload(holidays, year, first), year as int) != 0
    ensures AfterPreload(AfterPreload(holidays, year, first), year, second) == AfterPreload(holidays, year, first)
  {
    var after := AfterPreload(holidays, year, first);
    if YearCount(holidays, year as int) == 0 {
      var imported := Imported(first.value.days, year);
      YearCountAppend(holidays, imported, year as int);
      assert imported[0].year == year;
    }
  }

  const Christmas := DayDTO("2025-12-25", [EventDTO("Juledag", true)])
  const ChristmasMisdated := DayDTO("25-12-2025", [EventDTO("Juledag", true)])
  const ChristmasEve := DayDTO("2025-12-24", [EventDTO("Juleaften", false)])

  /** "2025-12-25" names midnight of 25 December 2025. */
  lemma ChristmasDate()
    ensures ParseDate("2025-12-25") == Some(StartOfCivil(Civil(2025, 12, 25)))
  {
    ParseFormat(Civil(2025, 12, 25));
    assert FormatDate(Civil(2025, 12, 25)) == "2025-12-25";
  }

  /** A well-dated entry with a holiday-flagged event yields that day and label. */
  lemma ChristmasImported()
    ensures ImportedRecord(Christmas, 2025) == Some(HolidayItem(StartOfCivil(Civil(2025, 12, 25)), "Juledag", 2025))
  {
    ChristmasDate();
    assert Christmas.events[0].holliday;
  }

  /** A date in another format yields nothing. */
  lemma MisdatedNotImported()
    ensures ImportedRecord(ChristmasMisdated, 2025).None?
  {
    assert !WellFormed("25-12-2025");
  }

  /** A day without a holiday-flagged event yields nothing. */
  lemma EveNotImported()
    ensures ImportedRecord(ChristmasEve, 2025).None?
  {
    assert !ChristmasEve.events[0].holliday && |ChristmasEve.events| == 1;
  }

  /** Of three entries, only the well-dated one with a holiday-flagged event yields a record. */
  lemma ChristmasEntries()
    ensures ImportedRecord(Christmas, 2025) == Some(HolidayItem(StartOfCivil(Civil(2025, 12, 25)), "Juledag", 2025))
    ensures ImportedRecord(ChristmasMisdated, 2025).None?
    ensures ImportedRecord(ChristmasEve, 2025).None?
  {
    ChristmasImported();
    MisdatedNotImported();
    EveNotImported();
  }

  /** A year with nothing recorded for it, and a response listing those three entries, gains
      exactly the Christmas record. */
  lemma PreloadChristmas(holidays: seq<HolidayItem>)
    requires YearCount(holidays, 2025) == 0
    ensures AfterPreload(holidays, 2025, Some(YearResponse([Christmas, ChristmasMisdated, ChristmasEve]))) ==
              holidays + [HolidayItem(StartOfCivil(Civil(2025, 12, 25)), "Juledag", 2025)]
  {
    var days := [Christmas, ChristmasMisdated, ChristmasEve];
    ChristmasEntries();
    ImportedPrefix(days, 0, 2025);
    ImportedPrefix(days, 1, 2025);
    ImportedPrefix(days, 2, 2025);
    assert days[..0] == [] && days[..3] == days;
  }

  class HolidayService {
    const ctx: ManagedContext
    /** Number of requests made to the year endpoint. */
    var fetches: nat

    constructor (ctx: ManagedContext)
      ensures this.ctx == ctx && fetches == 0
    {
      this.ctx := ctx;
      fetches := 0;
    }

    /** `info(for:)`: the first stored holiday of the day; no request is made. */
    method Info(day: Instant) returns (r: Option<HolidayItem>)
      ensures r == HolidayOn(ctx.holidays, day)
    {
      r := HolidayOn(ctx.holidays, day);
    }

    /** `isMissing(year:)`: no stored holiday carries the year. */
    function IsMissing(year: int): (r: bool)
      reads this, ctx
      ensures r <==> forall i :: 0 <= i < |ctx.holidays| ==> ctx.holidays[i].year as int != year
    {
      YearCount(ctx.holidays, year) == 0
    }

    /** `importIntoCoreData(days:year:)`: one record per day entry with a parsable date and a
        holiday-flagged event; other entries are skipped. */
    method ImportIntoStore(days: seq<DayDTO>, year: Frequencies.Int16)
      modifies ctx`holidays
      ensures ctx.holidays == old(ctx.holidays) + Imported(days, year)
    {
      var i := 0;
      while i < |days|
        invariant 0 <= i <= |days|
        invariant ctx.holidays == old(ctx.holidays) + Imported(days[..i], year)
      {
        var record := ImportedRecord(days[i], year);
        ImportedAppend(old(ctx.holidays), days, i, year);
        if record.Some? {
          ctx.holidays := ctx.holidays + [record.value];
        }
        i := i + 1;
      }
      assert days[..|days|] == days;
    }

    /** `preload(year:)`: fetches and imports the year only when it is missing; a failed fetch
        or decode imports nothing. */
    method Preload(year: int, remote: Option<YearResponse>)
      requires -0x8000 <= year < 0x8000 || YearCount(ctx.holidays, year) != 0 || remote.None? ||
               forall i :: 0 <= i < |remote.value.days| ==> !Qualifies(remote.value.days[i])
      modifies this`fetches, ctx`holidays
      ensures -0x8000 <= year < 0x8000 ==>
                ctx.holidays == AfterPreload(old(ctx.holidays), year as Frequencies.Int16, remote)
      ensures !(-0x8000 <= year < 0x8000) ==> ctx.holidays == old(ctx.holidays)
      ensures fetches == old(fetches) + (if YearCount(old(ctx.holidays), year) == 0 then 1 else 0)
    {
      var missing := IsMissing(year);
      if !missing {
        return;
      }
      fetches := fetches + 1;
      if remote.None? {
        return;
      }
      if !(-0x8000 <= year < 0x8000) {
        // Every entry fails the loop's guards, so `Int16(year)` is never reached and
        // nothing is inserted.
        return;
      }
      ImportIntoStore(remote.value.days, year as Frequencies.Int16);
    }
  }
}
