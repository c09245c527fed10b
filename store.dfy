/** The Core Data context the view models and services share: `EventItem` objects, whose
    attributes are assigned in place, and the cached `HolidayItem` / `DayInfoItem` rows. */
module Store {
  import opened Wrappers
  import opened Dates
  import opened EventItems
  import Frequencies

  /** An `EventItem` managed object. */
  class EventRecord {
    var id: Option<Uuid>
    var title: Option<string>
    var details: Option<string>
    var eventDate: Option<Instant>
    var endTime: Option<Instant>
    var colorRawValue: Option<string>
    var repeatFrequency: Frequencies.Int16
    var repeatEndDate: Option<Instant>
    var exceptionDates: Option<seq<Instant>>
    var notificationsEnabled: bool

    /** `EventItem(context:)`: optional attributes start nil, scalars at zero. */
    constructor ()
      ensures Value() == EventItem(None, None, None, None, None, None, 0, None, None, false)
    {
      id, title, details, eventDate, endTime := None, None, None, None, None;
      colorRawValue, repeatFrequency, repeatEndDate := None, 0, None;
      exceptionDates, notificationsEnabled := None, false;
    }

    /** The object's current attribute values. */
    function Value(): EventItem
      reads this
    {
      EventItem(id, title, details, eventDate, endTime, colorRawValue, repeatFrequency,
                repeatEndDate, exceptionDates, notificationsEnabled)
    }
  }

  /** A stored public holiday. */
  datatype HolidayItem = HolidayItem(date: Instant, title: string, year: Frequencies.Int16)

  /** Stored sunrise, sunset and temperatures for one day. */
  datatype DayInfoItem = DayInfoItem(date: Instant, sunrise: string, sunset: string, tempMin: real, tempMax: real)

  /** The fetch predicate `date >= startOfDay(day) AND date < startOfDay(day) + 1 day`. */
  predicate OnDay(date: Instant, day: Instant) {
    StartOfDay(day) <= date < AddDays(StartOfDay(day), 1)
  }

  /** The day window is exactly the calendar day. */
  lemma OnDayIsSameDay(date: Instant, day: Instant)
    ensures OnDay(date, day) <==> SameDay(date, day)
  {
    assert StartOfDay(day) == DayOf(day) * 86400;
    assert date == DayOf(date) * 86400 + TimeOfDay(date);
  }

  /** The sort order of `NSSortDescriptor(keyPath: \.eventDate, ascending: true)`; a missing
      date sorts first. */
  predicate DateAtMost(a: Option<Instant>, b: Option<Instant>) {
    a.None? || (b.Some? && a.value <= b.value)
  }

  /** Records listed without repetition, in ascending date order. */
  ghost predicate SortedByDate(s: seq<EventRecord>)
    reads s
  {
    forall i, j :: 0 <= i < j < |s| ==> DateAtMost(s[i].eventDate, s[j].eventDate)
  }

  ghost predicate Distinct<T>(s: seq<T>) {
    forall i, j :: 0 <= i < j < |s| ==> s[i] != s[j]
  }

  /** `s` is a fetch result for `objects`: each object once, ascending by date. */
  ghost predicate ListsByDate(s: seq<EventRecord>, objects: set<EventRecord>)
    reads s
  {
    Distinct(s) && Elements(s) == objects && SortedByDate(s)
  }

  /** The objects a list holds. */
  ghost function Elements(s: seq<EventRecord>): set<EventRecord> {
    set o | o in s
  }

  lemma ElementsOfPrefix(s: seq<EventRecord>, i: int)
    requires 0 <= i < |s|
    ensures Elements(s[..i + 1]) == Elements(s[..i]) + {s[i]}
  {
    assert s[..i + 1] == s[..i] + [s[i]];
  }

  /** A list holding no record is empty. */
  lemma ListsNothing(s: seq<EventRecord>)
    requires Elements(s) == {}
    ensures s == []
  {
    if s != [] {
      ListedAt(s, 0);
      assert false;
    }
  }

  lemma ListedAt(s: seq<EventRecord>, i: int)
    requires 0 <= i < |s|
    ensures s[i] in Elements(s)
  {
  }

  /** Listing a one-record store gives that record alone. */
  lemma ListsOne(s: seq<EventRecord>, o: EventRecord)
    requires ListsByDate(s, {o})
    ensures s == [o]
  {
    assert s != [] by { assert o in Elements(s); }
    ListedAt(s, 0);
    if |s| > 1 {
      ListedAt(s, 1);
      assert false;
    }
  }

  lemma ElementsInsert(s: seq<EventRecord>, o: EventRecord)
    ensures Elements(InsertByDate(s, o)) == Elements(s) + {o}
  {
    var r := InsertByDate(s, o);
    forall x | x in Elements(r)
      ensures x in Elements(s) + {o}
    {
      assert x in multiset(r);
    }
    forall x | x in Elements(s) + {o}
      ensures x in Elements(r)
    {
      if x != o {
        assert x in multiset(s);
      }
      assert x in multiset(r);
    }
  }

  /** Puts `o` after every record whose date is not later than its own. */
  function InsertByDate(s: seq<EventRecord>, o: EventRecord): (r: seq<EventRecord>)
    reads s, o
    ensures |r| == |s| + 1 && multiset(r) == multiset(s) + multiset{o}
  {
    if s == [] then [o]
    else if !DateAtMost(s[0].eventDate, o.eventDate) then [o] + s
    else
      var r := [s[0]] + InsertByDate(s[1..], o);
      assert s == [s[0]] + s[1..];
      r
  }

  lemma {:induction false} InsertByDateSorted(s: seq<EventRecord>, o: EventRecord)
    requires SortedByDate(s)
    ensures SortedByDate(InsertByDate(s, o))
  {
    if s != [] && DateAtMost(s[0].eventDate, o.eventDate) {
      InsertByDateSorted(s[1..], o);
      var r := InsertByDate(s, o);
      forall j | 0 < j < |r|
        ensures DateAtMost(r[0].eventDate, r[j].eventDate)
      {
        assert r[j] in multiset(s[1..]) + multiset{o};
        if r[j] in multiset(s[1..]) {
          var k :| 0 <= k < |s[1..]| && s[1..][k] == r[j];
          assert s[k + 1] == r[j];
        }
      }
    }
  }

  /** Distinct lists stay distinct when a new object is added. */
  lemma DistinctInsert(s: seq<EventRecord>, o: EventRecord)
    requires Distinct(s) && o !in s
    ensures Distinct(InsertByDate(s, o))
  {
    var r := InsertByDate(s, o);
    forall x
      ensures multiset(r)[x] <= 1
    {
      DistinctCountOne(s, x);
    }
    CountOneDistinct(r);
  }

  lemma CountOneDistinct<T>(s: seq<T>)
    requires forall x :: multiset(s)[x] <= 1
    ensures Distinct(s)
  {
    forall i, j | 0 <= i < j < |s|
      ensures s[i] != s[j]
    {
      if s[i] == s[j] {
        MultisetCountTwo(s, i, j);
      }
    }
  }

  lemma MultisetCountTwo<T>(s: seq<T>, i: int, j: int)
    requires 0 <= i < j < |s| && s[i] == s[j]
    ensures multiset(s)[s[i]] >= 2
  {
    assert s == s[..i] + [s[i]] + s[i + 1..j] + [s[j]] + s[j + 1..];
  }

  lemma {:induction false} DistinctCountOne<T>(s: seq<T>, x: T)
    requires Distinct(s)
    ensures multiset(s)[x] <= 1
  {
    if s != [] {
      assert s == [s[0]] + s[1..];
      DistinctCountOne(s[1..], x);
      if s[0] == x {
        assert x !in s[1..];
      }
    }
  }

  /** The context: the registered `EventItem` objects and the cached rows. */
  class ManagedContext {
    var events: set<EventRecord>
    var holidays: seq<HolidayItem>
    var dayInfos: seq<DayInfoItem>

    constructor ()
      ensures events == {} && holidays == [] && dayInfos == []
    {
      events, holidays, dayInfos := {}, [], [];
    }

    /** `context.fetch(EventItem.fetchRequest())` sorted ascending by `eventDate`. The order
        among records with equal dates is any order. */
    method FetchEventsByDate() returns (s: seq<EventRecord>)
      ensures ListsByDate(s, events)
    {
      var remaining := events;
      s := [];
      while remaining != {}
        invariant remaining !! Elements(s) && remaining + Elements(s) == events
        invariant Distinct(s) && SortedByDate(s)
        decreases remaining
      {
        var o :| o in remaining;
        InsertByDateSorted(s, o);
        DistinctInsert(s, o);
        ElementsInsert(s, o);
        s := InsertByDate(s, o);
        remaining := remaining - {o};
      }
    }
  }
}
