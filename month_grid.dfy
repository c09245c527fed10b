/** The month view's grid: six weeks of seven days around the displayed month
    (`CalendarGridView.allRows`), and the weeks that touch the month (`rows`). */
module MonthGrid {
  import opened Dates

  /** `calendar.dateInterval(of: .month, for: displayedMonth).start`. */
  function MonthFirst(displayedMonth: Instant): (r: Instant)
    ensures TimeOfDay(r) == 0
  {
    StartOfCivil(Civil(Year(displayedMonth), Month(displayedMonth), 1))
  }

  /** `calendar.range(of: .day, in: .month, for: monthFirst).count`. */
  function MonthLength(displayedMonth: Instant): (r: int)
    ensures 28 <= r <= 31
  {
    DaysInMonth(Year(displayedMonth), Month(displayedMonth))
  }

  /** Days to step back from `first` to reach a `firstWeekday`. */
  function DaysBackTo(first: Instant, firstWeekday: int): (r: int)
    requires 1 <= firstWeekday <= 7
    ensures 0 <= r <= 6
    ensures Weekday(AddDays(first, -r)) == firstWeekday
  {
    var w := Weekday(first);
    var r := (w - firstWeekday + 7) % 7;
    WeekdayAfter(first, -r);
    assert (w - 1 - r) % 7 + 1 == firstWeekday by {
      if w - firstWeekday + 7 >= 7 {
        assert r == w - firstWeekday;
      } else {
        assert r == w - firstWeekday + 7;
      }
    }
    r
  }

  /** `leading`: days shown before the 1st, so that each week starts on `firstWeekday`. */
  function Leading(displayedMonth: Instant, firstWeekday: int): int
    requires 1 <= firstWeekday <= 7
  {
    DaysBackTo(MonthFirst(displayedMonth), firstWeekday)
  }

  /** The i-th cell of the grid, counted row by row from the top left. */
  function GridDay(displayedMonth: Instant, firstWeekday: int, i: int): Instant
    requires 1 <= firstWeekday <= 7
  {
    AddDays(MonthFirst(displayedMonth), i - Leading(displayedMonth, firstWeekday))
  }

  /** `allRows`: the three loops collect the tail of the previous month, the month itself and
      the head of the next month, into 42 consecutive days; then they are cut into weeks. */
  method AllRows(displayedMonth: Instant, firstWeekday: int) returns (rows: seq<seq<Instant>>)
    requires 1 <= firstWeekday <= 7
    ensures |rows| == 6
    ensures forall r :: 0 <= r < 6 ==> |rows[r]| == 7
    ensures forall r, c :: 0 <= r < 6 && 0 <= c < 7 ==> rows[r][c] == GridDay(displayedMonth, firstWeekday, 7 * r + c)
  {
    var monthFirst := MonthFirst(displayedMonth);
    var leading := Leading(displayedMonth, firstWeekday);
    var dates: seq<Instant> := [];
    var i := -leading;
    while i < 0
      invariant -leading <= i <= 0 && |dates| == i + leading
      invariant forall k :: 0 <= k < |dates| ==> dates[k] == AddDays(monthFirst, k - leading)
    {
      dates := dates + [AddDays(monthFirst, i)];
      i := i + 1;
    }
    var monthCount := MonthLength(displayedMonth);
    i := 0;
    while i < monthCount
      invariant 0 <= i <= monthCount && |dates| == leading + i
      invariant forall k :: 0 <= k < |dates| ==> dates[k] == AddDays(monthFirst, k - leading)
    {
      dates := dates + [AddDays(monthFirst, i)];
      i := i + 1;
    }
    var toFill := 6 * 7 - |dates|;
    assert toFill >= 5;
    var last := dates[|dates| - 1];
    i := 1;
    while i <= toFill
      invariant 1 <= i <= toFill + 1 && |dates| == leading + monthCount + i - 1
      invariant forall k :: 0 <= k < |dates| ==> dates[k] == AddDays(monthFirst, k - leading)
    {
      dates := dates + [AddDays(last, i)];
      i := i + 1;
    }
    rows := Weeks(dates);
  }

  /** `stride(from: 0, to: n, by: 7).map { dates[$0 ..< min($0 + 7, n)] }`. */
  function Weeks<T>(s: seq<T>): (r: seq<seq<T>>)
    decreases |s|
    ensures |r| == (|s| + 6) / 7
    ensures forall k :: 0 <= k < |r| ==> r[k] == s[7 * k .. if 7 * k + 7 <= |s| then 7 * k + 7 else |s|]
  {
    if |s| == 0 then []
    else if |s| <= 7 then [s]
    else
      var rest := Weeks(s[7..]);
      WeeksStep(s, rest);
      [s[..7]] + rest
  }

  /** The first week followed by the weeks of the rest are the weeks of the whole. */
  lemma WeeksStep<T>(s: seq<T>, rest: seq<seq<T>>)
    requires |s| > 7 && |rest| == (|s| - 1) / 7
    requires forall k :: 0 <= k < |rest| ==> rest[k] == s[7..][7 * k .. if 7 * k + 7 <= |s| - 7 then 7 * k + 7 else |s| - 7]
    ensures forall k :: 0 <= k < 1 + |rest| ==>
              ([s[..7]] + rest)[k] == s[7 * k .. if 7 * k + 7 <= |s| then 7 * k + 7 else |s|]
  {
    forall k | 0 <= k < 1 + |rest|
      ensures ([s[..7]] + rest)[k] == s[7 * k .. if 7 * k + 7 <= |s| then 7 * k + 7 else |s|]
    {
      if k > 0 {
        assert ([s[..7]] + rest)[k] == rest[k - 1];
      }
    }
  }

  /** The week contains a day of the displayed month. */
  predicate TouchesMonth(week: seq<Instant>, displayedMonth: Instant) {
    exists j :: 0 <= j < |week| && SameMonth(week[j], displayedMonth)
  }

  /** `allRows.filter { ... }`, keeping the order. */
  function RowsOfMonth(weeks: seq<seq<Instant>>, displayedMonth: Instant): seq<seq<Instant>> {
    if weeks == [] then []
    else if TouchesMonth(weeks[0], displayedMonth) then [weeks[0]] + RowsOfMonth(weeks[1..], displayedMonth)
    else RowsOfMonth(weeks[1..], displayedMonth)
  }

  /** The filter keeps exactly the weeks that touch the month, and no more rows than it got. */
  lemma {:induction false} RowsOfMonthFilters(weeks: seq<seq<Instant>>, displayedMonth: Instant)
    ensures |RowsOfMonth(weeks, displayedMonth)| <= |weeks|
    ensures forall w :: w in RowsOfMonth(weeks, displayedMonth) <==>
                        w in weeks && TouchesMonth(w, displayedMonth)
  {
    if weeks != [] {
      RowsOfMonthFilters(weeks[1..], displayedMonth);
      assert weeks == [weeks[0]] + weeks[1..];
    }
  }

  /** `rows`: only the weeks that contain a day of the displayed month. */
  method Rows(displayedMonth: Instant, firstWeekday: int) returns (kept: seq<seq<Instant>>)
    requires 1 <= firstWeekday <= 7
    ensures var n := (Leading(displayedMonth, firstWeekday) + MonthLength(displayedMonth) + 6) / 7;
            4 <= n <= 6 && |kept| == n &&
            forall r, c :: 0 <= r < n && 0 <= c < 7 ==>
              |kept[r]| == 7 && kept[r][c] == GridDay(displayedMonth, firstWeekday, 7 * r + c)
  {
    var all := AllRows(displayedMonth, firstWeekday);
    var n := (Leading(displayedMonth, firstWeekday) + MonthLength(displayedMonth) + 6) / 7;
    forall r | 0 <= r < 6
      ensures TouchesMonth(all[r], displayedMonth) <==> r < n
    {
      WeekTouchesMonth(displayedMonth, firstWeekday, r, all[r]);
    }
    RowsOfMonthPrefix(all, displayedMonth, n);
    kept := RowsOfMonth(all, displayedMonth);
  }

  // ---------------------------------------------------------------------
  // Properties of the grid

  /** Cell `i` lies in the displayed month exactly when it is one of the month's cells;
      those cells are the 1st, 2nd, ... in order. */
  lemma GridDayInMonth(displayedMonth: Instant, firstWeekday: int, i: int)
    requires 1 <= firstWeekday <= 7
    ensures var l := Leading(displayedMonth, firstWeekday);
            SameMonth(GridDay(displayedMonth, firstWeekday, i), displayedMonth) <==> l <= i < l + MonthLength(displayedMonth)
    ensures var l := Leading(displayedMonth, firstWeekday);
            l <= i < l + MonthLength(displayedMonth) ==> DayOfMonth(GridDay(displayedMonth, firstWeekday, i)) == i - l + 1
  {
    var l := Leading(displayedMonth, firstWeekday);
    var y, m := Year(displayedMonth), Month(displayedMonth);
    var g := GridDay(displayedMonth, firstWeekday, i);
    assert DayOf(g) == DaysFromCivil(Civil(y, m, 1)) + i - l;
    DayNumberInMonth(y, m, DayOf(g));
  }

  /** Column `c` always shows the same weekday, starting with `firstWeekday`. */
  lemma GridColumnWeekday(displayedMonth: Instant, firstWeekday: int, r: int, c: int)
    requires 1 <= firstWeekday <= 7 && 0 <= c < 7
    ensures Weekday(GridDay(displayedMonth, firstWeekday, 7 * r + c)) == (firstWeekday - 1 + c) % 7 + 1
  {
    var first := MonthFirst(displayedMonth);
    var l := DaysBackTo(first, firstWeekday);
    assert GridDay(displayedMonth, firstWeekday, 7 * r + c) == AddDays(first, 7 * r + c - l);
    ColumnWeekday(first, l, firstWeekday, r, c);
  }

  lemma ColumnWeekday(first: Instant, l: int, firstWeekday: int, r: int, c: int)
    requires 1 <= firstWeekday <= 7 && 0 <= c < 7
    requires Weekday(AddDays(first, -l)) == firstWeekday
    ensures Weekday(AddDays(first, 7 * r + c - l)) == (firstWeekday - 1 + c) % 7 + 1
  {
    var origin := AddDays(first, -l);
    assert AddDays(first, 7 * r + c - l) == AddDays(origin, 7 * r + c);
    WeekdayAfter(origin, 7 * r + c);
    WholeWeeksLater(firstWeekday - 1 + c, r);
  }

  lemma WholeWeeksLater(k: int, r: int)
    ensures (k + 7 * r) % 7 == k % 7
  {
    var q := k / 7;
    assert k == 7 * q + k % 7;
    assert k + 7 * r == 7 * (q + r) + k % 7;
  }

  /** Every day of the displayed month has a cell in the first `4..6` weeks. */
  lemma EveryDayOfMonthShown(displayedMonth: Instant, firstWeekday: int, day: int)
    requires 1 <= firstWeekday <= 7 && 1 <= day <= MonthLength(displayedMonth)
    ensures var i := Leading(displayedMonth, firstWeekday) + day - 1;
            0 <= i < 42 && i / 7 < (Leading(displayedMonth, firstWeekday) + MonthLength(displayedMonth) + 6) / 7 &&
            DayOfMonth(GridDay(displayedMonth, firstWeekday, i)) == day &&
            SameMonth(GridDay(displayedMonth, firstWeekday, i), displayedMonth)
  {
    GridDayInMonth(displayedMonth, firstWeekday, Leading(displayedMonth, firstWeekday) + day - 1);
  }

  /** Week `r` touches the month exactly when it starts before the month's last cell ends. */
  lemma WeekTouchesMonth(displayedMonth: Instant, firstWeekday: int, r: int, week: seq<Instant>)
    requires 1 <= firstWeekday <= 7 && 0 <= r
    requires |week| == 7 && forall c :: 0 <= c < 7 ==> week[c] == GridDay(displayedMonth, firstWeekday, 7 * r + c)
    ensures TouchesMonth(week, displayedMonth) <==> 7 * r < Leading(displayedMonth, firstWeekday) + MonthLength(displayedMonth)
  {
    var l, n := Leading(displayedMonth, firstWeekday), MonthLength(displayedMonth);
    forall c | 0 <= c < 7
      ensures SameMonth(week[c], displayedMonth) <==> l <= 7 * r + c < l + n
    {
      GridDayInMonth(displayedMonth, firstWeekday, 7 * r + c);
    }
    WindowMeetsWeek(week, displayedMonth, 7 * r, l, l + n);
  }

  /** A week of cells `base..base+6` meets the run of cells `lo..hi-1` (with `lo < base + 7`)
      exactly when it starts before `hi`. */
  lemma WindowMeetsWeek(week: seq<Instant>, displayedMonth: Instant, base: int, lo: int, hi: int)
    requires |week| == 7 && 0 <= lo <= 6 && lo < hi && 0 <= base
    requires forall c :: 0 <= c < 7 ==> (SameMonth(week[c], displayedMonth) <==> lo <= base + c < hi)
    ensures TouchesMonth(week, displayedMonth) <==> base < hi
  {
    if base < hi {
      var j := if base < lo then lo - base else 0;
      assert SameMonth(week[j], displayedMonth);
    }
  }

  /** Filtering weeks whose test holds on a prefix and fails after it keeps the prefix. */
  lemma {:induction false} RowsOfMonthPrefix(weeks: seq<seq<Instant>>, displayedMonth: Instant, n: int)
    requires 0 <= n <= |weeks|
    requires forall r :: 0 <= r < |weeks| ==> (TouchesMonth(weeks[r], displayedMonth) <==> r < n)
    ensures RowsOfMonth(weeks, displayedMonth) == weeks[..n]
  {
    if weeks != [] {
      RowsOfMonthPrefix(weeks[1..], displayedMonth, if n > 0 then n - 1 else 0);
      if n > 0 {
        assert weeks[..n] == [weeks[0]] + weeks[1..][..n - 1];
      }
    }
  }
}
