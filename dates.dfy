/** Time in the model: one fixed, DST-free local calendar.

    An instant is a whole number of seconds since 1970-01-01 00:00 local time;
    a day number counts days since that date. Civil dates follow the proleptic
    Gregorian calendar, converted with the era/year-of-era scheme (eras of
    400 years, 146097 days, starting on 1 March). Weekdays are numbered 1..7
    with 1 = Sunday, as Foundation's `Calendar.component(.weekday, ...)` does. */
module Dates {

  type Instant = int
  type DayNumber = int

  const SecondsPerDay: int := 86400

  /** The day an instant falls on (floor division: also right before 1970). */
  function DayOf(t: Instant): DayNumber {
    t / SecondsPerDay
  }

  /** Seconds since the start of the instant's day. */
  function TimeOfDay(t: Instant): (r: int)
    ensures 0 <= r < SecondsPerDay
  {
    t % SecondsPerDay
  }

  /** `calendar.startOfDay(for:)`. */
  function StartOfDay(t: Instant): (r: Instant)
    ensures DayOf(r) == DayOf(t) && TimeOfDay(r) == 0 && r <= t < r + SecondsPerDay
  {
    DayOf(t) * SecondsPerDay
  }

  /** The instant `tod` seconds into day `d`. */
  function AtTimeOfDay(d: DayNumber, tod: int): (r: Instant)
    requires 0 <= tod < SecondsPerDay
    ensures DayOf(r) == d && TimeOfDay(r) == tod
  {
    d * SecondsPerDay + tod
  }

  /** `calendar.date(byAdding: .day, value: n, to: t)`: same clock time, n days later. */
  function AddDays(t: Instant, n: int): (r: Instant)
    ensures DayOf(r) == DayOf(t) + n && TimeOfDay(r) == TimeOfDay(t)
  {
    t + n * SecondsPerDay
  }

  /** `calendar.isDate(a, inSameDayAs: b)`. */
  predicate SameDay(a: Instant, b: Instant) {
    DayOf(a) == DayOf(b)
  }

  /** Foundation's `ComparisonResult`. */
  datatype ComparisonResult = OrderedAscending | OrderedSame | OrderedDescending

  /** `calendar.compare(a, to: b, toGranularity: .day)`. */
  function CompareByDay(a: Instant, b: Instant): (r: ComparisonResult)
    ensures r == OrderedAscending <==> DayOf(a) < DayOf(b)
    ensures r == OrderedSame <==> DayOf(a) == DayOf(b)
    ensures r == OrderedDescending <==> DayOf(a) > DayOf(b)
  {
    if DayOf(a) < DayOf(b) then OrderedAscending
    else if DayOf(a) == DayOf(b) then OrderedSame
    else OrderedDescending
  }

  // ---------------------------------------------------------------------
  // Clock components

  function Hour(t: Instant): (r: int)
    ensures 0 <= r < 24
  {
    TimeOfDay(t) / 3600
  }

  function Minute(t: Instant): (r: int)
    ensures 0 <= r < 60
  {
    TimeOfDay(t) % 3600 / 60
  }

  function Second(t: Instant): (r: int)
    ensures 0 <= r < 60
  {
    TimeOfDay(t) % 60
  }

  /** The time of day is determined by hour, minute and second, and back. */
  lemma ClockDeterminesTimeOfDay(a: Instant, b: Instant)
    ensures TimeOfDay(a) == Hour(a) * 3600 + Minute(a) * 60 + Second(a)
    ensures (Hour(a) == Hour(b) && Minute(a) == Minute(b) && Second(a) == Second(b))
            <==> TimeOfDay(a) == TimeOfDay(b)
  {
  }

  /** `calendar.date(bySettingHour: h, minute: m, second: s, of: day)` with the clock of `clock`. */
  function SettingClock(day: Instant, clock: Instant): (r: Instant)
    ensures DayOf(r) == DayOf(day) && TimeOfDay(r) == TimeOfDay(clock)
  {
    ClockDeterminesTimeOfDay(clock, clock);
    StartOfDay(day) + Hour(clock) * 3600 + Minute(clock) * 60 + Second(clock)
  }

  // ---------------------------------------------------------------------
  // Weekday

  /** `calendar.component(.weekday, from: t)`: 1 = Sunday ... 7 = Saturday. */
  function Weekday(t: Instant): (r: int)
    ensures 1 <= r <= 7
  {
    (DayOf(t) + 4) % 7 + 1
  }

  /** Moving `n` days on moves the weekday `n` places round the week. */
  lemma WeekdayAfter(t: Instant, n: int)
    ensures Weekday(AddDays(t, n)) == (Weekday(t) - 1 + n) % 7 + 1
  {
    var x := DayOf(t) + 4;
    assert x == 7 * (x / 7) + x % 7;
    var w := x % 7 + n;
    assert w == 7 * (w / 7) + w % 7;
    assert x + n == 7 * (x / 7 + w / 7) + w % 7;
  }

  /** Two instants share a weekday exactly when their days are a whole number of weeks apart. */
  lemma {:induction false} WeekdayPeriodic(a: Instant, b: Instant)
    ensures Weekday(a) == Weekday(b) <==> (DayOf(b) - DayOf(a)) % 7 == 0
  {
    var x, k := DayOf(a) + 4, DayOf(b) - DayOf(a);
    assert x == 7 * (x / 7) + x % 7;
    assert k == 7 * (k / 7) + k % 7;
    assert x + k == 7 * (x / 7 + k / 7) + (x % 7 + k % 7);
    if x % 7 + k % 7 < 7 {
      assert (x + k) % 7 == x % 7 + k % 7;
    } else {
      assert x + k == 7 * (x / 7 + k / 7 + 1) + (x % 7 + k % 7 - 7);
      assert (x + k) % 7 == x % 7 + k % 7 - 7;
    }
  }

  // ---------------------------------------------------------------------
  // Civil (year, month, day) dates

  datatype Civil = Civil(year: int, month: int, day: int)

  predicate IsLeapYear(y: int) {
    y % 4 == 0 && (y % 100 != 0 || y % 400 == 0)
  }

  function DaysInMonth(y: int, m: int): (r: int)
    requires 1 <= m <= 12
    ensures 28 <= r <= 31
    ensures r == 31 <==> m in {1, 3, 5, 7, 8, 10, 12}
    ensures m == 2 ==> (r == 29 <==> IsLeapYear(y))
  {
    if m == 2 then (if IsLeapYear(y) then 29 else 28)
    else if m in {4, 6, 9, 11} then 30
    else 31
  }

  predicate ValidCivil(c: Civil) {
    1 <= c.month <= 12 && 1 <= c.day <= DaysInMonth(c.year, c.month)
  }

  /** Days from 0000-03-01 (an era start) to 1970-01-01. */
  const EpochShift: int := 719468

  /** Year of era (0..399) of a day of era (0..146096); years of era start on 1 March. */
  function YearOfEra(doe: int): int
    requires 0 <= doe <= 146096
  {
    (doe - doe / 1460 + doe / 36524 - doe / 146096) / 365
  }

  /** Days of the era before 1 March of year of era `yoe`. */
  function DaysBeforeYearOfEra(yoe: int): int
    requires 0 <= yoe
  {
    365 * yoe + yoe / 4 - yoe / 100
  }

  /** A March-based year of era has 366 days when the February it ends with has 29. */
  predicate LongYearOfEra(yoe: int) {
    yoe % 4 == 3 && (yoe % 100 != 99 || yoe == 399)
  }

  lemma YearOfEraBounds(doe: int)
    requires 0 <= doe <= 146096
    ensures 0 <= YearOfEra(doe) <= 399
    ensures DaysBeforeYearOfEra(YearOfEra(doe)) <= doe
    ensures doe - DaysBeforeYearOfEra(YearOfEra(doe)) <= 364 + (if LongYearOfEra(YearOfEra(doe)) then 1 else 0)
  {
    var c := if doe / 36524 < 3 then doe / 36524 else 3;
    var q := (doe - 36524 * c) / 1461;
    var s := (doe - 36524 * c) % 1461;
    var y := if s / 365 < 3 then s / 365 else 3;
    var yoe := 100 * c + 4 * q + y;
    YearOfEraOfParts(doe, c, q, s);
    assert yoe / 4 == 25 * c + q;
    assert yoe / 100 == c;
    assert DaysBeforeYearOfEra(yoe) == 36524 * c + 1461 * q + 365 * y;
  }

  /** A day of era is `s` days into the four-year block `q` of century `c`. */
  lemma YearOfEraOfParts(doe: int, c: int, q: int, s: int)
    requires 0 <= doe <= 146096 && c == (if doe / 36524 < 3 then doe / 36524 else 3)
    requires q == (doe - 36524 * c) / 1461 && s == (doe - 36524 * c) % 1461
    ensures doe == 36524 * c + 1461 * q + s
    ensures YearOfEra(doe) == 100 * c + 4 * q + (if s / 365 < 3 then s / 365 else 3)
  {
    assert doe == 36524 * c + 1461 * q + s;
    if doe != 146096 {
      assert doe / 146096 == 0;
      assert doe / 36524 == c;
      assert doe / 1460 == 25 * c + q + (24 * c + q + s) / 1460;
    }
  }

  /** Successive years of era are 365 or 366 days apart. */
  lemma DaysBeforeNextYearOfEra(yoe: int)
    requires 0 <= yoe <= 398
    ensures DaysBeforeYearOfEra(yoe + 1) == DaysBeforeYearOfEra(yoe) + 365 + (if LongYearOfEra(yoe) then 1 else 0)
  {
    assert (yoe + 1) / 4 == yoe / 4 + (if yoe % 4 == 3 then 1 else 0);
    assert (yoe + 1) / 100 == yoe / 100 + (if yoe % 100 == 99 then 1 else 0);
    assert yoe % 100 == 99 ==> yoe % 4 == 3;
  }

  /** Later years of era start at least one whole year later. */
  lemma DaysBeforeOrder(a: int, b: int)
    requires 0 <= a <= 399 && 0 <= b <= 399
    ensures a < b ==> DaysBeforeYearOfEra(a) + 365 + (if LongYearOfEra(a) then 1 else 0) <= DaysBeforeYearOfEra(b)
  {
    if a < b {
      DaysBeforeNextYearOfEra(a);
      assert b / 4 >= (a + 1) / 4;
      assert b / 100 - (a + 1) / 100 <= 3;
    }
  }

  /** `YearOfEra` picks the one year of era whose days contain `doe`. */
  lemma YearOfEraUnique(yoe: int, doe: int)
    requires 0 <= yoe <= 399
    requires DaysBeforeYearOfEra(yoe) <= doe <= DaysBeforeYearOfEra(yoe) + 364 + (if LongYearOfEra(yoe) then 1 else 0)
    ensures 0 <= doe <= 146096 && YearOfEra(doe) == yoe
  {
    assert DaysBeforeYearOfEra(399) == 145731;
    DaysBeforeOrder(yoe, 399);
    YearOfEraBounds(doe);
    var y := YearOfEra(doe);
    DaysBeforeOrder(y, yoe);
    DaysBeforeOrder(yoe, y);
  }

  /** Start, within a March-based year, of March-based month `mp` (0 = March ... 11 = February). */
  function MonthStartInYear(mp: int): int {
    (153 * mp + 2) / 5
  }

  function MonthOfDayOfYear(doy: int): int {
    (5 * doy + 2) / 153
  }

  /** Calendar month number (1..12) of March-based month `mp`, and back. */
  function MonthFromMarchBased(mp: int): int {
    if mp < 10 then mp + 3 else mp - 9
  }

  function MarchBasedFromMonth(m: int): int {
    if m > 2 then m - 3 else m + 9
  }

  /** The March-based month of a day of year, and the day's place in it. */
  lemma MonthOfDayOfYearBounds(doy: int, long: bool)
    requires 0 <= doy <= 364 + (if long then 1 else 0)
    ensures 0 <= MonthOfDayOfYear(doy) <= 11
    ensures MonthStartInYear(MonthOfDayOfYear(doy)) <= doy
    ensures doy - MonthStartInYear(MonthOfDayOfYear(doy)) + 1
            <= DaysInMonth(if long then 2000 else 2001, MonthFromMarchBased(MonthOfDayOfYear(doy)))
  {
  }

  /** A day inside month `mp` lies in that month. */
  lemma MonthOfDayOfYearExact(mp: int, d: int, long: bool)
    requires 0 <= mp <= 11
    requires 1 <= d <= DaysInMonth(if long then 2000 else 2001, MonthFromMarchBased(mp))
    ensures MonthOfDayOfYear(MonthStartInYear(mp) + d - 1) == mp
    ensures 0 <= MonthStartInYear(mp) + d - 1 <= 364 + (if long then 1 else 0)
  {
  }

  /** The civil date of a day number. */
  function CivilFromDays(d: DayNumber): (c: Civil)
    ensures ValidCivil(c)
  {
    var z := d + EpochShift;
    CivilInEra(z / 146097, z % 146097)
  }

  /** The civil date of day `doe` of era `era`. */
  function CivilInEra(era: int, doe: int): (c: Civil)
    requires 0 <= doe <= 146096
    ensures ValidCivil(c)
  {
    YearOfEraBounds(doe);
    var yoe := YearOfEra(doe);
    CivilInYearOfEra(era, yoe, doe - DaysBeforeYearOfEra(yoe))
  }

  /** The civil date of day `doy` (0 = 1 March) of year `yoe` of era `era`. */
  function CivilInYearOfEra(era: int, yoe: int, doy: int): (c: Civil)
    requires 0 <= yoe <= 399
    requires 0 <= doy <= 364 + (if LongYearOfEra(yoe) then 1 else 0)
    ensures ValidCivil(c)
  {
    MonthOfDayOfYearBounds(doy, LongYearOfEra(yoe));
    var mp := MonthOfDayOfYear(doy);
    var m := MonthFromMarchBased(mp);
    LeapYearOfEra(era, yoe);
    Civil(yoe + era * 400 + (if m <= 2 then 1 else 0), m, doy - MonthStartInYear(mp) + 1)
  }

  /** The calendar year ending a long year of era is a leap year, and only then. */
  lemma LeapYearOfEra(era: int, yoe: int)
    requires 0 <= yoe <= 399
    ensures IsLeapYear(era * 400 + yoe + 1) <==> LongYearOfEra(yoe)
  {
    var w := yoe + 1;
    ShiftByEras4(era, w);
    ShiftByEras100(era, w);
    ShiftByEras400(era, w);
    assert w % 4 == 0 <==> yoe % 4 == 3 by {
      assert w == 4 * (yoe / 4) + yoe % 4 + 1;
    }
    assert w % 100 == 0 <==> yoe % 100 == 99 by {
      assert w == 100 * (yoe / 100) + yoe % 100 + 1;
    }
    assert w % 400 == 0 <==> yoe == 399;
  }

  // Whole eras do not change a remainder modulo 4, 100 or 400.

  lemma ShiftByEras4(era: int, w: int)
    ensures (era * 400 + w) % 4 == w % 4
  {
    assert era * 400 + w == 4 * (100 * era + w / 4) + w % 4;
  }

  lemma ShiftByEras100(era: int, w: int)
    ensures (era * 400 + w) % 100 == w % 100
  {
    assert era * 400 + w == 100 * (4 * era + w / 100) + w % 100;
  }

  lemma ShiftByEras400(era: int, w: int)
    ensures (era * 400 + w) % 400 == w % 400
  {
    assert era * 400 + w == 400 * (era + w / 400) + w % 400;
  }

  /** The day number of a civil date (the inverse of `CivilFromDays` on valid dates). */
  function DaysFromCivil(c: Civil): DayNumber {
    var y := c.year - (if c.month <= 2 then 1 else 0);
    var era := y / 400;
    var yoe := y % 400;
    var doy := MonthStartInYear(MarchBasedFromMonth(c.month)) + c.day - 1;
    era * 146097 + DaysBeforeYearOfEra(yoe) + doy - EpochShift
  }

  lemma {:induction false} DaysFromCivilFromDays(d: DayNumber)
    ensures DaysFromCivil(CivilFromDays(d)) == d
  {
    var z := d + EpochShift;
    DaysFromCivilInEra(z / 146097, z % 146097);
  }

  lemma DaysFromCivilInEra(era: int, doe: int)
    requires 0 <= doe <= 146096
    ensures DaysFromCivil(CivilInEra(era, doe)) == era * 146097 + doe - EpochShift
  {
    YearOfEraBounds(doe);
    var yoe := YearOfEra(doe);
    var doy := doe - DaysBeforeYearOfEra(yoe);
    CivilInEraAt(era, doe, yoe, doy);
    DaysFromCivilInYearOfEra(era, yoe, doy);
  }

  lemma DaysFromCivilInYearOfEra(era: int, yoe: int, doy: int)
    requires 0 <= yoe <= 399
    requires 0 <= doy <= 364 + (if LongYearOfEra(yoe) then 1 else 0)
    ensures DaysFromCivil(CivilInYearOfEra(era, yoe, doy)) == era * 146097 + DaysBeforeYearOfEra(yoe) + doy - EpochShift
  {
    MonthOfDayOfYearBounds(doy, LongYearOfEra(yoe));
    var mp := MonthOfDayOfYear(doy);
    var c := CivilInYearOfEra(era, yoe, doy);
    var y := c.year - (if c.month <= 2 then 1 else 0);
    assert y == era * 400 + yoe;
    assert y / 400 == era && y % 400 == yoe by {
      assert y == 400 * era + yoe;
    }
    assert MarchBasedFromMonth(c.month) == mp;
  }

  lemma {:induction false} CivilFromDaysFromCivil(c: Civil)
    requires ValidCivil(c)
    ensures CivilFromDays(DaysFromCivil(c)) == c
  {
    var era, doe := DayOfEraOfCivil(c);
    CivilFromDaysInEra(DaysFromCivil(c), era, doe);
  }

  /** A valid civil date is day `doe` of era `era`, both for `DaysFromCivil` and for `CivilInEra`. */
  lemma DayOfEraOfCivil(c: Civil) returns (era: int, doe: int)
    requires ValidCivil(c)
    ensures 0 <= doe <= 146096 && DaysFromCivil(c) == era * 146097 + doe - EpochShift
    ensures CivilInEra(era, doe) == c
  {
    var y := c.year - (if c.month <= 2 then 1 else 0);
    var yoe, doy := y % 400, MonthStartInYear(MarchBasedFromMonth(c.month)) + c.day - 1;
    era := y / 400;
    EraPartsOfCivil(c, era, yoe, doy);
    doe := DaysBeforeYearOfEra(yoe) + doy;
    DaysFromCivilParts(c, era, yoe, doy);
  }

  /** A valid civil date is day `doy` of year of era `yoe` of era `era`. */
  lemma EraPartsOfCivil(c: Civil, era: int, yoe: int, doy: int)
    requires ValidCivil(c)
    requires var y := c.year - (if c.month <= 2 then 1 else 0);
             era == y / 400 && yoe == y % 400 && doy == MonthStartInYear(MarchBasedFromMonth(c.month)) + c.day - 1
    ensures 0 <= DaysBeforeYearOfEra(yoe) + doy <= 146096 && CivilInEra(era, DaysBeforeYearOfEra(yoe) + doy) == c
  {
    CivilInYearOfEraOfCivil(c);
    CivilInEraOfYear(era, yoe, doy);
  }

  lemma DaysFromCivilParts(c: Civil, era: int, yoe: int, doy: int)
    requires var y := c.year - (if c.month <= 2 then 1 else 0);
             era == y / 400 && yoe == y % 400 && doy == MonthStartInYear(MarchBasedFromMonth(c.month)) + c.day - 1
    ensures DaysFromCivil(c) == era * 146097 + (DaysBeforeYearOfEra(yoe) + doy) - EpochShift
  {
  }

  /** Day `doy` of year of era `yoe` is day `DaysBeforeYearOfEra(yoe) + doy` of the era. */
  lemma CivilInEraOfYear(era: int, yoe: int, doy: int)
    requires 0 <= yoe <= 399
    requires 0 <= doy <= 364 + (if LongYearOfEra(yoe) then 1 else 0)
    ensures 0 <= DaysBeforeYearOfEra(yoe) + doy <= 146096
    ensures CivilInEra(era, DaysBeforeYearOfEra(yoe) + doy) == CivilInYearOfEra(era, yoe, doy)
  {
    var doe := DaysBeforeYearOfEra(yoe) + doy;
    assert 0 <= doe <= 146096 && YearOfEra(doe) == yoe by {
      YearOfEraUnique(yoe, doe);
    }
    CivilInEraAt(era, doe, yoe, doy);
  }

  lemma CivilInEraAt(era: int, doe: int, yoe: int, doy: int)
    requires 0 <= doe <= 146096 && YearOfEra(doe) == yoe
    requires 0 <= yoe && doy == doe - DaysBeforeYearOfEra(yoe)
    ensures 0 <= yoe <= 399 && 0 <= doy <= 364 + (if LongYearOfEra(yoe) then 1 else 0)
    ensures CivilInEra(era, doe) == CivilInYearOfEra(era, yoe, doy)
  {
    YearOfEraBounds(doe);
  }

  /** The March-based decomposition of a valid civil date maps back to it. */
  lemma CivilInYearOfEraOfCivil(c: Civil)
    requires ValidCivil(c)
    ensures var y := c.year - (if c.month <= 2 then 1 else 0);
            var doy := MonthStartInYear(MarchBasedFromMonth(c.month)) + c.day - 1;
            && 0 <= doy <= 364 + (if LongYearOfEra(y % 400) then 1 else 0)
            && 0 <= y % 400 <= 399
            && CivilInYearOfEra(y / 400, y % 400, doy) == c
  {
    var y := c.year - (if c.month <= 2 then 1 else 0);
    var era, yoe := y / 400, y % 400;
    var mp := MarchBasedFromMonth(c.month);
    var long := LongYearOfEra(yoe);
    LeapYearOfEra(era, yoe);
    assert y == era * 400 + yoe;
    assert DaysInMonth(if long then 2000 else 2001, c.month) == DaysInMonth(c.year, c.month);
    MonthOfDayOfYearExact(mp, c.day, long);
  }

  /** A day number given by era and day of era converts through `CivilInEra`. */
  lemma CivilFromDaysInEra(d: DayNumber, era: int, doe: int)
    requires 0 <= doe <= 146096 && d == era * 146097 + doe - EpochShift
    ensures CivilFromDays(d) == CivilInEra(era, doe)
  {
    var z := d + EpochShift;
    assert z / 146097 == era && z % 146097 == doe;
  }

  /** Days of one month are consecutive day numbers. */
  lemma DaysFromCivilInMonth(y: int, m: int, d: int)
    ensures DaysFromCivil(Civil(y, m, d)) == DaysFromCivil(Civil(y, m, 1)) + d - 1
  {
  }

  /** Day number `d` falls in month `m` of year `y` exactly when it is one of that month's
      consecutive day numbers, and then it is day `d - f + 1` of it, `f` being the 1st. */
  lemma DayNumberInMonth(y: int, m: int, d: DayNumber)
    requires 1 <= m <= 12
    ensures var f := DaysFromCivil(Civil(y, m, 1));
            CivilFromDays(d).year == y && CivilFromDays(d).month == m <==> f <= d < f + DaysInMonth(y, m)
    ensures var f := DaysFromCivil(Civil(y, m, 1));
            f <= d < f + DaysInMonth(y, m) ==> CivilFromDays(d).day == d - f + 1
  {
    var f := DaysFromCivil(Civil(y, m, 1));
    if CivilFromDays(d).year == y && CivilFromDays(d).month == m {
      MonthOfDayNumber(y, m, d);
    }
    if f <= d < f + DaysInMonth(y, m) {
      DayNumberOfMonthDay(y, m, d);
    }
  }

  lemma MonthOfDayNumber(y: int, m: int, d: DayNumber)
    requires CivilFromDays(d).year == y && CivilFromDays(d).month == m
    ensures DaysFromCivil(Civil(y, m, 1)) <= d < DaysFromCivil(Civil(y, m, 1)) + DaysInMonth(y, m)
  {
    var c := CivilFromDays(d);
    DaysFromCivilFromDays(d);
    assert c == Civil(y, m, c.day);
    DaysFromCivilInMonth(y, m, c.day);
  }

  lemma DayNumberOfMonthDay(y: int, m: int, d: DayNumber)
    requires 1 <= m <= 12
    requires DaysFromCivil(Civil(y, m, 1)) <= d < DaysFromCivil(Civil(y, m, 1)) + DaysInMonth(y, m)
    ensures CivilFromDays(d) == Civil(y, m, d - DaysFromCivil(Civil(y, m, 1)) + 1)
  {
    var c := Civil(y, m, d - DaysFromCivil(Civil(y, m, 1)) + 1);
    DaysFromCivilInMonth(y, m, c.day);
    CivilOfDayNumberIff(d, c);
  }

  lemma CivilOfDayNumberIff(d: DayNumber, c: Civil)
    ensures CivilFromDays(d) == c <==> (ValidCivil(c) && DaysFromCivil(c) == d)
  {
    if CivilFromDays(d) == c {
      DaysFromCivilFromDays(d);
    }
    if ValidCivil(c) && DaysFromCivil(c) == d {
      CivilFromDaysFromCivil(c);
    }
  }

  // ---------------------------------------------------------------------
  // Civil components of an instant

  function CivilOf(t: Instant): Civil {
    CivilFromDays(DayOf(t))
  }

  /** `calendar.component(.year, from: t)`. */
  function Year(t: Instant): int {
    CivilOf(t).year
  }

  /** `calendar.component(.month, from: t)`. */
  function Month(t: Instant): (r: int)
    ensures 1 <= r <= 12
  {
    CivilOf(t).month
  }

  /** `calendar.component(.day, from: t)`. */
  function DayOfMonth(t: Instant): (r: int)
    ensures 1 <= r <= DaysInMonth(Year(t), Month(t))
  {
    CivilOf(t).day
  }

  /** Day 31 exists only in the seven 31-day months. */
  lemma DayThirtyOneMonths(t: Instant)
    ensures DayOfMonth(t) == 31 ==> Month(t) in {1, 3, 5, 7, 8, 10, 12}
  {
  }

  /** The instant at which a civil date starts. */
  function StartOfCivil(c: Civil): (r: Instant)
    ensures DayOf(r) == DaysFromCivil(c) && TimeOfDay(r) == 0
  {
    AtTimeOfDay(DaysFromCivil(c), 0)
  }

  /** `calendar.isDate(a, equalTo: b, toGranularity: .month)`. */
  predicate SameMonth(a: Instant, b: Instant) {
    Year(a) == Year(b) && Month(a) == Month(b)
  }
}
