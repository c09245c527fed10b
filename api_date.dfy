/** `APIDate.yyyyMMdd`: the "yyyy-MM-dd" date strings of the calendar API, read as midnight
    of the named day. */
module ApiDates {
  import opened Wrappers
  import opened Dates

  predicate IsDigit(c: char) {
    '0' <= c <= '9'
  }

  predicate AllDigits(s: string) {
    forall i :: 0 <= i < |s| ==> IsDigit(s[i])
  }

  function Pow10(n: nat): (r: nat)
    ensures r >= 1
  {
    if n == 0 then 1 else 10 * Pow10(n - 1)
  }

  /** The number a string of decimal digits spells. */
  function DigitsValue(s: string): (r: nat)
    requires AllDigits(s)
    ensures r < Pow10(|s|)
  {
    if s == [] then 0
    else DigitsValue(s[..|s| - 1]) * 10 + (s[|s| - 1] as int - '0' as int)
  }

  /** `n` written with exactly `width` digits: leading zeros, higher digits dropped. */
  function Digits(n: nat, width: nat): (r: string)
    ensures |r| == width && AllDigits(r)
  {
    if width == 0 then []
    else Digits(n / 10, width - 1) + [('0' as int + n % 10) as char]
  }

  lemma {:induction false} DigitsValueOfDigits(n: nat, width: nat)
    requires n < Pow10(width)
    ensures DigitsValue(Digits(n, width)) == n
  {
    if width > 0 {
      var s := Digits(n, width);
      assert s[..|s| - 1] == Digits(n / 10, width - 1);
      assert n == 10 * (n / 10) + n % 10;
      DigitsValueOfDigits(n / 10, width - 1);
    }
  }

  lemma {:induction false} DigitsOfDigitsValue(s: string)
    requires AllDigits(s)
    ensures Digits(DigitsValue(s), |s|) == s
  {
    if s != [] {
      var init := s[..|s| - 1];
      var d := s[|s| - 1] as int - '0' as int;
      DigitsOfDigitsValue(init);
      var v := DigitsValue(init) * 10 + d;
      assert v == 10 * DigitsValue(init) + d;
      assert v / 10 == DigitsValue(init) && v % 10 == d;
      assert s == init + [s[|s| - 1]];
    }
  }

  /** Four digits, '-', two digits, '-', two digits. */
  predicate WellFormed(s: string) {
    |s| == 10 && s[4] == '-' && s[7] == '-' &&
    AllDigits(s[..4]) && AllDigits(s[5..7]) && AllDigits(s[8..])
  }

  /** The year, month and day fields of a well-formed string. */
  function Fields(s: string): Civil
    requires WellFormed(s)
  {
    Civil(DigitsValue(s[..4]), DigitsValue(s[5..7]), DigitsValue(s[8..]))
  }

  /** `APIDate.yyyyMMdd.date(from:)`: midnight of the day the string names, or nil when the
      string is not a date in that format. */
  function ParseDate(s: string): (r: Option<Instant>)
    ensures r.Some? <==> WellFormed(s) && ValidCivil(Fields(s))
  {
    if WellFormed(s) && ValidCivil(Fields(s)) then Some(StartOfCivil(Fields(s))) else None
  }

  /** An accepted string yields midnight of exactly the date it names. */
  lemma ParsedDate(s: string)
    requires ParseDate(s).Some?
    ensures CivilOf(ParseDate(s).value) == Fields(s) && TimeOfDay(ParseDate(s).value) == 0
  {
    CivilFromDaysFromCivil(Fields(s));
  }

  /** The formatter's output for a date with a four-digit year. */
  function FormatDate(c: Civil): (r: string)
    requires 0 <= c.year < 10000 && ValidCivil(c)
    ensures WellFormed(r)
  {
    Digits(c.year, 4) + "-" + Digits(c.month, 2) + "-" + Digits(c.day, 2)
  }

  lemma FormatFields(c: Civil)
    requires 0 <= c.year < 10000 && ValidCivil(c)
    ensures Fields(FormatDate(c)) == c
  {
    var s := FormatDate(c);
    assert s[..4] == Digits(c.year, 4);
    assert s[5..7] == Digits(c.month, 2);
    assert s[8..] == Digits(c.day, 2);
    assert Pow10(4) == 10000 && Pow10(2) == 100;
    DigitsValueOfDigits(c.year, 4);
    DigitsValueOfDigits(c.month, 2);
    DigitsValueOfDigits(c.day, 2);
  }

  /** Reading a formatted date gives back midnight of that date. */
  lemma ParseFormat(c: Civil)
    requires 0 <= c.year < 10000 && ValidCivil(c)
    ensures ParseDate(FormatDate(c)) == Some(StartOfCivil(c))
  {
    FormatFields(c);
  }

  /** Every string the parser accepts is the formatted form of the date it names, so two
      different strings never yield the same day. */
  lemma FormatOfFields(s: string)
    requires ParseDate(s).Some?
    ensures Fields(s).year < 10000 && FormatDate(Fields(s)) == s
  {
    FormatOfWellFormed(s);
  }

  /** A well-formed string is the formatted form of its fields. */
  lemma FormatOfWellFormed(s: string)
    requires WellFormed(s) && ValidCivil(Fields(s))
    ensures Fields(s).year < 10000 && FormatDate(Fields(s)) == s
  {
    assert Pow10(4) == 10000;
    DigitsOfDigitsValue(s[..4]);
    DigitsOfDigitsValue(s[5..7]);
    DigitsOfDigitsValue(s[8..]);
    assert s == s[..4] + "-" + s[5..7] + "-" + s[8..];
  }

  /** "2025-01-01" is midnight of 1 January 2025. */
  lemma NewYearParses()
    ensures ParseDate("2025-01-01") == Some(StartOfCivil(Civil(2025, 1, 1)))
  {
    var s := "2025-01-01";
    assert s[..4] == "2025" && s[5..7] == "01" && s[8..] == "01";
    assert DigitsValue("2025") == 2025 by {
      assert "2025"[..3] == "202" && "202"[..2] == "20" && "20"[..1] == "2";
    }
  }

  /** 2025 is not a leap year, so "2025-02-29" is rejected. */
  lemma LeapDayRejected()
    ensures ParseDate("2025-02-29").None?
  {
    var t := "2025-02-29";
    assert t[..4] == "2025" && t[5..7] == "02" && t[8..] == "29";
    assert DigitsValue("02") == 2 && DigitsValue("29") == 29;
    assert !ValidCivil(Civil(2025, 2, 29));
  }

  /** A one-digit month is not in the format. */
  lemma ShortMonthRejected()
    ensures ParseDate("2025-1-01").None?
  {
    assert !WellFormed("2025-1-01");
  }

  lemma NewYear2025()
    ensures ParseDate("2025-01-01") == Some(StartOfCivil(Civil(2025, 1, 1)))
    ensures ParseDate("2025-02-29").None? && ParseDate("2025-1-01").None?
  {
    NewYearParses();
    LeapDayRejected();
    ShortMonthRejected();
  }
}
