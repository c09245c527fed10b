/** `DayInfoService`: sunrise, sunset and temperature range of a day, served from the store
    when cached and otherwise fetched from the API, which only knows days up to today. */
module DayInfo {
  import opened Wrappers
  import opened Dates
  import opened Seqs
  import opened ApiDates
  import opened Store

  datatype AstronomyDTO = AstronomyDTO(sunrise: string, sunset: string)
  datatype WeatherSummaryDTO = WeatherSummaryDTO(parameter: string, summaryValue: string)
  datatype WeatherDTO = WeatherDTO(summary: seq<WeatherSummaryDTO>)
  /** A decoded response of the day endpoint. */
  datatype DayInfoDTO = DayInfoDTO(date: string, astronomy: AstronomyDTO, weather: WeatherDTO)

  // ---------------------------------------------------------------------
  // `split(separator:)`, which omits empty pieces

  /** The length of the leading run of non-separator characters. */
  function PieceLength(s: string, sep: char): (k: nat)
    ensures k <= |s| && (k < |s| ==> s[k] == sep)
    ensures forall i :: 0 <= i < k ==> s[i] != sep
  {
    if s == [] || s[0] == sep then 0 else 1 + PieceLength(s[1..], sep)
  }

  /** All characters other than `sep`, in order. */
  function Without(s: string, sep: char): string {
    if s == [] then [] else (if s[0] == sep then [] else [s[0]]) + Without(s[1..], sep)
  }

  function Concat(pieces: seq<string>): string {
    if pieces == [] then [] else pieces[0] + Concat(pieces[1..])
  }

  /** `s.split(separator: sep)`: the maximal runs of non-separator characters. */
  function Split(s: string, sep: char): (r: seq<string>)
    ensures forall i :: 0 <= i < |r| ==> r[i] != [] && sep !in r[i]
    ensures Concat(r) == Without(s, sep)
    decreases |s|
  {
    if s == [] then []
    else if s[0] == sep then Split(s[1..], sep)
    else
      var k := PieceLength(s, sep);
      var rest := Split(s[k..], sep);
      WithoutPiece(s, sep, k);
      PiecesCons(s[..k], rest, sep);
      [s[..k]] + rest
  }

  lemma PiecesCons(p: string, rest: seq<string>, sep: char)
    requires p != [] && sep !in p
    requires forall i :: 0 <= i < |rest| ==> rest[i] != [] && sep !in rest[i]
    ensures forall i :: 0 <= i < |[p] + rest| ==> ([p] + rest)[i] != [] && sep !in ([p] + rest)[i]
    ensures Concat([p] + rest) == p + Concat(rest)
  {
    assert ([p] + rest)[1..] == rest;
    forall i | 0 < i < |[p] + rest|
      ensures ([p] + rest)[i] == rest[i - 1]
    {
    }
  }

  lemma {:induction false} WithoutPiece(s: string, sep: char, k: nat)
    requires k <= |s| && forall i :: 0 <= i < k ==> s[i] != sep
    ensures Without(s, sep) == s[..k] + Without(s[k..], sep)
  {
    if k > 0 {
      WithoutPiece(s[1..], sep, k - 1);
      assert s[1..][k - 1..] == s[k..];
      assert s[..k] == [s[0]] + s[1..][..k - 1];
    }
  }

  /** A separator-free, non-empty string is one piece. */
  lemma SplitPiece(a: string, sep: char)
    requires a != [] && sep !in a
    ensures Split(a, sep) == [a]
  {
    assert forall i :: 0 <= i < |a| ==> a[i] != sep;
    assert PieceLength(a, sep) == |a| by {
      PieceLengthWhole(a, sep);
    }
    assert a[0] != sep && a[..|a|] == a && a[|a|..] == [];
  }

  lemma {:induction false} PieceLengthWhole(a: string, sep: char)
    requires sep !in a
    ensures PieceLength(a, sep) == |a|
  {
    if a != [] {
      assert sep !in a[1..] by {
        assert forall i :: 0 <= i < |a[1..]| ==> a[1..][i] == a[i + 1];
      }
      PieceLengthWhole(a[1..], sep);
    }
  }

  lemma {:induction false} PieceLengthPrefix(a: string, b: string, sep: char)
    requires exists i :: 0 <= i < |a| && a[i] == sep
    ensures PieceLength(a + b, sep) == PieceLength(a, sep)
  {
    if a[0] != sep {
      assert (a + b)[1..] == a[1..] + b;
      var i :| 0 <= i < |a| && a[i] == sep;
      assert a[1..][i - 1] == sep;
      PieceLengthPrefix(a[1..], b, sep);
    }
  }

  /** Splitting at one separator splits each side independently. */
  lemma {:induction false} SplitAtSeparator(a: string, b: string, sep: char)
    ensures Split(a + [sep] + b, sep) == Split(a, sep) + Split(b, sep)
    decreases |a|
  {
    var s := a + [sep] + b;
    if a == [] {
      assert s[1..] == b;
    } else if a[0] == sep {
      assert s[1..] == a[1..] + [sep] + b;
      SplitAtSeparator(a[1..], b, sep);
    } else {
      var k := PieceLength(a, sep);
      SeparatedPiece(a, b, sep);
      assert s[..k] == a[..k];
      assert s[k..] == a[k..] + [sep] + b;
      SplitAtSeparator(a[k..], b, sep);
      assert Split(s, sep) == [a[..k]] + Split(s[k..], sep);
    }
  }

  /** The leading piece of `a` is also the leading piece of `a + [sep] + b`. */
  lemma SeparatedPiece(a: string, b: string, sep: char)
    ensures PieceLength(a + [sep] + b, sep) == PieceLength(a, sep)
  {
    var k := PieceLength(a, sep);
    if k < |a| {
      assert a[k] == sep;
      PieceLengthPrefix(a, [sep] + b, sep);
      assert a + ([sep] + b) == a + [sep] + b;
    } else {
      assert (a + [sep])[|a|] == sep;
      PieceLengthPrefix(a + [sep], b, sep);
      PieceLengthWhole(a, sep);
      PieceLengthAppend(a, sep);
    }
  }

  lemma {:induction false} PieceLengthAppend(a: string, sep: char)
    requires PieceLength(a, sep) == |a|
    ensures PieceLength(a + [sep], sep) == |a|
  {
    if a != [] {
      assert (a + [sep])[1..] == a[1..] + [sep];
      PieceLengthAppend(a[1..], sep);
    }
  }

  /** Two separator-free pieces joined by one separator split back into those pieces. */
  lemma SplitPair(a: string, b: string, sep: char)
    requires a != [] && b != [] && sep !in a && sep !in b
    ensures Split(a + [sep] + b, sep) == [a, b]
  {
    SplitAtSeparator(a, b, sep);
    SplitPiece(a, sep);
    SplitPiece(b, sep);
  }

  /** "5-9" splits on '-' into "5" and "9". */
  lemma SplitPlain()
    ensures Split("5-9", '-') == ["5", "9"]
  {
    SplitPair("5", "9", '-');
    assert "5-9" == "5" + ['-'] + "9";
  }

  /** "-3-2" splits on '-' into "3" and "2": the empty piece before the first '-' is dropped. */
  lemma SplitNegative()
    ensures Split("-3-2", '-') == ["3", "2"]
  {
    SplitAtSeparator("", "3-2", '-');
    SplitPair("3", "2", '-');
    assert "-3-2" == "" + ['-'] + "3-2" && "3-2" == "3" + ['-'] + "2";
  }

  /** "7.0 °C" has no '-' and is one piece. */
  lemma SplitNoSeparator()
    ensures Split("7.0 °C", '-') == ["7.0 °C"]
  {
    SplitPiece("7.0 °C", '-');
  }

  // ---------------------------------------------------------------------
  // `Double(String)` on decimal text

  /** `replacingOccurrences(of: ",", with: ".")`. */
  function CommaToPoint(s: string): (r: string)
    ensures |r| == |s|
    ensures forall i :: 0 <= i < |s| ==> r[i] == (if s[i] == ',' then '.' else s[i])
  {
    if s == [] then [] else [if s[0] == ',' then '.' else s[0]] + CommaToPoint(s[1..])
  }

  /** Index of the first '.', or the length when there is none. */
  function PointIndex(s: string): (k: nat)
    ensures k <= |s| && (k < |s| ==> s[k] == '.')
    ensures forall i :: 0 <= i < k ==> s[i] != '.'
  {
    PieceLength(s, '.')
  }

  /** `Double(s)`: an optional sign in front of an unsigned decimal; only "-" negates. */
  function ParseDouble(s: string): (r: Option<real>)
    ensures r.Some? ==> s != [] && forall i :: 0 <= i < |s| ==> IsDigit(s[i]) || s[i] in "+-."
  {
    var signed := s != [] && (s[0] == '-' || s[0] == '+');
    var body := if signed then s[1..] else s;
    var m := ReadUnsigned(body);
    if m.None? then None
    else
      assert forall i :: 0 <= i < |s| ==> IsDigit(s[i]) || s[i] in "+-." by {
        forall i | 0 <= i < |s|
          ensures IsDigit(s[i]) || s[i] in "+-."
        {
          if !signed || i > 0 {
            assert body[if signed then i - 1 else i] == s[i];
          }
        }
      }
      Some(if s != [] && s[0] == '-' then -m.value else m.value)
  }

  /** Digits, optionally followed by a point and more digits, with at least one digit. */
  function ReadUnsigned(body: string): (r: Option<real>)
    ensures r.Some? ==> body != [] && forall i :: 0 <= i < |body| ==> IsDigit(body[i]) || body[i] == '.'
  {
    var k := PointIndex(body);
    var whole := body[..k];
    var fraction := if k < |body| then body[k + 1..] else [];
    if AllDigits(whole) && AllDigits(fraction) && |whole| + |fraction| > 0 then
      assert forall i :: 0 <= i < |body| ==> IsDigit(body[i]) || body[i] == '.' by {
        forall i | 0 <= i < |body|
          ensures IsDigit(body[i]) || body[i] == '.'
        {
          if i < k {
            assert whole[i] == body[i];
          } else if i > k {
            assert fraction[i - k - 1] == body[i];
          }
        }
      }
      Some(Magnitude(whole, fraction))
    else None
  }

  /** The value of digits `whole`, a point and digits `fraction`. */
  function Magnitude(whole: string, fraction: string): real
    requires AllDigits(whole) && AllDigits(fraction)
  {
    DigitsValue(whole) as real + DigitsValue(fraction) as real / Pow10(|fraction|) as real
  }

  /** A digit string has no decimal point. */
  lemma PointIndexOfDigits(d: string)
    requires AllDigits(d)
    ensures PointIndex(d) == |d|
  {
    assert '.' !in d by {
      assert forall i :: 0 <= i < |d| ==> d[i] != '.';
    }
    PieceLengthWhole(d, '.');
  }

  /** An optional sign: none, "+" or "-". */
  predicate IsSign(sign: string) {
    sign == "" || sign == "+" || sign == "-"
  }

  /** A magnitude under a sign; only "-" negates. */
  function Signed(sign: string, m: real): real {
    if sign == "-" then -m else m
  }

  /** A sign in front of a readable unsigned decimal applies to its value. */
  lemma SignedRead(sign: string, body: string)
    requires IsSign(sign) && ReadUnsigned(body).Some?
    requires body[0] != '-' && body[0] != '+'
    ensures ParseDouble(sign + body) == Some(Signed(sign, ReadUnsigned(body).value))
  {
    var s := sign + body;
    assert s[|sign|] == body[0];
    assert (s[0] == '-' || s[0] == '+') <==> sign != "";
    assert s[0] == '-' <==> sign == "-";
    assert (if sign != "" then s[1..] else s) == body;
  }

  /** Digits, a point and digits read as their magnitude. */
  lemma ReadDecimal(w: string, f: string)
    requires AllDigits(w) && AllDigits(f) && |w| + |f| > 0
    ensures ReadUnsigned(w + "." + f) == Some(Magnitude(w, f))
  {
    var body := w + "." + f;
    SeparatedPiece(w, f, '.');
    PointIndexOfDigits(w);
    assert body[|w|] == '.';
    assert body[..|w|] == w && body[|w| + 1..] == f;
  }

  /** A digit run without a point reads as its value. */
  lemma ReadWhole(w: string)
    requires AllDigits(w) && w != []
    ensures ReadUnsigned(w) == Some(DigitsValue(w) as real)
  {
    PointIndexOfDigits(w);
    assert w[..PointIndex(w)] == w;
    assert Magnitude(w, []) == DigitsValue(w) as real;
  }

  /** A sign, digits, a point and digits read as the signed magnitude; either digit run may
      be empty, but not both. */
  lemma ParseDecimal(sign: string, w: string, f: string)
    requires IsSign(sign) && AllDigits(w) && AllDigits(f) && |w| + |f| > 0
    ensures ParseDouble(sign + w + "." + f) == Some(Signed(sign, Magnitude(w, f)))
  {
    var body := w + "." + f;
    ReadDecimal(w, f);
    assert w != [] ==> IsDigit(body[0]);
    SignedRead(sign, body);
    Regrouped(sign, w, ".", f);
  }

  lemma Regrouped(a: string, b: string, c: string, d: string)
    ensures a + b + c + d == a + (b + c + d)
  {
  }

  /** A sign and a non-empty digit run read as the signed whole number. */
  lemma ParseInteger(sign: string, w: string)
    requires IsSign(sign) && AllDigits(w) && w != []
    ensures ParseDouble(sign + w) == Some(Signed(sign, DigitsValue(w) as real))
  {
    ReadWhole(w);
    assert IsDigit(w[0]);
    SignedRead(sign, w);
  }

  /** An accepted unsigned decimal is digits, optionally a point and more digits. */
  lemma UnsignedShape(body: string) returns (w: string, f: string, point: bool)
    requires ReadUnsigned(body).Some?
    ensures AllDigits(w) && AllDigits(f) && |w| + |f| > 0
    ensures point ==> body == w + "." + f
    ensures !point ==> body == w && f == []
  {
    var k := PointIndex(body);
    w := body[..k];
    point := k < |body|;
    f := if point then body[k + 1..] else [];
    if point {
      assert body == w + "." + f;
    } else {
      assert body == w;
    }
  }

  /** Every accepted string has one of those two shapes: a sign and digits, followed either
      by a point and more digits or by nothing. */
  lemma ParsedShape(s: string) returns (sign: string, w: string, f: string, point: bool)
    requires ParseDouble(s).Some?
    ensures IsSign(sign) && AllDigits(w) && AllDigits(f)
    ensures point ==> |w| + |f| > 0 && s == sign + w + "." + f &&
                      ParseDouble(s) == Some(Signed(sign, Magnitude(w, f)))
    ensures !point ==> w != [] && s == sign + w && ParseDouble(s) == Some(Signed(sign, DigitsValue(w) as real))
  {
    var signed := s != [] && (s[0] == '-' || s[0] == '+');
    sign := if signed then s[..1] else "";
    var body := if signed then s[1..] else s;
    assert signed ==> sign == [s[0]];
    assert s == sign + body;
    w, f, point := UnsignedShape(body);
    if point {
      Regrouped(sign, w, ".", f);
      ParseDecimal(sign, w, f);
    } else {
      ParseInteger(sign, w);
    }
  }

  /** Digit strings read back as their value. */
  lemma ParseDigits(d: string)
    requires d != [] && AllDigits(d)
    ensures ParseDouble(d) == Some(DigitsValue(d) as real)
  {
    ParseInteger("", d);
    assert "" + d == d;
  }

  /** Digit strings after a minus sign read back as the negated value. */
  lemma ParseNegatedDigits(d: string)
    requires d != [] && AllDigits(d)
    ensures ParseDouble("-" + d) == Some(-(DigitsValue(d) as real))
  {
    ParseInteger("-", d);
  }

  /** Whole numbers written in decimal read back as themselves. */
  lemma ParseWholeUnsigned(n: nat, width: nat)
    requires 0 < width && n < Pow10(width)
    ensures ParseDouble(Digits(n, width)) == Some(n as real)
  {
    DigitsValueOfDigits(n, width);
    ParseDigits(Digits(n, width));
  }

  /** Whole numbers written in decimal after a minus sign read back as their negation. */
  lemma ParseWholeNegated(n: nat, width: nat)
    requires 0 < width && n < Pow10(width)
    ensures ParseDouble("-" + Digits(n, width)) == Some(-(n as real))
  {
    DigitsValueOfDigits(n, width);
    ParseInteger("-", Digits(n, width));
  }

  /** Whole numbers read back as themselves, with or without a sign. */
  lemma ParseWhole(n: nat, width: nat)
    requires 0 < width && n < Pow10(width)
    ensures ParseDouble(Digits(n, width)) == Some(n as real)
    ensures ParseDouble("-" + Digits(n, width)) == Some(-(n as real))
  {
    ParseWholeUnsigned(n, width);
    ParseWholeNegated(n, width);
  }

  lemma SevenAndAHalf()
    ensures ParseDouble("7.5") == Some(7.5)
  {
    assert PointIndex("7.5") == 1;
    assert "7.5"[..1] == "7" && "7.5"[2..] == "5";
    assert DigitsValue("7") == 7 && DigitsValue("5") == 5 && Pow10(1) == 10;
  }

  /** "7,5" with its comma read as a point is 7.5. */
  lemma SevenAndAHalfWithComma()
    ensures ParseDouble(CommaToPoint("7,5")) == Some(7.5)
  {
    assert CommaToPoint("7,5") == "7.5";
    SevenAndAHalf();
  }

  /** A comma is not a decimal point, and at least one digit is needed. */
  lemma DecimalExamples()
    ensures ParseDouble("9,5").None? && ParseDouble("").None? && ParseDouble(".").None?
  {
    assert PointIndex("9,5") == 3;
    assert "9,5"[..3] == "9,5" && !IsDigit(','); 
    assert "9,5"[1] == ',';
    assert PointIndex(".") == 0 && "."[..0] == [] && "."[1..] == [];
  }

  // ---------------------------------------------------------------------
  // The record an API response yields

  /** The summary entry the temperatures are read from. */
  predicate IsTemperature(w: WeatherSummaryDTO) {
    w.parameter == "Temperatur"
  }

  /** Minimum and maximum read from the first "Temperatur" summary, when its value splits on
      '-' into exactly two pieces: a comma in the minimum counts as a decimal point, the
      maximum is read as it is, and an unreadable piece counts as 0. */
  function Temperatures(summary: seq<WeatherSummaryDTO>): Option<(real, real)> {
    var span := FirstWhere(summary, IsTemperature);
    if span.None? then None
    else
      var comps := Split(span.value.summaryValue, '-');
      if |comps| == 2 then
        Some((ParseDouble(CommaToPoint(comps[0])).GetOr(0.0), ParseDouble(comps[1]).GetOr(0.0)))
      else None
  }

  /** What `importIntoCoreData` stores for a response: nothing when its date does not parse;
      otherwise its date, sunrise and sunset as given and the temperatures, 0 when absent. */
  function ImportedDayInfo(dto: DayInfoDTO): (r: Option<DayInfoItem>)
    ensures r.Some? <==> ParseDate(dto.date).Some?
    ensures r.Some? ==> r.value.date == ParseDate(dto.date).value &&
                        r.value.sunrise == dto.astronomy.sunrise && r.value.sunset == dto.astronomy.sunset
    ensures r.Some? && Temperatures(dto.weather.summary).None? ==> r.value.tempMin == 0.0 && r.value.tempMax == 0.0
    ensures r.Some? && Temperatures(dto.weather.summary).Some? ==>
              (r.value.tempMin, r.value.tempMax) == Temperatures(dto.weather.summary).value
  {
    var date := ParseDate(dto.date);
    if date.None? then None
    else
      var t := Temperatures(dto.weather.summary);
      var (lo, hi) := if t.Some? then t.value else (0.0, 0.0);
      Some(DayInfoItem(date.value, dto.astronomy.sunrise, dto.astronomy.sunset, lo, hi))
  }

  function Temperature(value: string): seq<WeatherSummaryDTO> {
    [WeatherSummaryDTO("Nedbør", "0-1"), WeatherSummaryDTO("Temperatur", value)]
  }

  /** The summaries of `Temperature(value)`: the first "Temperatur" entry is the second one. */
  lemma TemperatureSpan(value: string)
    ensures FirstWhere(Temperature(value), IsTemperature) ==
              Some(WeatherSummaryDTO("Temperatur", value))
  {
    assert Temperature(value)[1..] == [WeatherSummaryDTO("Temperatur", value)];
    assert "Nedbør" != "Temperatur";
  }

  /** A summary value made of two pieces gives the minimum and maximum read from them. */
  lemma TemperaturesOfPieces(value: string, lo: string, hi: string, min: real, max: real)
    requires Split(value, '-') == [lo, hi]
    requires ParseDouble(CommaToPoint(lo)).GetOr(0.0) == min && ParseDouble(hi).GetOr(0.0) == max
    ensures Temperatures(Temperature(value)) == Some((min, max))
  {
    TemperatureSpan(value);
  }

  lemma OneDigit(n: nat)
    requires n < 10
    ensures ParseDouble([('0' as int + n) as char]) == Some(n as real)
  {
    ParseWholeUnsigned(n, 1);
    assert Digits(n, 1) == [('0' as int + n) as char];
  }

  /** A one-digit piece has no comma and reads as its digit. */
  lemma DigitPiece(n: nat, s: string)
    requires n < 10 && s == [('0' as int + n) as char]
    ensures CommaToPoint(s) == s && ParseDouble(s) == Some(n as real)
  {
    OneDigit(n);
  }

  /** "7,5-9" splits on '-' into "7,5" and "9". */
  lemma SplitCommaMinimum()
    ensures Split("7,5-9", '-') == ["7,5", "9"]
  {
    SplitPair("7,5", "9", '-');
    assert "7,5-9" == "7,5" + ['-'] + "9";
  }

  /** "5-9,5" splits on '-' into "5" and "9,5". */
  lemma SplitCommaMaximum()
    ensures Split("5-9,5", '-') == ["5", "9,5"]
  {
    SplitPair("5", "9,5", '-');
    assert "5-9,5" == "5" + ['-'] + "9,5";
  }

  /** "5-9" gives 5 to 9. */
  lemma PlainRange()
    ensures Temperatures(Temperature("5-9")) == Some((5.0, 9.0))
  {
    SplitPlain();
    DigitPiece(5, "5");
    DigitPiece(9, "9");
    TemperaturesOfPieces("5-9", "5", "9", 5.0, 9.0);
  }

  /** "7,5-9": the comma of the minimum is read as a decimal point. */
  lemma CommaInMinimum()
    ensures Temperatures(Temperature("7,5-9")) == Some((7.5, 9.0))
  {
    SplitCommaMinimum();
    SevenAndAHalfWithComma();
    DigitPiece(9, "9");
    TemperaturesOfPieces("7,5-9", "7,5", "9", 7.5, 9.0);
  }

  /** "-3-2": the empty piece before the first '-' is dropped, and with it the minus sign. */
  lemma NegativeMinimumLosesSign()
    ensures Temperatures(Temperature("-3-2")) == Some((3.0, 2.0))
  {
    SplitNegative();
    DigitPiece(3, "3");
    DigitPiece(2, "2");
    TemperaturesOfPieces("-3-2", "3", "2", 3.0, 2.0);
  }

  /** "5-9,5": the comma of the maximum is kept, so the maximum does not parse and is 0. */
  lemma CommaInMaximum()
    ensures Temperatures(Temperature("5-9,5")) == Some((5.0, 0.0))
  {
    SplitCommaMaximum();
    DigitPiece(5, "5");
    DecimalExamples();
    TemperaturesOfPieces("5-9,5", "5", "9,5", 5.0, 0.0);
  }

  /** Text without commas is left as it is. */
  lemma CommaToPointWithoutComma(s: string)
    ensures ',' !in s ==> CommaToPoint(s) == s
  {
  }

  /** `Temperatures` with the comma of the maximum also read as a decimal point. It finds a
      range exactly when `Temperatures` does, with the same minimum; the maximum differs only
      where `Temperatures` could not read it and took 0. */
  function TemperaturesReadingCommas(summary: seq<WeatherSummaryDTO>): (r: Option<(real, real)>)
    ensures var t := Temperatures(summary);
            (r.Some? <==> t.Some?) &&
            (r.Some? ==> r.value.0 == t.value.0 && (r.value.1 != t.value.1 ==> t.value.1 == 0.0))
  {
    var span := FirstWhere(summary, IsTemperature);
    if span.None? then None
    else
      var comps := Split(span.value.summaryValue, '-');
      if |comps| == 2 then
        var hi := comps[1];
        CommaToPointWithoutComma(hi);
        assert ',' in hi ==> ParseDouble(hi).None?;
        Some((ParseDouble(CommaToPoint(comps[0])).GetOr(0.0), ParseDouble(CommaToPoint(hi)).GetOr(0.0)))
      else None
  }

  lemma NineAndAHalf()
    ensures ParseDouble("9.5") == Some(9.5)
  {
    assert PointIndex("9.5") == 1;
    assert "9.5"[..1] == "9" && "9.5"[2..] == "5";
    assert DigitsValue("9") == 9 && DigitsValue("5") == 5 && Pow10(1) == 10;
  }

  /** "9,5" with its comma read as a point is 9.5. */
  lemma NineAndAHalfWithComma()
    ensures ParseDouble(CommaToPoint("9,5")) == Some(9.5)
  {
    assert CommaToPoint("9,5") == "9.5";
    NineAndAHalf();
  }

  /** With commas read in both pieces, a two-piece value gives the two readings. */
  lemma TemperaturesReadingCommasOfPieces(value: string, lo: string, hi: string, min: real, max: real)
    requires Split(value, '-') == [lo, hi]
    requires ParseDouble(CommaToPoint(lo)).GetOr(0.0) == min && ParseDouble(CommaToPoint(hi)).GetOr(0.0) == max
    ensures TemperaturesReadingCommas(Temperature(value)) == Some((min, max))
  {
    TemperatureSpan(value);
  }

  /** "5-9,5" now gives 5 to 9.5. */
  lemma CommaInMaximumRead()
    ensures TemperaturesReadingCommas(Temperature("5-9,5")) == Some((5.0, 9.5))
  {
    SplitCommaMaximum();
    DigitPiece(5, "5");
    NineAndAHalfWithComma();
    TemperaturesReadingCommasOfPieces("5-9,5", "5", "9,5", 5.0, 9.5);
  }

  /** "7.0 °C" is not a range, so no temperature is taken. */
  lemma NotARange()
    ensures Temperatures(Temperature("7.0 °C")).None?
  {
    SplitNoSeparator();
    TemperatureSpan("7.0 °C");
  }

  class DayInfoService {
    const ctx: ManagedContext
    /** Number of requests made to the day endpoint. */
    var fetches: nat

    constructor (ctx: ManagedContext)
      ensures this.ctx == ctx && fetches == 0
    {
      this.ctx := ctx;
      fetches := 0;
    }

    /** `cachedItem(for:)`: the first stored record dated within the day. */
    method CachedItem(day: Instant) returns (r: Option<DayInfoItem>)
      ensures r == FirstWhere(ctx.dayInfos, (x: DayInfoItem) => OnDay(x.date, day))
    {
      r := FirstWhere(ctx.dayInfos, (x: DayInfoItem) => OnDay(x.date, day));
    }

    /** `importIntoCoreData(_:)`. */
    method ImportIntoStore(dto: DayInfoDTO) returns (r: Option<DayInfoItem>)
      modifies ctx`dayInfos
      ensures r == ImportedDayInfo(dto)
      ensures ctx.dayInfos == old(ctx.dayInfos) + (if r.Some? then [r.value] else [])
    {
      var parsed := ParseDate(dto.date);
      if parsed.None? {
        return None;
      }
      var tempMin, tempMax := 0.0, 0.0;
      var span := FirstWhere(dto.weather.summary, IsTemperature);
      if span.Some? {
        var comps := Split(span.value.summaryValue, '-');
        if |comps| == 2 {
          tempMin := ParseDouble(CommaToPoint(comps[0])).GetOr(0.0);
          tempMax := ParseDouble(comps[1]).GetOr(0.0);
        }
      }
      var item := DayInfoItem(parsed.value, dto.astronomy.sunrise, dto.astronomy.sunset, tempMin, tempMax);
      ctx.dayInfos := ctx.dayInfos + [item];
      r := Some(item);
    }

    /** `info(for:)` at time `now`, where `remote` is the decoded response of the request, or
        None when the request or the decoding fails. A cached day is answered from the store,
        even a future one; otherwise only today or an earlier instant is requested. */
    method Info(date: Instant, now: Instant, remote: Option<DayInfoDTO>) returns (r: Option<DayInfoItem>)
      modifies this`fetches, ctx`dayInfos
      ensures var cached := FirstWhere(old(ctx.dayInfos), (x: DayInfoItem) => OnDay(x.date, date));
              var asked := cached.None? && (SameDay(date, now) || date < now);
              (cached.Some? ==> r == cached) &&
              (cached.None? && !asked ==> r.None?) &&
              fetches == old(fetches) + (if asked then 1 else 0) &&
              (asked && remote.Some? ==> r == ImportedDayInfo(remote.value)) &&
              (asked && remote.None? ==> r.None?) &&
              ctx.dayInfos == old(ctx.dayInfos) + (if asked && r.Some? then [r.value] else [])
    {
      var cached := CachedItem(date);
      if cached.Some? {
        return cached;
      }
      if !(SameDay(date, now) || date < now) {
        return None;
      }
      fetches := fetches + 1;
      if remote.None? {
        return None;
      }
      r := ImportIntoStore(remote.value);
    }
  }

  // ---------------------------------------------------------------------
  // Scenarios on a fresh store

  /** A stored record is returned for its day without a request. */
  method CachedDayWithoutRequest(item: DayInfoItem, now: Instant, remote: Option<DayInfoDTO>)
    returns (service: DayInfoService, r: Option<DayInfoItem>)
    ensures r == Some(item) && service.fetches == 0 && service.ctx.dayInfos == [item]
  {
    var ctx := new ManagedContext();
    ctx.dayInfos := [item];
    service := new DayInfoService(ctx);
    assert OnDay(item.date, item.date);
    r := service.Info(item.date, now, remote);
  }

  /** Nothing is stored and the day is three days ahead: the answer is nil, no request is made
      and nothing is stored. */
  method FutureDateWithoutRequest(now: Instant, remote: Option<DayInfoDTO>)
    returns (service: DayInfoService, r: Option<DayInfoItem>)
    ensures r.None? && service.fetches == 0 && service.ctx.dayInfos == []
  {
    var ctx := new ManagedContext();
    service := new DayInfoService(ctx);
    r := service.Info(AddDays(now, 3), now, remote);
  }
}
