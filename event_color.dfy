/** `EventColor`: the palette an event is drawn in, stored as its raw string. */
module EventColors {
  import opened Wrappers

  datatype EventColor = Red | Blue | Green | Orange | Purple

  /** `CaseIterable.allCases`, in declaration order. */
  const AllCases: seq<EventColor> := [Red, Blue, Green, Orange, Purple]

  /** A `String`-backed enum's raw value is the case name. */
  function RawValue(c: EventColor): string {
    match c
    case Red => "red"
    case Blue => "blue"
    case Green => "green"
    case Orange => "orange"
    case Purple => "purple"
  }

  /** `EventColor(rawValue:)`: the failable initialiser. */
  function FromRaw(raw: string): (r: Option<EventColor>)
    ensures r.Some? ==> RawValue(r.value) == raw
  {
    if raw == "red" then Some(Red)
    else if raw == "blue" then Some(Blue)
    else if raw == "green" then Some(Green)
    else if raw == "orange" then Some(Orange)
    else if raw == "purple" then Some(Purple)
    else None
  }

  function UpperAscii(ch: char): char {
    if 'a' <= ch <= 'z' then (ch as int - 32) as char else ch
  }

  function LowerAscii(ch: char): char {
    if 'A' <= ch <= 'Z' then (ch as int + 32) as char else ch
  }

  /** `String.capitalized` on ASCII text: each word's first letter upper case, the rest lower case. */
  function Capitalized(s: string): (r: string)
    ensures |r| == |s|
  {
    CapitalizedFrom(s, true)
  }

  function CapitalizedFrom(s: string, wordStart: bool): (r: string)
    ensures |r| == |s|
  {
    if s == [] then []
    else if s[0] == ' ' then [' '] + CapitalizedFrom(s[1..], true)
    else [if wordStart then UpperAscii(s[0]) else LowerAscii(s[0])] + CapitalizedFrom(s[1..], false)
  }

  function DisplayName(c: EventColor): string {
    Capitalized(RawValue(c))
  }

  /** Exactly five cases. */
  lemma FiveCases()
    ensures |AllCases| == 5
    ensures forall c :: c in AllCases
    ensures forall i, j :: 0 <= i < j < |AllCases| ==> AllCases[i] != AllCases[j]
  {
    forall c ensures c in AllCases {
      match c
      case Red => assert AllCases[0] == c;
      case Blue => assert AllCases[1] == c;
      case Green => assert AllCases[2] == c;
      case Orange => assert AllCases[3] == c;
      case Purple => assert AllCases[4] == c;
    }
  }

  /** Raw values are distinct, and `EventColor(rawValue: c.rawValue) == c`. */
  lemma RawValueRoundTrip(a: EventColor, b: EventColor, raw: string)
    ensures RawValue(a) == RawValue(b) <==> a == b
    ensures FromRaw(RawValue(a)) == Some(a)
    ensures FromRaw(raw) == Some(a) <==> RawValue(a) == raw
  {
  }

  predicate LowerWord(s: string) {
    forall i :: 0 <= i < |s| ==> 'a' <= s[i] <= 'z'
  }

  /** Inside a word, lower-case letters are kept. */
  lemma {:induction false} LowerWordKept(s: string)
    requires LowerWord(s)
    ensures CapitalizedFrom(s, false) == s
  {
    if s != [] {
      assert LowerWord(s[1..]) by {
        assert forall i :: 0 <= i < |s[1..]| ==> s[1..][i] == s[i + 1];
      }
      LowerWordKept(s[1..]);
    }
  }

  /** A lower-case word is capitalised in its first letter only. */
  lemma CapitalizedWord(s: string)
    requires s != [] && LowerWord(s)
    ensures Capitalized(s) == [UpperAscii(s[0])] + s[1..]
  {
    assert LowerWord(s[1..]) by {
      assert forall i :: 0 <= i < |s[1..]| ==> s[1..][i] == s[i + 1];
    }
    LowerWordKept(s[1..]);
  }

  /** The display name is the raw value with its first letter capitalised. */
  lemma DisplayNameShape(c: EventColor)
    ensures |DisplayName(c)| == |RawValue(c)| && DisplayName(c)[0] == UpperAscii(RawValue(c)[0])
    ensures DisplayName(c)[1..] == RawValue(c)[1..]
  {
    CapitalizedWord(RawValue(c));
  }

  lemma RedLabel()
    ensures DisplayName(Red) == "Red"
  {
    DisplayNameShape(Red);
    assert "Red" == ['R'] + "ed";
  }

  lemma BlueLabel()
    ensures DisplayName(Blue) == "Blue"
  {
    DisplayNameShape(Blue);
    assert "Blue" == ['B'] + "lue";
  }

  lemma GreenLabel()
    ensures DisplayName(Green) == "Green"
  {
    DisplayNameShape(Green);
    assert "Green" == ['G'] + "reen";
  }

  lemma OrangeLabel()
    ensures DisplayName(Orange) == "Orange"
  {
    DisplayNameShape(Orange);
    assert "Orange" == ['O'] + "range";
  }

  lemma PurpleLabel()
    ensures DisplayName(Purple) == "Purple"
  {
    DisplayNameShape(Purple);
    assert "Purple" == ['P'] + "urple";
  }

  /** The display name is the raw value with its first letter capitalised. */
  lemma DisplayNames(c: EventColor)
    ensures DisplayName(Red) == "Red" && DisplayName(Blue) == "Blue" && DisplayName(Green) == "Green"
    ensures DisplayName(Orange) == "Orange" && DisplayName(Purple) == "Purple"
    ensures |DisplayName(c)| == |RawValue(c)| && DisplayName(c)[0] == UpperAscii(RawValue(c)[0])
    ensures DisplayName(c)[1..] == RawValue(c)[1..]
  {
    DisplayNameShape(c);
    RedLabel();
    BlueLabel();
    GreenLabel();
    OrangeLabel();
    PurpleLabel();
  }
}
