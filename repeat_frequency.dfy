/** `RepeatFrequency`: how often an event repeats, stored on the record as an `Int16` raw value. */
module Frequencies {
  import opened Wrappers

  newtype Int16 = x: int | -0x8000 <= x < 0x8000

  /** The five cases; `Never` is the Swift case `.none`. */
  datatype RepeatFrequency = Never | Daily | Weekly | Monthly | Yearly

  /** `CaseIterable.allCases`, in declaration order. */
  const AllCases: seq<RepeatFrequency> := [Never, Daily, Weekly, Monthly, Yearly]

  /** The raw value each case is stored as. */
  function RawValue(f: RepeatFrequency): Int16 {
    match f
    case Never => 0
    case Daily => 1
    case Weekly => 2
    case Monthly => 3
    case Yearly => 4
  }

  /** `RepeatFrequency(rawValue:)`: the failable initialiser. */
  function FromRaw(raw: Int16): (r: Option<RepeatFrequency>)
    ensures r.Some? <==> 0 <= raw <= 4
    ensures r.Some? ==> RawValue(r.value) == raw
  {
    if raw == 0 then Some(Never)
    else if raw == 1 then Some(Daily)
    else if raw == 2 then Some(Weekly)
    else if raw == 3 then Some(Monthly)
    else if raw == 4 then Some(Yearly)
    else None
  }

  /** `id`: a case identifies itself. */
  function Id(f: RepeatFrequency): (r: RepeatFrequency) {
    f
  }

  /** The label shown in the picker. */
  function DisplayName(f: RepeatFrequency): string {
    match f
    case Never => "Never"
    case Daily => "Daily"
    case Weekly => "Weekly"
    case Monthly => "Monthly"
    case Yearly => "Yearly"
  }

  /** Raw values 0..4 in declaration order, one per case. */
  lemma RawValuesAreIndices()
    ensures forall i :: 0 <= i < |AllCases| ==> RawValue(AllCases[i]) as int == i
    ensures forall f :: f in AllCases
    ensures |AllCases| == 5
  {
    forall f ensures f in AllCases {
      match f
      case Never => assert AllCases[0] == f;
      case Daily => assert AllCases[1] == f;
      case Weekly => assert AllCases[2] == f;
      case Monthly => assert AllCases[3] == f;
      case Yearly => assert AllCases[4] == f;
    }
  }

  /** Distinct cases have distinct raw values. */
  lemma RawValueInjective(a: RepeatFrequency, b: RepeatFrequency)
    ensures RawValue(a) == RawValue(b) <==> a == b
  {
  }

  /** `RepeatFrequency(rawValue: f.rawValue) == f`, and every accepted raw value is some case's. */
  lemma RawValueRoundTrip(f: RepeatFrequency, raw: Int16)
    ensures FromRaw(RawValue(f)) == Some(f)
    ensures FromRaw(raw) == Some(f) <==> RawValue(f) == raw
  {
  }

  /** The display names, and no two cases share one. */
  lemma DisplayNames(a: RepeatFrequency, b: RepeatFrequency)
    ensures DisplayName(Never) == "Never" && DisplayName(Daily) == "Daily"
    ensures DisplayName(Weekly) == "Weekly" && DisplayName(Monthly) == "Monthly"
    ensures DisplayName(Yearly) == "Yearly"
    ensures DisplayName(a) == DisplayName(b) ==> a == b
  {
  }
}
