/** `String.softHyphenated(breakAfter:)`: lets long titles wrap after their first
    characters by inserting one soft hyphen (U+00AD). */
module Hyphenation {

  const SoftHyphen: char := '\U{00AD}'

  /** Where the hyphen goes: after `firstN` characters, but never within the last three. */
  function BreakIndex(s: string, firstN: int): int {
    if firstN < |s| - 3 then firstN else |s| - 3
  }

  /** Strings longer than `firstN` get one soft hyphen inserted at `BreakIndex`; shorter
      ones are returned unchanged. Inserting at a negative index traps in the source, so
      callers must keep it non-negative. */
  function SoftHyphenated(s: string, firstN: int := 8): (r: string)
    requires |s| > firstN ==> BreakIndex(s, firstN) >= 0
    ensures |s| <= firstN ==> r == s
    ensures |s| > firstN ==> |r| == |s| + 1 && r[BreakIndex(s, firstN)] == SoftHyphen
    ensures |s| > firstN ==> BreakIndex(s, firstN) <= firstN && |r| - BreakIndex(s, firstN) - 1 >= 3
    ensures |s| > firstN ==> r[..BreakIndex(s, firstN)] + r[BreakIndex(s, firstN) + 1..] == s
  {
    if |s| <= firstN then s
    else
      var k := BreakIndex(s, firstN);
      var r := s[..k] + [SoftHyphen] + s[k..];
      assert r[..k] == s[..k] && r[k + 1..] == s[k..];
      r
  }

  /** The soft hyphen is the only character added: without soft hyphens in the input,
      the output has exactly one, and dropping it gives the input back. */
  lemma OneSoftHyphenAdded(s: string, firstN: int)
    requires |s| > firstN && BreakIndex(s, firstN) >= 0
    requires forall i :: 0 <= i < |s| ==> s[i] != SoftHyphen
    ensures var r := SoftHyphenated(s, firstN);
            forall i :: 0 <= i < |r| && r[i] == SoftHyphen ==> i == BreakIndex(s, firstN)
  {
    var r, k := SoftHyphenated(s, firstN), BreakIndex(s, firstN);
    forall i | 0 <= i < |r| && i != k
      ensures r[i] != SoftHyphen
    {
      if i < k {
        assert r[i] == (r[..k] + r[k + 1..])[i];
      } else {
        assert r[i] == (r[..k] + r[k + 1..])[i - 1];
      }
    }
  }

  /** With the default of eight: "Meeting" is left alone, "Wednesday" breaks after "Wednes"
      to keep three characters after the hyphen, "Conference call" after "Conferen". */
  lemma DefaultBreak()
    ensures SoftHyphenated("Meeting") == "Meeting"
    ensures SoftHyphenated("Wednesday") == "Wednes" + [SoftHyphen] + "day"
    ensures SoftHyphenated("Conference call") == "Conferen" + [SoftHyphen] + "ce call"
  {
  }
}
