/**
 * `parse_month`: the fuzzy reader of a BibTeX `month` field. The field is stripped of
 * white space and of trailing dots, lower-cased, and read as the first month name it
 * prefixes, provided it has at least three characters.
 */
module Months {
  import opened Wrappers
  import opened Strings

  const MonthNames: seq<string> := ["january", "february", "march", "april", "may", "june",
    "july", "august", "september", "october", "november", "december"]

  /** The text the month names are compared with: `string.strip().rstrip('.').lower()`. */
  function MonthText(s: string): string {
    Lower(RStrip(Strip(s), {'.'}))
  }

  /** The index of the first month name from `i` on that `val` prefixes. */
  function FindMonth(val: string, i: nat): (r: Option<nat>)
    requires i <= |MonthNames|
    ensures r.Some? ==> i <= r.value < |MonthNames| && StartsWith(MonthNames[r.value], val)
    ensures r.Some? ==> forall j :: i <= j < r.value ==> !StartsWith(MonthNames[j], val)
    ensures r.None? ==> forall j :: i <= j < |MonthNames| ==> !StartsWith(MonthNames[j], val)
    decreases |MonthNames| - i
  {
    if i == |MonthNames| then None
    else if StartsWith(MonthNames[i], val) then Some(i)
    else FindMonth(val, i + 1)
  }

  /** The month number 1..12, or an error when the text is shorter than three characters or prefixes no month. */
  function ParseMonth(s: string): (r: Result<nat>)
    ensures r.Ok? <==> |MonthText(s)| >= 3 && exists j :: 0 <= j < |MonthNames| && StartsWith(MonthNames[j], MonthText(s))
    ensures r.Ok? ==> 1 <= r.value <= 12 && StartsWith(MonthNames[r.value - 1], MonthText(s))
    ensures r.Ok? ==> forall j :: 0 <= j < r.value - 1 ==> !StartsWith(MonthNames[j], MonthText(s))
    ensures r.Err? ==> r.error == "invalid month `" + s + "'"
  {
    ReadMonth(MonthText(s), s)
  }

  /** The loop over the month names, on the normalised text `val`; the error quotes the original text `s`. */
  function ReadMonth(val: string, s: string): (r: Result<nat>)
    ensures r.Ok? <==> |val| >= 3 && exists j :: 0 <= j < |MonthNames| && StartsWith(MonthNames[j], val)
    ensures r.Ok? ==> 1 <= r.value <= 12 && StartsWith(MonthNames[r.value - 1], val)
    ensures r.Ok? ==> forall j :: 0 <= j < r.value - 1 ==> !StartsWith(MonthNames[j], val)
  {
    var found := FindMonth(val, 0);
    if |val| < 3 || found.None? then Err("invalid month `" + s + "'") else Ok(found.value + 1)
  }

  /** A lower-case word has no white space or dots to strip and nothing to lower-case. */
  lemma {:induction false} LowerWordText(w: string)
    requires w != [] && forall k :: 0 <= k < |w| ==> 'a' <= w[k] <= 'z'
    ensures MonthText(w) == w
  {
    Unstripped(w, Whitespace);
    Unstripped(w, {'.'});
    assert Lower(w) == w;
  }

  /** The first three letters of each month, the shortest text `ParseMonth` accepts. */
  const MonthAbbrevs: seq<string> := ["jan", "feb", "mar", "apr", "may", "jun", "jul", "aug", "sep", "oct", "nov", "dec"]

  /** Every month name is a lower-case word of three letters or more, starting with its abbreviation. */
  lemma {:induction false} MonthNamesLower(i: nat)
    requires i < |MonthNames|
    ensures |MonthNames[i]| >= 3 && forall k :: 0 <= k < |MonthNames[i]| ==> 'a' <= MonthNames[i][k] <= 'z'
    ensures MonthNames[i][..3] == MonthAbbrevs[i]
  {
  }

  /** The twelve abbreviations are distinct. */
  lemma {:induction false} AbbrevsDistinct(i: nat, j: nat)
    requires j < i < |MonthAbbrevs|
    ensures MonthAbbrevs[i] != MonthAbbrevs[j]
  {
    assert MonthAbbrevs[i][0] != MonthAbbrevs[j][0] || MonthAbbrevs[i][1] != MonthAbbrevs[j][1] || MonthAbbrevs[i][2] != MonthAbbrevs[j][2];
  }

  /** No month name starts with three or more letters of a later month. */
  lemma {:induction false} NoEarlierPrefix(i: nat, j: nat, w: string)
    requires j < i < |MonthNames| && |w| >= 3 && StartsWith(MonthNames[i], w)
    ensures !StartsWith(MonthNames[j], w)
  {
    MonthNamesLower(i);
    MonthNamesLower(j);
    AbbrevsDistinct(i, j);
    assert w[..3] == MonthNames[i][..3];
  }

  /** The search from `k` stops at the first month the text prefixes. */
  lemma {:induction false} FindFrom(val: string, i: nat, k: nat)
    requires k <= i < |MonthNames| && StartsWith(MonthNames[i], val)
    requires forall j :: k <= j < i ==> !StartsWith(MonthNames[j], val)
    ensures FindMonth(val, k) == Some(i)
    decreases i - k
  {
    if k < i {
      FindFrom(val, i, k + 1);
    }
  }

  /** A month's full name, or any prefix of it of three letters or more, reads as that month. */
  lemma {:induction false} MonthPrefixParses(i: nat, w: string)
    requires i < |MonthNames| && |w| >= 3 && StartsWith(MonthNames[i], w)
    ensures ParseMonth(w) == Ok(i + 1)
  {
    PrefixText(i, w);
    ParsesAt(w, i, w);
  }

  lemma {:induction false} PrefixText(i: nat, w: string)
    requires i < |MonthNames| && |w| >= 3 && StartsWith(MonthNames[i], w)
    ensures MonthText(w) == w
  {
    MonthNamesLower(i);
    assert forall k :: 0 <= k < |w| ==> w[k] == MonthNames[i][k];
    LowerWordText(w);
  }

  lemma {:induction false} FirstPrefixed(i: nat, w: string)
    requires i < |MonthNames| && |w| >= 3 && StartsWith(MonthNames[i], w)
    ensures forall j :: 0 <= j < i ==> !StartsWith(MonthNames[j], w)
  {
    forall j | 0 <= j < i ensures !StartsWith(MonthNames[j], w) {
      NoEarlierPrefix(i, j, w);
    }
  }

  /** A text of three letters or more that prefixes month `i` gives `i + 1`. */
  lemma {:induction false} ParsesAt(w: string, i: nat, s: string)
    requires i < |MonthNames| && |w| >= 3 && StartsWith(MonthNames[i], w)
    ensures ReadMonth(w, s) == Ok(i + 1)
  {
    FirstPrefixed(i, w);
    FindFrom(w, i, 0);
  }
}
