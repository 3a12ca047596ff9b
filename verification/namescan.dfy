/**
 * The scanning half of BibTeX's name parser (`NameParser` in bibsearch/bibutils.py): the
 * brace depth recorded at every character, the split of a string at the matches of a
 * separator pattern that lie at brace depth 0, and the "first character" of a token in
 * BibTeX's sense.
 */
module NameScan {
  import opened Wrappers
  import opened Strings
  import Casing
  import TeX

  /** Brace level after the first `k` characters: opening braces minus closing braces. */
  function Level(data: string, k: nat): int
    requires k <= |data|
  {
    if k == 0 then 0
    else Level(data, k - 1) + (if data[k - 1] == '{' then 1 else if data[k - 1] == '}' then -1 else 0)
  }

  /** The depth `__depth` records at `i`: the level before it, or after it for an opening brace. */
  function RecordedDepth(data: string, i: nat): int
    requires i < |data|
  {
    if data[i] == '{' then Level(data, i + 1) else Level(data, i)
  }

  /** The whole list `__depth(data)`. */
  function DepthSeq(data: string): (d: seq<int>)
    ensures |d| == |data| && forall i :: 0 <= i < |data| ==> d[i] == RecordedDepth(data, i)
  {
    seq(|data|, i requires 0 <= i < |data| => RecordedDepth(data, i))
  }

  /** `__depth(data)`: one pass that fills a list of depths as large as the string. */
  method Depths(data: string) returns (depths: array<int>)
    ensures fresh(depths) && depths[..] == DepthSeq(data)
  {
    depths := new int[|data|](_ => 0);
    var depth := 0;
    var pos := 0;
    while pos < |data|
      invariant 0 <= pos <= |data| && depth == Level(data, pos)
      invariant forall j :: 0 <= j < pos ==> depths[j] == RecordedDepth(data, j)
    {
      depths[pos] := depth;
      if data[pos] == '{' {
        depth := depth + 1;
        depths[pos] := depth;
      } else if data[pos] == '}' {
        depth := depth - 1;
      }
      pos := pos + 1;
    }
  }

  /**
   * The three separator patterns the parser splits with: ` and ` between names (any
   * case, white space on both sides, the trailing one not consumed), the comma between
   * name parts, and a run of connectors (`-`, `~`, space, tab) between tokens, whose
   * first character is kept as a group.
   */
  datatype Separator = AndSep | CommaSep | TokenSep

  const HorizontalSpace: set<char> := {' ', '\t'}
  const Connectors: set<char> := {'-', '~', ' ', '\t'}

  /** Length of the leading run of connectors. */
  function ConnectorRun(t: string): (n: nat)
    ensures n <= |t| && forall k :: 0 <= k < n ==> t[k] in Connectors
    decreases |t|
  {
    if t != [] && t[0] in Connectors then 1 + ConnectorRun(t[1..]) else 0
  }

  /** The length of the separator match starting at `i`, 0 when the pattern does not match there. */
  function MatchLength(sep: Separator, data: string, i: nat): (n: nat)
    requires i <= |data|
    ensures i + n <= |data|
    ensures n > 0 ==> i < |data|
    ensures sep == CommaSep ==> (n > 0 <==> i < |data| && data[i] == ',') && n <= 1
    ensures sep == TokenSep ==> (n > 0 <==> i < |data| && data[i] in Connectors)
  {
    match sep
    case AndSep =>
      if i + 4 < |data| && data[i] in HorizontalSpace && Lower(data[i + 1..i + 4]) == "and" && data[i + 4] in HorizontalSpace
      then 4 else 0
    case CommaSep => if i < |data| && data[i] == ',' then 1 else 0
    case TokenSep => if i < |data| && data[i] in Connectors then 1 + ConnectorRun(data[i + 1..]) else 0
  }

  /** The groups of the match at `i`: the first connector for the token pattern, none otherwise. */
  function Groups(sep: Separator, data: string, i: nat): seq<string>
    requires i < |data|
  {
    if sep == TokenSep then [[data[i]]] else []
  }

  /**
   * `__split_depth0` from scan position `i`, the current part starting at `last`: the
   * matches are found left to right without overlapping, and only those at depth 0 split.
   */
  function SplitFrom(sep: Separator, data: string, depths: seq<int>, i: nat, last: nat): (parts: seq<string>)
    requires last <= i <= |data| && |depths| == |data|
    ensures |parts| >= 1
    decreases |data| - i
  {
    if i == |data| then [data[last..]]
    else
      var n := MatchLength(sep, data, i);
      if n == 0 then SplitFrom(sep, data, depths, i + 1, last)
      else if depths[i] == 0 then [data[last..i]] + Groups(sep, data, i) + SplitFrom(sep, data, depths, i + n, i + n)
      else SplitFrom(sep, data, depths, i + n, last)
  }

  /** The parts of `data` split at the depth-0 matches of `sep`. */
  function SplitAtDepth0(sep: Separator, data: string): (parts: seq<string>)
    ensures |parts| >= 1
  {
    SplitFrom(sep, data, DepthSeq(data), 0, 0)
  }

  /** `__split_depth0(regexp, data)`: the loop over the matches of the separator. */
  method SplitDepth0(sep: Separator, data: string) returns (parts: seq<string>)
    ensures parts == SplitAtDepth0(sep, data)
  {
    var depthArray := Depths(data);
    var depths := depthArray[..];
    parts := [];
    var last: nat, i: nat := 0, 0;
    while i < |data|
      invariant last <= i <= |data| && depths == DepthSeq(data)
      invariant parts + SplitFrom(sep, data, depths, i, last) == SplitAtDepth0(sep, data)
      decreases |data| - i
    {
      parts, i, last := SplitStep(sep, data, depths, parts, i, last);
    }
    parts := parts + [data[last..]];
  }

  /** One match (or non-match) of the scan: a depth-0 match closes the current part. */
  method SplitStep(sep: Separator, data: string, depths: seq<int>, parts: seq<string>, i: nat, last: nat)
      returns (parts': seq<string>, i': nat, last': nat)
    requires last <= i < |data| == |depths|
    ensures last' <= i' <= |data| && i < i'
    ensures parts' + SplitFrom(sep, data, depths, i', last') == parts + SplitFrom(sep, data, depths, i, last)
  {
    var n := MatchLength(sep, data, i);
    if n == 0 || depths[i] != 0 {
      parts', i', last' := parts, if n == 0 then i + 1 else i + n, last;
      SplitPastNonMatch(sep, data, depths, i, last, i');
    } else {
      SplitAtMatch(sep, data, depths, i, last, parts);
      parts', i', last' := parts + ([data[last..i]] + Groups(sep, data, i)), i + n, i + n;
    }
  }

  /** A position without a match, or with a match inside braces, leaves the current part open. */
  lemma {:induction false} SplitPastNonMatch(sep: Separator, data: string, depths: seq<int>, i: nat, last: nat, k: nat)
    requires last <= i < |data| && |depths| == |data|
    requires (MatchLength(sep, data, i) == 0 && k == i + 1) || (depths[i] != 0 && k == i + MatchLength(sep, data, i) > i)
    ensures SplitFrom(sep, data, depths, i, last) == SplitFrom(sep, data, depths, k, last)
  {
  }

  /** One depth-0 match closes the current part and appends the match's groups. */
  lemma {:induction false} SplitAtMatch(sep: Separator, data: string, depths: seq<int>, i: nat, last: nat, parts: seq<string>)
    requires last <= i < |data| && |depths| == |data| && depths[i] == 0 && MatchLength(sep, data, i) > 0
    ensures parts + SplitFrom(sep, data, depths, i, last)
         == (parts + ([data[last..i]] + Groups(sep, data, i))) + SplitFrom(sep, data, depths, i + MatchLength(sep, data, i), i + MatchLength(sep, data, i))
  {
  }

  /** Positions where the separator does not match leave the scan unchanged. */
  lemma {:induction false} SkipNoMatch(sep: Separator, data: string, depths: seq<int>, i: nat, k: nat, last: nat)
    requires last <= i <= k <= |data| == |depths|
    requires forall j :: i <= j < k ==> MatchLength(sep, data, j) == 0
    ensures SplitFrom(sep, data, depths, i, last) == SplitFrom(sep, data, depths, k, last)
    decreases k - i
  {
    if i < k {
      SkipNoMatch(sep, data, depths, i + 1, k, last);
    }
  }

  /** No brace at all: every position is at depth 0. */
  predicate Braceless(s: string) {
    forall j :: 0 <= j < |s| ==> s[j] != '{' && s[j] != '}'
  }

  lemma {:induction false} BracelessConcat(a: string, b: string)
    requires Braceless(a) && Braceless(b)
    ensures Braceless(a + b)
  {
    forall j | 0 <= j < |a + b|
      ensures (a + b)[j] != '{' && (a + b)[j] != '}'
    {
      if j >= |a| {
        assert (a + b)[j] == b[j - |a|];
      }
    }
  }

  /** Without braces every recorded depth is 0. */
  lemma {:induction false} FlatLevel(data: string, k: nat)
    requires k <= |data| && Braceless(data)
    ensures Level(data, k) == 0
  {
    if k > 0 {
      FlatLevel(data, k - 1);
    }
  }

  /** One brace group spanning the whole string, with no brace inside. */
  predicate BraceGroup(data: string) {
    |data| >= 2 && data[0] == '{' && data[|data| - 1] == '}'
    && forall j :: 0 < j < |data| - 1 ==> data[j] != '{' && data[j] != '}'
  }

  lemma {:induction false} BraceGroupOf(x: string)
    requires Braceless(x)
    ensures BraceGroup("{" + x + "}")
  {
    var data := "{" + x + "}";
    assert forall j :: 0 < j < |data| - 1 ==> data[j] == x[j - 1];
  }

  /** Inside a brace group that opens the string and closes at its end, every recorded depth is positive. */
  lemma {:induction false} GroupLevel(data: string, k: nat)
    requires BraceGroup(data)
    requires 1 <= k < |data|
    ensures Level(data, k) == 1
  {
    if k > 1 {
      GroupLevel(data, k - 1);
    }
  }

  /** On a brace-free string the comma split is Python's `str.split(',')`. */
  lemma {:induction false} CommaSplitFlat(data: string, i: nat, last: nat)
    requires last <= i <= |data|
    requires Braceless(data)
    requires forall j :: last <= j < i ==> data[j] != ','
    ensures SplitFrom(CommaSep, data, DepthSeq(data), i, last) == Split(data[last..], ',')
    decreases |data| - i
  {
    var d := DepthSeq(data);
    if i == |data| {
      CommaFree(data, last);
    } else if data[i] != ',' {
      SplitPastNonMatch(CommaSep, data, d, i, last, i + 1);
      CommaSplitFlat(data, i + 1, last);
    } else {
      CommaSplitFlat(data, i + 1, i + 1);
      CommaStep(data, i, last);
    }
  }

  /** The last part, which holds no comma. */
  lemma {:induction false} CommaFree(data: string, last: nat)
    requires last <= |data| && forall j :: last <= j < |data| ==> data[j] != ','
    ensures SplitFrom(CommaSep, data, DepthSeq(data), |data|, last) == Split(data[last..], ',')
  {
    var rest := data[last..];
    assert IndexOf(rest, ',').None? by {
      forall j | 0 <= j < |rest| ensures rest[j] != ',' {
        assert rest[j] == data[last + j];
      }
    }
  }

  /** A comma at depth 0 closes the part that started at `last`, as `str.split` does. */
  lemma {:induction false} CommaStep(data: string, i: nat, last: nat)
    requires last <= i < |data| && data[i] == ','
    requires Braceless(data)
    requires forall j :: last <= j < i ==> data[j] != ','
    requires SplitFrom(CommaSep, data, DepthSeq(data), i + 1, i + 1) == Split(data[i + 1..], ',')
    ensures SplitFrom(CommaSep, data, DepthSeq(data), i, last) == Split(data[last..], ',')
  {
    CommaAtDepth0(data, i, last);
    FirstCommaAt(data, i, last);
  }

  /** Without braces a comma closes the open part. */
  lemma {:induction false} CommaAtDepth0(data: string, i: nat, last: nat)
    requires last <= i < |data| && data[i] == ',' && Braceless(data)
    ensures SplitFrom(CommaSep, data, DepthSeq(data), i, last)
         == [data[last..i]] + SplitFrom(CommaSep, data, DepthSeq(data), i + 1, i + 1)
  {
    var d := DepthSeq(data);
    FlatLevel(data, i);
    assert d[i] == 0;
    SplitAtMatch(CommaSep, data, d, i, last, []);
    assert [] + SplitFrom(CommaSep, data, d, i, last) == SplitFrom(CommaSep, data, d, i, last);
  }

  /** `str.split(',')` of a string whose first comma is at `i`. */
  lemma {:induction false} FirstCommaAt(data: string, i: nat, last: nat)
    requires last <= i < |data| && data[i] == ','
    requires forall j :: last <= j < i ==> data[j] != ','
    ensures Split(data[last..], ',') == [data[last..i]] + Split(data[i + 1..], ',')
  {
    var rest := data[last..];
    assert IndexOf(rest, ',') == Some(i - last) by {
      forall j | 0 <= j < i - last ensures rest[j] != ',' {
        assert rest[j] == data[last + j];
      }
    }
    SplitAtIndex(rest, ',', i - last);
    assert rest[..i - last] == data[last..i] && rest[i - last + 1..] == data[i + 1..];
  }

  /** A brace-free string splits at its commas exactly as `str.split(',')` would. */
  lemma {:induction false} CommaSplitIsSplit(data: string)
    requires Braceless(data)
    ensures SplitAtDepth0(CommaSep, data) == Split(data, ',')
  {
    CommaSplitFlat(data, 0, 0);
    assert data[0..] == data;
  }

  /** Matches inside a brace group are skipped: the scan from `i` keeps the part that started at `last`. */
  lemma {:induction false} NoSplitInGroup(sep: Separator, data: string, i: nat, last: nat)
    requires BraceGroup(data)
    requires last <= i <= |data| && 1 <= i
    ensures SplitFrom(sep, data, DepthSeq(data), i, last) == [data[last..]]
    decreases |data| - i
  {
    if i == |data| {
      SplitAtEnd(sep, data, DepthSeq(data), last);
    } else {
      var n := MatchLength(sep, data, i);
      var k := if n > 0 then i + n else i + 1;
      GroupSkip(sep, data, i, last, k);
      NoSplitInGroup(sep, data, k, last);
    }
  }

  /** At the end of the string the open part is the last one. */
  lemma {:induction false} SplitAtEnd(sep: Separator, data: string, depths: seq<int>, last: nat)
    requires last <= |data| == |depths|
    ensures SplitFrom(sep, data, depths, |data|, last) == [data[last..]]
  {
  }

  /** Inside the group a match is at depth 1 and is stepped over like a non-match. */
  lemma {:induction false} GroupSkip(sep: Separator, data: string, i: nat, last: nat, k: nat)
    requires BraceGroup(data)
    requires last <= i < |data| && 1 <= i
    requires k == if MatchLength(sep, data, i) > 0 then i + MatchLength(sep, data, i) else i + 1
    ensures SplitFrom(sep, data, DepthSeq(data), i, last) == SplitFrom(sep, data, DepthSeq(data), k, last)
  {
    var d := DepthSeq(data);
    if MatchLength(sep, data, i) > 0 {
      GroupLevel(data, i);
      assert d[i] == 1;
    }
    SplitPastNonMatch(sep, data, d, i, last, k);
  }

  /** A string that is one brace group, such as `{Barnes and Noble, Inc.}`, is never split. */
  lemma {:induction false} BracedNotSplit(sep: Separator, data: string)
    requires BraceGroup(data)
    ensures SplitAtDepth0(sep, data) == [data]
  {
    assert MatchLength(sep, data, 0) == 0;
    NoSplitInGroup(sep, data, 1, 0);
    assert data[0..] == data;
  }

  /**
   * `str.isalpha()` on the characters the model distinguishes: ASCII letters, the letters
   * of Latin-1 and the letters BibTeX's control sequences stand for.
   */
  predicate IsAlpha(c: char) {
    IsAsciiLetter(c) || ('\U{00C0}' <= c <= '\U{00FF}' && c != '\U{00D7}' && c != '\U{00F7}') || c in Casing.ControlSeqs.Values
  }

  /** `str.islower()` on a one-character string, for the same characters. */
  predicate IsLowerInitial(s: string) {
    |s| == 1 && ('a' <= s[0] <= 'z' || ('\U{00DF}' <= s[0] <= '\U{00FF}' && s[0] != '\U{00F7}')
      || s[0] in {'\U{0131}', '\U{0237}', '\U{0153}', '\U{0142}'})
  }

  /** The outcome of one round of `_first_char`'s loop: a result, or the position to go on from. */
  datatype Scan = Found(c: string) | Continue(pos: nat)

  /** The first position from `p` on whose recorded depth is 0 (or the end): the skip over a brace group. */
  function SkipGroup(data: string, depths: seq<int>, p: nat): (q: nat)
    requires p <= |data| == |depths|
    ensures p <= q <= |data| && (q < |data| ==> depths[q] == 0)
    ensures forall k :: p <= k < q ==> depths[k] != 0
    decreases |data| - p
  {
    if p == |data| || depths[p] == 0 then p else SkipGroup(data, depths, p + 1)
  }

  /** The scan inside a special character for its first letter, which stops where the depth returns to 0. */
  function ScanSpecial(data: string, depths: seq<int>, p: nat): (r: Scan)
    requires p <= |data| == |depths|
    ensures r.Continue? ==> p <= r.pos <= |data| && (r.pos < |data| ==> depths[r.pos] == 0)
    ensures r.Found? ==> |r.c| == 1 && IsAlpha(r.c[0])
    decreases |data| - p
  {
    if p == |data| || depths[p] == 0 then Continue(p)
    else if IsAlpha(data[p]) then Found([data[p]])
    else ScanSpecial(data, depths, p + 1)
  }

  /** A special character `{\cs...}` at `p - 1`: the letter of a known control sequence, else the first letter inside. */
  function SpecialStep(data: string, depths: seq<int>, p: nat): (r: Scan)
    requires 0 < p <= |data| == |depths|
    ensures r.Continue? ==> p <= r.pos <= |data|
    ensures r.Found? ==> |r.c| == 1 && IsAlpha(r.c[0])
  {
    var n := Casing.CsLength(data[p..]);
    if n > 0 && data[p..p + n] in Casing.ControlSeqs then Found([Casing.ControlSeqs[data[p..p + n]]])
    else ScanSpecial(data, depths, p)
  }

  /** One round of the loop at `pos`, with a brace group always skipped past its opening brace. */
  function FirstCharStep(data: string, depths: seq<int>, pos: nat): (r: Scan)
    requires pos < |data| == |depths|
    ensures r.Continue? ==> pos < r.pos <= |data|
    ensures r.Found? ==> |r.c| == 1 && IsAlpha(r.c[0])
  {
    if IsAlpha(data[pos]) then Found([data[pos]])
    else if StartsWith(data[pos..], "{\\") then SpecialStep(data, depths, pos + 1)
    else if data[pos] == '{' then Continue(SkipGroup(data, depths, pos + 1))
    else Continue(pos + 1)
  }

  /** One round of the loop as written: the brace-group skip starts at the brace itself. */
  function FirstCharStepAsWritten(data: string, depths: seq<int>, pos: nat): (r: Scan)
    requires pos < |data| == |depths|
    ensures r.Continue? ==> pos <= r.pos <= |data|
  {
    if !IsAlpha(data[pos]) && !StartsWith(data[pos..], "{\\") && data[pos] == '{'
    then Continue(SkipGroup(data, depths, pos))
    else FirstCharStep(data, depths, pos)
  }

  /** The rounds from `pos` on. */
  function FirstCharFrom(data: string, depths: seq<int>, pos: nat): (r: string)
    requires pos <= |data| == |depths|
    ensures r == "" || (|r| == 1 && IsAlpha(r[0]))
    decreases |data| - pos
  {
    if pos == |data| then ""
    else match FirstCharStep(data, depths, pos)
      case Found(c) => c
      case Continue(q) => FirstCharFrom(data, depths, q)
  }

  /** The first character of a token in BibTeX's sense. */
  function FirstCharOf(data: string): string {
    FirstCharFrom(data, DepthSeq(data), 0)
  }

  /** `_first_char(data)`, with the brace-group skip corrected to pass the opening brace. */
  method FirstChar(data: string) returns (c: string)
    ensures c == FirstCharOf(data)
  {
    var depthArray := Depths(data);
    var depths := depthArray[..];
    var pos: nat := 0;
    while pos < |data|
      invariant pos <= |data| && depths == DepthSeq(data)
      invariant FirstCharFrom(data, depths, pos) == FirstCharOf(data)
      decreases |data| - pos
    {
      var r := Round(data, depths, pos);
      if r.Found? {
        return r.c;
      }
      pos := r.pos;
    }
    return "";
  }

  /** One round of `_first_char`'s loop at `pos`. */
  method Round(data: string, depths: seq<int>, pos: nat) returns (r: Scan)
    requires pos < |data| == |depths|
    ensures r == FirstCharStep(data, depths, pos)
  {
    if IsAlpha(data[pos]) {
      r := Found([data[pos]]);
    } else if StartsWith(data[pos..], "{\\") {
      var n := Casing.CsLength(data[pos + 1..]);
      if n > 0 && data[pos + 1..pos + 1 + n] in Casing.ControlSeqs {
        r := Found([Casing.ControlSeqs[data[pos + 1..pos + 1 + n]]]);
      } else {
        r := ScanSpecialLoop(data, depths, pos + 1);
      }
    } else if data[pos] == '{' {
      var q := SkipGroupLoop(data, depths, pos + 1);
      r := Continue(q);
    } else {
      r := Continue(pos + 1);
    }
  }

  /** The inner loop over a special character, looking for its first letter. */
  method ScanSpecialLoop(data: string, depths: seq<int>, p: nat) returns (r: Scan)
    requires p <= |data| == |depths|
    ensures r == ScanSpecial(data, depths, p)
  {
    var pos := p;
    while pos < |data| && depths[pos] != 0
      invariant p <= pos <= |data|
      invariant ScanSpecial(data, depths, p) == ScanSpecial(data, depths, pos)
      decreases |data| - pos
    {
      if IsAlpha(data[pos]) {
        return Found([data[pos]]);
      }
      pos := pos + 1;
    }
    r := Continue(pos);
  }

  /** The inner loop that skips the rest of a brace group. */
  method SkipGroupLoop(data: string, depths: seq<int>, p: nat) returns (q: nat)
    requires p <= |data| == |depths|
    ensures q == SkipGroup(data, depths, p)
  {
    q := p;
    while q < |data| && depths[q] != 0
      invariant p <= q <= |data|
      invariant SkipGroup(data, depths, p) == SkipGroup(data, depths, q)
      decreases |data| - q
    {
      q := q + 1;
    }
  }

  /** Where the depth at an opening brace is positive, the corrected round and the round as written agree. */
  lemma {:induction false} AsWrittenAgrees(data: string, depths: seq<int>, pos: nat)
    requires pos < |data| == |depths| && depths[pos] != 0
    ensures FirstCharStepAsWritten(data, depths, pos) == FirstCharStep(data, depths, pos)
  {
  }

  /**
   * As written, an opening brace at recorded depth 0 (one that follows an unmatched
   * closing brace) leaves the position where it is, so the loop never ends.
   */
  lemma {:induction false} AsWrittenStuck(data: string, depths: seq<int>, pos: nat)
    requires pos < |data| == |depths| && depths[pos] == 0
    requires data[pos] == '{' && (pos + 1 == |data| || data[pos + 1] != '\\')
    ensures FirstCharStepAsWritten(data, depths, pos) == Continue(pos)
  {
  }

  /** On `}{a` the loop as written goes from position 0 to 1 and stays there; the corrected one finds `a`. */
  lemma {:induction false} UnmatchedBraceLoops(data: string)
    requires data == "}{a"
    ensures DepthSeq(data) == [0, 0, 0]
    ensures FirstCharStepAsWritten(data, DepthSeq(data), 0) == Continue(1)
    ensures FirstCharStepAsWritten(data, DepthSeq(data), 1) == Continue(1)
    ensures FirstCharOf(data) == "a"
  {
    var d := DepthSeq(data);
    assert Level(data, 1) == -1 && Level(data, 2) == 0 && Level(data, 3) == 0;
    assert d == [0, 0, 0];
    assert !IsAlpha(data[0]) && !IsAlpha(data[1]) && IsAlpha(data[2]);
    assert FirstCharStep(data, d, 0) == Continue(1);
    assert FirstCharStep(data, d, 1) == Continue(2);
    assert FirstCharFrom(data, d, 2) == "a";
    assert FirstCharFrom(data, d, 1) == "a";
  }

  /** The first letter of a string, `""` when it has none. */
  function FirstLetter(s: string): (r: string)
    ensures r == "" || (|r| == 1 && IsAlpha(r[0]))
  {
    if s == [] then "" else if IsAlpha(s[0]) then [s[0]] else FirstLetter(s[1..])
  }

  /** Without opening braces, the first character of a token is its first letter. */
  lemma {:induction false} FirstCharNoBraces(data: string, pos: nat)
    requires pos <= |data| && forall k :: 0 <= k < |data| ==> data[k] != '{'
    ensures FirstCharFrom(data, DepthSeq(data), pos) == FirstLetter(data[pos..])
    decreases |data| - pos
  {
    if pos < |data| {
      var d := DepthSeq(data);
      assert data[pos..][0] == data[pos] != '{';
      assert !StartsWith(data[pos..], "{\\");
      if IsAlpha(data[pos]) {
        assert FirstCharStep(data, d, pos) == Found([data[pos]]);
      } else {
        assert FirstCharStep(data, d, pos) == Continue(pos + 1);
        FirstCharNoBraces(data, pos + 1);
        assert data[pos..][1..] == data[pos + 1..];
      }
    }
  }

  /** A token without braces starts, for the parser, with its first letter. */
  lemma {:induction false} FirstCharPlain(data: string)
    requires forall k :: 0 <= k < |data| ==> data[k] != '{'
    ensures FirstCharOf(data) == FirstLetter(data)
  {
    FirstCharNoBraces(data, 0);
    assert data[0..] == data;
  }

  /** A special character that starts with a known control sequence, such as `{\o}rsted`, starts with that sequence's letter. */
  lemma {:induction false} FirstCharKnownSequence(data: string, cs: string)
    requires cs in Casing.ControlSeqs && |data| > |cs| && data[0] == '{' && data[1..|cs| + 1] == cs
    requires |data| == |cs| + 1 || !IsAsciiLetter(data[|cs| + 1])
    ensures FirstCharOf(data) == [Casing.ControlSeqs[cs]]
  {
    var d := DepthSeq(data);
    assert !IsAlpha(data[0]);
    assert data[1] == '\\' by { assert data[1..|cs| + 1][0] == cs[0]; }
    assert data[..2] == "{\\";
    var t := data[1..];
    assert t[..|cs|] == cs;
    CsOfKnown(t, cs);
    assert FirstCharStep(data, d, 0) == Found([Casing.ControlSeqs[cs]]);
  }

  /** The control sequence read from `t` is `cs` when `t` starts with `cs` and no letter follows. */
  lemma {:induction false} CsOfKnown(t: string, cs: string)
    requires cs in Casing.ControlSeqs && |t| >= |cs| && t[..|cs|] == cs
    requires |t| == |cs| || !IsAsciiLetter(t[|cs|])
    ensures Casing.CsLength(t) == |cs|
  {
    assert cs[0] == '\\' && |cs| >= 2 && forall k :: 1 <= k < |cs| ==> IsAsciiLetter(cs[k]);
    TeX.LetterRunOf(t[1..], |cs| - 1);
  }
}
