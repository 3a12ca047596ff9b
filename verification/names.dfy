/**
 * `NameParser.parse` and `Name`: a BibTeX name list is split into names at depth-0
 * ` and `, each name into parts at depth-0 commas and each part into tokens at runs of
 * connectors; the number of parts decides which tokens are the first, von, last and jr
 * parts of the name.
 */
module Names {
  import opened Wrappers
  import opened Strings
  import opened NameScan

  /** A parsed name; every part is kept in TeX form, and a missing part is empty. */
  datatype Name = Name(first: string, von: string, last: string, jr: string) {
    /** The pseudo-name `others` of `Smith and others`. */
    predicate IsOthers() {
      first == "" && von == "" && last == "others" && jr == ""
    }
  }

  /** Characters stripped from the front of a name, and from its end (with the comma). */
  const LeadStrip: set<char> := {'-', '~', ' ', '\t'}
  const TrailStrip: set<char> := {'-', '~', ' ', '\t', ','}

  /** The tokens of one comma-separated part: words alternating with the first connector between them. */
  function Tokens(part: string): (toks: seq<string>)
    ensures |toks| >= 1
  {
    SplitAtDepth0(TokenSep, Strip(part))
  }

  /** The comma-separated parts of a name, each split into tokens. */
  function NameParts(name: string): (parts: seq<seq<string>>)
    ensures |parts| == |SplitAtDepth0(CommaSep, name)|
    ensures forall i :: 0 <= i < |parts| ==> parts[i] == Tokens(SplitAtDepth0(CommaSep, name)[i])
  {
    var ps := SplitAtDepth0(CommaSep, name);
    seq(|ps|, i requires 0 <= i < |ps| => Tokens(ps[i]))
  }

  /** The first even index from `i` on, short of the last word, of a token that starts with a lower-case letter. */
  function VonStart(toks: seq<string>, i: nat): (r: Option<nat>)
    requires i % 2 == 0
    ensures r.Some? ==> i <= r.value && r.value % 2 == 0 && r.value + 2 < |toks| && IsLowerInitial(FirstCharOf(toks[r.value]))
    ensures r.Some? ==> forall j :: i <= j < r.value && j % 2 == 0 ==> !IsLowerInitial(FirstCharOf(toks[j]))
    ensures r.None? ==> forall j :: i <= j && j + 2 < |toks| && j % 2 == 0 ==> !IsLowerInitial(FirstCharOf(toks[j]))
    decreases |toks| - i
  {
    if i + 2 >= |toks| then None
    else if IsLowerInitial(FirstCharOf(toks[i])) then Some(i)
    else VonStart(toks, i + 2)
  }

  /** The last von word: the largest `e` of the same parity as `end`, and above 1, whose token `e - 2` starts in lower case. */
  function VonEnd(toks: seq<string>, end: int): (r: Option<nat>)
    requires end < |toks|
    ensures r.Some? ==> 2 <= r.value <= end && (end - r.value) % 2 == 0 && IsLowerInitial(FirstCharOf(toks[r.value - 2]))
    ensures r.Some? ==> forall j :: r.value - 2 < j <= end - 2 && (end - 2 - j) % 2 == 0 ==> !IsLowerInitial(FirstCharOf(toks[j]))
    ensures r.None? ==> forall j :: 0 <= j <= end - 2 && (end - 2 - j) % 2 == 0 ==> !IsLowerInitial(FirstCharOf(toks[j]))
    decreases end
  {
    if end <= 1 then None
    else if IsLowerInitial(FirstCharOf(toks[end - 2])) then Some(end)
    else
      var r := VonEnd(toks, end - 2);
      var lo := if r.Some? then r.value - 2 else -1;
      assert forall j :: lo < j <= end - 2 && (end - 2 - j) % 2 == 0 ==> !IsLowerInitial(FirstCharOf(toks[j])) by {
        forall j | lo < j <= end - 2 && (end - 2 - j) % 2 == 0
          ensures !IsLowerInitial(FirstCharOf(toks[j]))
        {
          if j < end - 2 {
            assert j <= end - 4 && (end - 4 - j) % 2 == 0;
          }
        }
      }
      r
  }

  /** `__split_von_last`: the von tokens and the last-name tokens of the tokens from the first von word on. */
  function SplitVonLast(toks: seq<string>): (r: (seq<string>, seq<string>))
    ensures r.0 == [] ==> r.1 == toks || (|r.1| < |toks| && toks[|toks| - |r.1|..] == r.1)
    ensures r.0 != [] ==> exists e :: 2 <= e < |toks| && r == (toks[..e - 1], toks[e..])
  {
    match VonEnd(toks, |toks| - 1)
    case Some(e) => (toks[..e - 1], toks[e..])
    case None => ([], toks)
  }

  /** Where the last name starts when there is no von part: after the last connector that is not a hyphen. */
  function LastStart(toks: seq<string>, l: nat): (r: nat)
    requires l < |toks|
    ensures r <= l && (l - r) % 2 == 0
    ensures r >= 2 ==> toks[r - 1] != "-"
    ensures forall j :: r <= j < l && (l - 1 - j) % 2 == 0 ==> toks[j] == "-"
    decreases l
  {
    if l != 0 && toks[l - 1] != "-" then l
    else if l < 2 then l
    else LastStart(toks, l - 2)
  }

  /** `max(0, n - 1)`. */
  function Before(n: nat): nat {
    if n == 0 then 0 else n - 1
  }

  /** The name of one part, "First von Last". */
  function FirstVonLast(toks: seq<string>): (n: Name)
    requires |toks| >= 1
    ensures n.jr == ""
  {
    match VonStart(toks, 0)
    case Some(v) =>
      var (von, last) := SplitVonLast(toks[v..]);
      Name(Concat(toks[..Before(v)]), Concat(von), Concat(last), "")
    case None =>
      var l := LastStart(toks, |toks| - 1);
      Name(Concat(toks[..Before(l)]), "", Concat(toks[l..]), "")
  }

  /** The name read from a stripped name string; an error with more than two depth-0 commas. */
  function ParseStripped(name: string): (r: Result<Name>)
    ensures r.Err? <==> |NameParts(name)| > 3
    ensures |NameParts(name)| == 1 ==> r == Ok(FirstVonLast(NameParts(name)[0]))
    ensures 2 <= |NameParts(name)| <= 3 ==> r.Ok? && r.value.first == Concat(NameParts(name)[1])
    ensures |NameParts(name)| == 2 ==> r.Ok? && r.value.jr == ""
    ensures |NameParts(name)| == 3 ==> r.Ok? && r.value.jr == Concat(NameParts(name)[2])
  {
    var parts := NameParts(name);
    if |parts| == 1 then Ok(FirstVonLast(parts[0]))
    else if |parts| <= 3 then
      var (von, last) := SplitVonLast(parts[0]);
      Ok(Name(Concat(parts[1]), Concat(von), Concat(last), if |parts| == 3 then Concat(parts[2]) else ""))
    else Err("too many commas in name `" + name + "'")
  }

  /** One name string, stripped of leading connectors and of trailing connectors and commas. */
  function ParseName(s: string): Result<Name> {
    ParseStripped(RStrip(LStrip(s, LeadStrip), TrailStrip))
  }

  /** The values of a list of results, or the first error among them. */
  function Collect(results: seq<Result<Name>>): (r: Result<seq<Name>>)
    ensures r.Ok? <==> forall i :: 0 <= i < |results| ==> results[i].Ok?
    ensures r.Ok? ==> |r.value| == |results| && forall i :: 0 <= i < |results| ==> r.value[i] == results[i].value
    ensures r.Err? ==> exists i :: 0 <= i < |results| && results[i] == Err(r.error) && forall j :: 0 <= j < i ==> results[j].Ok?
  {
    if results == [] then Ok([])
    else if results[0].Err? then Err(results[0].error)
    else
      var rest := Collect(results[1..]);
      assert forall i :: 1 <= i < |results| ==> results[1..][i - 1] == results[i];
      if rest.Err? then
        var k :| 0 <= k < |results[1..]| && results[1..][k] == Err(rest.error) && forall j :: 0 <= j < k ==> results[1..][j].Ok?;
        assert results[k + 1] == Err(rest.error);
        Err(rest.error)
      else Ok([results[0].value] + rest.value)
  }

  /** The names of a list of name strings, or the error of the first one that does not parse. */
  function ParseAll(names: seq<string>): (r: Result<seq<Name>>)
    ensures r.Ok? <==> forall i :: 0 <= i < |names| ==> ParseName(names[i]).Ok?
    ensures r.Ok? ==> |r.value| == |names| && forall i :: 0 <= i < |names| ==> r.value[i] == ParseName(names[i]).value
    ensures r.Err? ==> exists i :: 0 <= i < |names| && ParseName(names[i]) == Err(r.error)
  {
    Collect(NameResults(names))
  }

  /** The result of parsing each name string. */
  function NameResults(names: seq<string>): (results: seq<Result<Name>>)
    ensures |results| == |names| && forall i :: 0 <= i < |names| ==> results[i] == ParseName(names[i])
  {
    seq(|names|, i requires 0 <= i < |names| => ParseName(names[i]))
  }

  /** The names split at depth-0 ` and `, stripped of white space. */
  function NameStrings(s: string): (names: seq<string>)
    ensures |names| == |SplitAtDepth0(AndSep, s)|
    ensures forall i :: 0 <= i < |names| ==> names[i] == Strip(SplitAtDepth0(AndSep, s)[i])
  {
    var ns := SplitAtDepth0(AndSep, s);
    seq(|ns|, i requires 0 <= i < |ns| => Strip(ns[i]))
  }

  /** `NameParser().parse(s)`: one name per depth-0 ` and `, or the error of the first malformed name. */
  function ParseNames(s: string): (r: Result<seq<Name>>)
    ensures r.Ok? ==> |r.value| == |SplitAtDepth0(AndSep, s)|
    ensures r.Err? <==> exists i :: 0 <= i < |NameStrings(s)| && ParseName(NameStrings(s)[i]).Err?
  {
    ParseAll(NameStrings(s))
  }

  /** A plain word: no connector, white space, comma or brace. */
  predicate IsWord(w: string) {
    w != [] && forall k :: 0 <= k < |w| ==> w[k] !in Connectors && w[k] !in Whitespace && w[k] != ',' && w[k] != '{' && w[k] != '}'
  }

  lemma {:induction false} WordStrips(w: string)
    requires IsWord(w)
    ensures Strip(w) == w && LStrip(w, LeadStrip) == w && RStrip(w, TrailStrip) == w
  {
    Unstripped(w, Whitespace);
    Unstripped(w, LeadStrip);
    Unstripped(w, TrailStrip);
  }

  /** No separator matches inside a plain word. */
  lemma {:induction false} WordUnsplit(sep: Separator, w: string)
    requires IsWord(w)
    ensures SplitAtDepth0(sep, w) == [w]
  {
    forall j | 0 <= j < |w| ensures MatchLength(sep, w, j) == 0 {
      assert w[j] !in HorizontalSpace;
    }
    SkipNoMatch(sep, w, DepthSeq(w), 0, |w|, 0);
    assert w[0..] == w;
  }

  lemma {:induction false} ConcatOne(t: string)
    ensures Concat([t]) == t
  {
    assert [t][1..] == [];
  }

  /** A name string that is a single token is all last name. */
  lemma {:induction false} OneTokenName(t: string)
    requires LStrip(t, LeadStrip) == t && RStrip(t, TrailStrip) == t && Strip(t) == t
    requires SplitAtDepth0(CommaSep, t) == [t] && SplitAtDepth0(TokenSep, t) == [t]
    ensures ParseName(t) == Ok(Name("", "", t, ""))
  {
    var toks := [t];
    assert Tokens(t) == toks;
    assert NameParts(t) == [toks];
    assert VonStart(toks, 0) == None;
    assert LastStart(toks, 0) == 0;
    ConcatOne(t);
    assert toks[0..] == toks;
    assert FirstVonLast(toks) == Name("", "", t, "");
  }

  /** A list that is one unsplit, stripped name string has that one name. */
  lemma {:induction false} OneNameList(s: string, n: Name)
    requires SplitAtDepth0(AndSep, s) == [s] && Strip(s) == s && ParseName(s) == Ok(n)
    ensures ParseNames(s) == Ok([n])
  {
    NameStringsOne(s);
    var results := NameResults([s]);
    assert results[0] == ParseName(s);
    CollectOne(results, n);
  }

  lemma {:induction false} NameStringsOne(s: string)
    requires SplitAtDepth0(AndSep, s) == [s] && Strip(s) == s
    ensures NameStrings(s) == [s]
  {
  }

  lemma {:induction false} CollectOne(results: seq<Result<Name>>, n: Name)
    requires results == [Ok(n)]
    ensures Collect(results) == Ok([n])
  {
    assert results[1..] == [];
    assert Collect(results[1..]) == Ok([]);
    assert [results[0].value] + [] == [n];
  }

  /** A single plain word, such as `Aristotle`, is a last name. */
  lemma {:induction false} WordName(w: string)
    requires IsWord(w)
    ensures ParseNames(w) == Ok([Name("", "", w, "")])
  {
    WordStrips(w);
    WordUnsplit(AndSep, w);
    WordUnsplit(CommaSep, w);
    WordUnsplit(TokenSep, w);
    OneTokenName(w);
    OneNameList(w, Name("", "", w, ""));
  }

  /** The name list `others` is the one pseudo-name `others`. */
  lemma {:induction false} OthersName()
    ensures ParseNames("others").Ok? && |ParseNames("others").value| == 1
    ensures ParseNames("others").value[0].IsOthers()
  {
    assert IsWord("others");
    WordName("others");
  }

  /** A name that is one brace group, such as `{Barnes and Noble, Inc.}`, is one last name, kept whole. */
  lemma {:induction false} BracedName(x: string)
    requires Braceless(x)
    ensures ParseNames("{" + x + "}") == Ok([Name("", "", "{" + x + "}", "")])
  {
    var data := "{" + x + "}";
    BraceGroupOf(x);
    BraceGroupName(data);
    OneNameList(data, Name("", "", data, ""));
  }

  /** A brace group is one unsplit token, and so one last name. */
  lemma {:induction false} BraceGroupName(data: string)
    requires BraceGroup(data)
    ensures SplitAtDepth0(AndSep, data) == [data] && Strip(data) == data
    ensures ParseName(data) == Ok(Name("", "", data, ""))
  {
    BracedNotSplit(AndSep, data);
    BracedNotSplit(CommaSep, data);
    BracedNotSplit(TokenSep, data);
    Unstripped(data, Whitespace);
    Unstripped(data, LeadStrip);
    Unstripped(data, TrailStrip);
    OneTokenName(data);
  }

  /** A token of `n` non-connectors at `last` followed by one space ends there, with the space as its connector. */
  lemma {:induction false} TokenThenSpace(data: string, last: nat, n: nat)
    requires Braceless(data)
    requires last + n + 1 < |data| && data[last + n] == ' ' && data[last + n + 1] !in Connectors
    requires NoConnectors(data, last, last + n)
    ensures SplitFrom(TokenSep, data, DepthSeq(data), last, last)
         == [data[last..last + n], " "] + SplitFrom(TokenSep, data, DepthSeq(data), last + n + 1, last + n + 1)
  {
    var d := DepthSeq(data);
    SkipNoMatch(TokenSep, data, d, last, last + n, last);
    FlatLevel(data, last + n);
    assert d[last + n] == 0;
    assert ConnectorRun(data[last + n + 1..]) == 0;
    assert MatchLength(TokenSep, data, last + n) == 1;
    assert Groups(TokenSep, data, last + n) == [" "];
  }

  /** The rest of a string without connectors is one token. */
  lemma {:induction false} TokenAtEnd(data: string, last: nat)
    requires NoConnectors(data, last, |data|)
    ensures SplitFrom(TokenSep, data, DepthSeq(data), last, last) == [data[last..]]
  {
    SkipNoMatch(TokenSep, data, DepthSeq(data), last, |data|, last);
  }

  /** Two plain words separated by a space are two tokens and their connector. */
  lemma {:induction false} TwoWordTokens(f: string, l: string)
    requires IsWord(f) && IsWord(l)
    ensures SplitAtDepth0(TokenSep, f + " " + l) == [f, " ", l]
  {
    var data := f + " " + l;
    WordFlat(f);
    SpacedShape(f, l);
    Extend(f, l, 0, |f|);
    TokenThenSpace(data, 0, |f|);
    TokenAtEnd(data, |f| + 1);
  }

  /** Three plain words separated by spaces are three tokens and their connectors. */
  lemma {:induction false} ThreeWordTokens(f: string, v: string, l: string)
    requires IsWord(f) && IsWord(v) && IsWord(l)
    ensures SplitAtDepth0(TokenSep, f + " " + v + " " + l) == [f, " ", v, " ", l]
  {
    var fv := f + " " + v;
    var data := fv + " " + l;
    var m := |fv|;
    WordFlat(f);
    SpacedShape(f, v);
    SpacedShape(fv, l);
    Extend(f, v, 0, |f|);
    Extend(fv, l, 0, |f|);
    Extend(fv, l, |f| + 1, m);
    assert data[..m] == fv;
    assert data[|f|] == ' ' && data[0..|f|] == f && data[|f| + 1..m] == v;
    TokenThenSpace(data, 0, |f|);
    TokenThenSpace(data, |f| + 1, |v|);
    TokenAtEnd(data, m + 1);
  }

  /** No connector between `lo` and `hi`. */
  predicate NoConnectors(data: string, lo: nat, hi: nat) {
    lo <= hi <= |data| && forall j :: lo <= j < hi ==> data[j] !in Connectors
  }

  /** The layout of `a + " " + w` for a word `w`. */
  lemma {:induction false} SpacedShape(a: string, w: string)
    requires Braceless(a) && ',' !in a && IsWord(w)
    ensures var d := a + " " + w;
      Braceless(d) && ',' !in d && d[|a|] == ' ' && d[..|a|] == a && d[|a| + 1..] == w
      && |a| + 1 < |d| && NoConnectors(d, |a| + 1, |d|)
  {
    var d := a + " " + w;
    WordFlat(w);
    BracelessConcat(a, " ");
    BracelessConcat(a + " ", w);
    assert forall j :: |a| < j < |d| ==> d[j] == w[j - |a| - 1];
  }

  /** No connector in a range stays so when text is appended. */
  lemma {:induction false} Extend(a: string, w: string, lo: nat, hi: nat)
    requires NoConnectors(a, lo, hi) || (lo == 0 && hi == |a| && IsWord(a))
    ensures NoConnectors(a + " " + w, lo, hi)
  {
    assert forall j :: 0 <= j < |a| ==> (a + " " + w)[j] == a[j];
  }

  /** A word that starts with a capital letter does not start a von part. */
  lemma {:induction false} CapitalNotVon(w: string)
    requires IsWord(w) && 'A' <= w[0] <= 'Z'
    ensures FirstCharOf(w) == [w[0]] && !IsLowerInitial(FirstCharOf(w))
  {
    FirstCharPlain(w);
  }

  /** A word that starts with a lower-case letter starts a von part. */
  lemma {:induction false} LowerIsVon(w: string)
    requires IsWord(w) && 'a' <= w[0] <= 'z'
    ensures IsLowerInitial(FirstCharOf(w))
  {
    FirstCharPlain(w);
  }

  /** A name string without commas is read from its tokens. */
  lemma {:induction false} NoCommaName(data: string, toks: seq<string>)
    requires data != [] && data[0] !in Whitespace + TrailStrip && data[|data| - 1] !in Whitespace + TrailStrip
    requires Braceless(data) && ',' !in data
    requires SplitAtDepth0(TokenSep, data) == toks
    ensures ParseName(data) == Ok(FirstVonLast(toks))
  {
    Unstripped(data, Whitespace);
    Unstripped(data, LeadStrip);
    Unstripped(data, TrailStrip);
    CommaSplitIsSplit(data);
    SplitAbsent(data, ',');
    assert Tokens(data) == toks;
    assert NameParts(data) == [toks];
  }

  /** `First Last`: two words, the first capitalised, are the first and the last name. */
  lemma {:induction false} FirstLastName(f: string, l: string)
    requires IsWord(f) && IsWord(l) && 'A' <= f[0] <= 'Z'
    ensures ParseName(f + " " + l) == Ok(Name(f, "", l, ""))
  {
    var data := f + " " + l;
    var toks := [f, " ", l];
    WordFlat(f);
    SpacedShape(f, l);
    assert data[0] == f[0] && data[|data| - 1] == l[|l| - 1];
    TwoWordTokens(f, l);
    NoCommaName(data, toks);
    CapitalNotVon(f);
    FirstOfTwo(f, l);
  }

  /** The tokens `f`, `l` with a capitalised `f` are the first and the last name. */
  lemma {:induction false} FirstOfTwo(f: string, l: string)
    requires !IsLowerInitial(FirstCharOf(f))
    ensures FirstVonLast([f, " ", l]) == Name(f, "", l, "")
  {
    var toks := [f, " ", l];
    assert VonStart(toks, 0) == None;
    assert LastStart(toks, 2) == 2;
    ConcatOne(f);
    ConcatOne(l);
    assert toks[..1] == [f] && toks[2..] == [l];
  }

  /** `First von Last`: a lower-case middle word, such as `van` in `Ludwig van Beethoven`, is the von part. */
  lemma {:induction false} FirstVonLastName(f: string, v: string, l: string)
    requires IsWord(f) && IsWord(v) && IsWord(l) && 'A' <= f[0] <= 'Z' && 'a' <= v[0] <= 'z'
    ensures ParseName(f + " " + v + " " + l) == Ok(Name(f, v, l, ""))
  {
    var data := f + " " + v + " " + l;
    var toks := [f, " ", v, " ", l];
    WordFlat(f);
    SpacedShape(f, v);
    SpacedShape(f + " " + v, l);
    assert data[0] == f[0] && data[|data| - 1] == l[|l| - 1];
    ThreeWordTokens(f, v, l);
    NoCommaName(data, toks);
    CapitalNotVon(f);
    LowerIsVon(v);
    VonOfThree(f, v, l);
  }

  /** The tokens `f`, `v`, `l` with a capitalised `f` and a lower-case `v` are first, von and last. */
  lemma {:induction false} VonOfThree(f: string, v: string, l: string)
    requires !IsLowerInitial(FirstCharOf(f)) && IsLowerInitial(FirstCharOf(v))
    ensures FirstVonLast([f, " ", v, " ", l]) == Name(f, v, l, "")
  {
    var toks := [f, " ", v, " ", l];
    assert VonStart(toks, 0) == Some(2);
    assert toks[2..] == [v, " ", l];
    VonThenLast(v, l);
    ConcatOne(f);
    ConcatOne(v);
    ConcatOne(l);
    assert toks[..1] == [f];
  }

  /** After a von word and a connector, the last word is the last name. */
  lemma {:induction false} VonThenLast(v: string, l: string)
    requires IsLowerInitial(FirstCharOf(v))
    ensures SplitVonLast([v, " ", l]) == ([v], [l])
  {
    var rest := [v, " ", l];
    assert VonEnd(rest, 2) == Some(2);
    assert rest[..1] == [v] && rest[2..] == [l];
  }

  /** A plain word, with or without the space that follows a comma, is one token. */
  lemma {:induction false} WordTokens(w: string)
    requires IsWord(w)
    ensures Tokens(w) == [w] && Tokens(" " + w) == [w]
  {
    WordStrips(w);
    WordUnsplit(TokenSep, w);
    assert (" " + w)[1..] == w;
    assert LStrip(" " + w, Whitespace) == LStrip(w, Whitespace);
  }

  /** A word alone before the commas is the last name, with no von part. */
  lemma {:induction false} LastOnly(l: string)
    ensures SplitVonLast([l]) == ([], [l])
  {
    assert VonEnd([l], 0) == None;
  }

  /** `Last, First`: the part before the comma is the last name, the part after it the first name. */
  lemma {:induction false} LastFirstName(l: string, f: string)
    requires IsWord(l) && IsWord(f)
    ensures ParseName(l + ", " + f) == Ok(Name(f, "", l, ""))
  {
    var data := l + ", " + f;
    assert data[0] == l[0] && data[|data| - 1] == f[|f| - 1];
    Unstripped(data, LeadStrip);
    Unstripped(data, TrailStrip);
    LastFirstParts(l, f);
    CommaPartsName(data, [l], [f], []);
  }

  lemma {:induction false} LastFirstParts(l: string, f: string)
    requires IsWord(l) && IsWord(f)
    ensures NameParts(l + ", " + f) == [[l], [f]]
  {
    LastFirstSplit(l, f);
    WordTokens(l);
    WordTokens(f);
    var pieces, toks := [l, " " + f], [[l], [f]];
    forall i | 0 <= i < |pieces| ensures Tokens(pieces[i]) == toks[i] {
      if i == 1 {
        assert pieces[1] == " " + f;
      }
    }
    PartsOfTokens(l + ", " + f, pieces, toks);
  }

  /** The parts of a name from the tokens of each comma-separated piece. */
  lemma {:induction false} PartsOfTokens(data: string, pieces: seq<string>, toks: seq<seq<string>>)
    requires SplitAtDepth0(CommaSep, data) == pieces && |toks| == |pieces|
    requires forall i :: 0 <= i < |pieces| ==> Tokens(pieces[i]) == toks[i]
    ensures NameParts(data) == toks
  {
  }

  lemma {:induction false} LastFirstSplit(l: string, f: string)
    requires IsWord(l) && IsWord(f)
    ensures SplitAtDepth0(CommaSep, l + ", " + f) == [l, " " + f]
  {
    WordFlat(l);
    SpacedWordFlat(f);
    assert l + ", " + f == l + [','] + (" " + f);
    CommaCons(l, " " + f);
    CommaSplitIsSplit(" " + f);
    SplitAbsent(" " + f, ',');
  }

  /** A word has no braces and no commas. */
  lemma {:induction false} WordFlat(w: string)
    requires IsWord(w)
    ensures Braceless(w) && ',' !in w
  {
  }

  /** A space and a word have no braces and no commas. */
  lemma {:induction false} SpacedWordFlat(w: string)
    requires IsWord(w)
    ensures Braceless(" " + w) && ',' !in " " + w
  {
    assert forall k :: 0 < k < |" " + w| ==> (" " + w)[k] == w[k - 1];
  }

  /** Without braces, a comma-free first part is split off at the first comma. */
  lemma {:induction false} CommaCons(a: string, rest: string)
    requires Braceless(a) && ',' !in a && Braceless(rest)
    ensures SplitAtDepth0(CommaSep, a + [','] + rest) == [a] + SplitAtDepth0(CommaSep, rest)
  {
    BracelessConcat(a, [',']);
    BracelessConcat(a + [','], rest);
    CommaSplitIsSplit(a + [','] + rest);
    CommaSplitIsSplit(rest);
    SplitAtFirst(a, ',', rest);
  }

  /** With two or three comma parts of one token each, the parts are last, first and jr. */
  lemma {:induction false} CommaPartsName(data: string, l: seq<string>, f: seq<string>, j: seq<string>)
    requires |l| == 1 && |f| == 1 && |j| <= 1
    requires NameParts(data) == (if j == [] then [l, f] else [l, f, j])
    ensures ParseStripped(data) == Ok(Name(f[0], "", l[0], if j == [] then "" else j[0]))
  {
    assert l == [l[0]] && f == [f[0]];
    LastOnly(l[0]);
    ConcatOne(l[0]);
    ConcatOne(f[0]);
    if j != [] {
      assert j == [j[0]];
      ConcatOne(j[0]);
    }
  }

  /** `Last, First, Jr`: the third part is the jr part. */
  lemma {:induction false} LastFirstJrName(l: string, f: string, j: string)
    requires IsWord(l) && IsWord(f) && IsWord(j)
    ensures ParseName(l + ", " + f + ", " + j) == Ok(Name(f, "", l, j))
  {
    var data := l + ", " + f + ", " + j;
    assert data[0] == l[0] && data[|data| - 1] == j[|j| - 1];
    Unstripped(data, LeadStrip);
    Unstripped(data, TrailStrip);
    LastFirstJrParts(l, f, j);
    CommaPartsName(data, [l], [f], [j]);
  }

  lemma {:induction false} LastFirstJrParts(l: string, f: string, j: string)
    requires IsWord(l) && IsWord(f) && IsWord(j)
    ensures NameParts(l + ", " + f + ", " + j) == [[l], [f], [j]]
  {
    LastFirstJrSplit(l, f, j);
    var pieces, toks := [l, " " + f, " " + j], [[l], [f], [j]];
    ThreePieceTokens(l, f, j, pieces, toks);
    PartsOfTokens(l + ", " + f + ", " + j, pieces, toks);
  }

  lemma {:induction false} ThreePieceTokens(l: string, f: string, j: string, pieces: seq<string>, toks: seq<seq<string>>)
    requires IsWord(l) && IsWord(f) && IsWord(j)
    requires pieces == [l, " " + f, " " + j] && toks == [[l], [f], [j]]
    ensures forall i :: 0 <= i < |pieces| ==> Tokens(pieces[i]) == toks[i]
  {
    forall i | 0 <= i < |pieces| ensures Tokens(pieces[i]) == toks[i] {
      if i == 0 {
        WordTokens(l);
      } else if i == 1 {
        WordTokens(f);
      } else {
        WordTokens(j);
      }
    }
  }

  lemma {:induction false} LastFirstJrSplit(l: string, f: string, j: string)
    requires IsWord(l) && IsWord(f) && IsWord(j)
    ensures SplitAtDepth0(CommaSep, l + ", " + f + ", " + j) == [l, " " + f, " " + j]
  {
    WordFlat(l);
    SpacedWordFlat(f);
    SpacedWordFlat(j);
    BracelessConcat(" " + f, [',']);
    BracelessConcat(" " + f + [','], " " + j);
    assert l + ", " + f + ", " + j == l + [','] + ((" " + f) + [','] + (" " + j));
    CommaCons(l, (" " + f) + [','] + (" " + j));
    CommaCons(" " + f, " " + j);
    CommaSplitIsSplit(" " + j);
    SplitAbsent(" " + j, ',');
  }

  /** Four comma-separated parts are an error. */
  lemma {:induction false} TooManyCommas(a: string, b: string, c: string, d: string)
    requires IsWord(a) && IsWord(b) && IsWord(c) && IsWord(d)
    ensures ParseName(a + "," + b + "," + c + "," + d).Err?
  {
    var data := a + "," + b + "," + c + "," + d;
    assert data[0] == a[0] && data[|data| - 1] == d[|d| - 1];
    Unstripped(data, LeadStrip);
    Unstripped(data, TrailStrip);
    FourPartSplit(a, b, c, d);
    assert |NameParts(data)| == 4;
  }

  lemma {:induction false} FourPartSplit(a: string, b: string, c: string, d: string)
    requires IsWord(a) && IsWord(b) && IsWord(c) && IsWord(d)
    ensures |SplitAtDepth0(CommaSep, a + "," + b + "," + c + "," + d)| == 4
  {
    WordFlat(a);
    WordFlat(b);
    WordFlat(c);
    WordFlat(d);
    BracelessConcat(c, [',']);
    BracelessConcat(c + [','], d);
    BracelessConcat(b, [',']);
    BracelessConcat(b + [','], c + [','] + d);
    assert a + "," + b + "," + c + "," + d == a + [','] + (b + [','] + (c + [','] + d));
    CommaCons(a, b + [','] + (c + [','] + d));
    CommaCons(b, c + [','] + d);
    CommaCons(c, d);
    CommaSplitIsSplit(d);
    SplitAbsent(d, ',');
  }
}
