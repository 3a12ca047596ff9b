/**
 * The helpers of the command-line front end (bibsearch/bibsearch.py) that decide something
 * rather than talk to the user: undoing pybtex's escapes, picking an entry from the search
 * cache or a fresh search, flattening a bib-set resource, naming the `.aux` file, finding and
 * comparing entries, and counting what `_add_file` stores.
 */
module Cli {
  import opened Wrappers
  import opened Strings
  import opened Records
  import opened Table
  import opened BibDb

  // ---------------------------------------------------------------------------------------
  // pybtex_unescape

  /** `pybtex_unescape`: `\_` becomes `_`, then `\textasciitilde ` becomes `~`. */
  function PybtexUnescape(s: string): (r: string)
    ensures |r| <= |s|
  {
    ReplaceNotLonger(s, "\\_", "_");
    ReplaceNotLonger(Replace(s, "\\_", "_"), "\\textasciitilde ", "~");
    Replace(Replace(s, "\\_", "_"), "\\textasciitilde ", "~")
  }

  /** A string without a backslash has nothing to unescape. */
  lemma {:induction false} UnescapeNoBackslash(s: string)
    requires '\\' !in s
    ensures PybtexUnescape(s) == s
  {
    ReplaceMissingChar(s, "\\_", "_", '\\');
    ReplaceMissingChar(s, "\\textasciitilde ", "~", '\\');
  }

  /** An escaped underscore after backslash-free text comes out as a plain underscore. */
  lemma {:induction false} UnescapeUnderscore(x: string, y: string)
    requires '\\' !in x
    ensures PybtexUnescape(x + "\\_" + y) == x + "_" + PybtexUnescape(y)
  {
    var once := Replace(y, "\\_", "_");
    ReplaceSkipPrefix(x, "\\_" + y, "\\_", "_");
    assert x + "\\_" + y == x + ("\\_" + y);
    assert ("\\_" + y)[..2] == "\\_" && ("\\_" + y)[2..] == y;
    assert Replace(x + "\\_" + y, "\\_", "_") == x + "_" + once;
    ReplaceSkipPrefix(x + "_", once, "\\textasciitilde ", "~");
  }

  /** An escaped tilde after backslash-free text comes out as `~`. */
  lemma {:induction false} UnescapeTilde(x: string, y: string)
    requires '\\' !in x
    ensures PybtexUnescape(x + "\\textasciitilde " + y) == x + "~" + PybtexUnescape(y)
  {
    var tilde := "\\textasciitilde ";
    var once := Replace(y, "\\_", "_");
    UnderscorePass(x, y);
    ReplaceLeading(x, tilde, once, "~");
  }

  /** The underscore pass reaches the escaped tilde after `x` and leaves it alone. */
  lemma {:induction false} UnderscorePass(x: string, y: string)
    requires '\\' !in x
    ensures Replace(x + "\\textasciitilde " + y, "\\_", "_") == x + "\\textasciitilde " + Replace(y, "\\_", "_")
  {
    var tilde := "\\textasciitilde ";
    TildeSurvives(y);
    ReplaceSkipPrefix(x, tilde + y, "\\_", "_");
    assert x + tilde + y == x + (tilde + y);
  }

  /** The underscore pass leaves an escaped tilde alone. */
  lemma {:induction false} TildeSurvives(y: string)
    ensures Replace("\\textasciitilde " + y, "\\_", "_") == "\\textasciitilde " + Replace(y, "\\_", "_")
  {
    var word := "textasciitilde ";
    EscapedWordKept(word, y);
    assert "\\" + word == "\\textasciitilde ";
  }

  /** A backslash before a word that does not start with `_` is not an escaped underscore. */
  lemma {:induction false} EscapedWordKept(word: string, y: string)
    requires word != [] && word[0] != '_' && '\\' !in word
    ensures Replace("\\" + word + y, "\\_", "_") == "\\" + word + Replace(y, "\\_", "_")
  {
    var s := "\\" + word + y;
    assert s[..2] != "\\_" by { assert s[..2][1] == word[0]; }
    ReplaceNoMatchHere(s, "\\_", "_");
    assert s[1..] == word + y;
    ReplaceSkipPrefix(word, y, "\\_", "_");
  }

  // ---------------------------------------------------------------------------------------
  // _get_cache_or_search_result

  /** A single search term that starts with a digit asks for an entry of the cache by number. */
  predicate IsIndexTerm(terms: seq<string>) {
    |terms| == 1 && terms[0] != [] && IsDigit(terms[0][0])
  }

  const NoCachedDocuments := "No documents found in search cache."
  const NoSearchResults := "Search returned no results."

  /**
   * The result list `_get_cache_or_search_result` consults and the position it reads, before
   * the position is checked: the cache and position 0 for no terms, the cache and the number
   * minus one for a numeric term, and otherwise the first hit of the search `searched`, which
   * is what `db.search(terms)` gives (it is consulted only in that case).
   */
  function Selection<T>(terms: seq<string>, cache: Option<seq<T>>, searched: Result<seq<T>>): (r: Result<(seq<T>, int)>)
    ensures r.Ok? ==> r.value.0 != [] && r.value.1 >= -1
    ensures r.Ok? && terms == [] ==> cache.Some? && cache.value == r.value.0 && r.value.1 == 0
    ensures r.Ok? && IsIndexTerm(terms) ==>
      cache.Some? && cache.value == r.value.0 && ParseInt(terms[0]).Some? && ParseInt(terms[0]).value == r.value.1 + 1
    ensures r.Ok? && terms != [] && !IsIndexTerm(terms) ==> searched.Ok? && searched.value == r.value.0 && r.value.1 == 0
  {
    if terms == [] || IsIndexTerm(terms) then CachedSelection(terms, cache)
    else if searched.Err? then Err(searched.error)
    else if searched.value == [] then Err(NoSearchResults)
    else Ok((searched.value, 0))
  }

  /** The cached branch: no terms select the first cached entry, a number `n` the entry at `n - 1`. */
  function CachedSelection<T>(terms: seq<string>, cache: Option<seq<T>>): (r: Result<(seq<T>, int)>)
    requires terms == [] || IsIndexTerm(terms)
    ensures r.Ok? ==> cache.Some? && cache.value == r.value.0 && r.value.0 != [] && r.value.1 >= -1
    ensures r.Ok? && terms == [] ==> r.value.1 == 0
    ensures r.Ok? && terms != [] ==> ParseInt(terms[0]).Some? && ParseInt(terms[0]).value == r.value.1 + 1
  {
    if cache.None? || cache.value == [] then Err(NoCachedDocuments)
    else if terms == [] then Ok((cache.value, 0))
    else
      var n := ParseInt(terms[0]);
      if n.None? then Err("invalid literal for int() with base 10: '" + terms[0] + "'")
      else
        assert n.value >= 0 by { LeadingDigitNonNegative(terms[0]); }
        Ok((cache.value, n.value - 1))
  }

  /** `int` of a text that starts with a digit has no sign, so it is not negative. */
  lemma {:induction false} LeadingDigitNonNegative(t: string)
    requires t != [] && IsDigit(t[0]) && ParseInt(t).Some?
    ensures ParseInt(t).value >= 0
  {
    StripKeepsFirst(t);
    UnsignedParse(Strip(t));
  }

  /** Digits without a sign read as a number that is not negative. */
  lemma {:induction false} UnsignedParse(u: string)
    requires u != [] && IsDigit(u[0]) && ParseSigned(u).Some?
    ensures ParseSigned(u).value >= 0
  {
  }

  /** The message for a position past the end of the results. */
  function TooFewResults(index: int, count: nat): string {
    "You requested result " + IntToString(index) + ", but only " + NatToString(count) + " documents were found."
  }

  /**
   * `results[entry_index]` after the `entry_index >= len(results)` check, as Python reads it:
   * a negative position counts from the end.
   */
  function PyIndex<T>(results: seq<T>, index: int): (r: Result<T>)
    ensures r.Ok? <==> -|results| <= index < |results|
    ensures r.Ok? ==> r.value == results[if index >= 0 then index else |results| + index]
  {
    if index >= |results| then Err(TooFewResults(index, |results|))
    else if index >= 0 then Ok(results[index])
    else if index >= -|results| then Ok(results[|results| + index])
    else Err("list index out of range")
  }

  /** `_get_cache_or_search_result` as written. */
  function CacheOrSearchAsWritten<T>(terms: seq<string>, cache: Option<seq<T>>, searched: Result<seq<T>>): (r: Result<T>)
    ensures r.Ok? ==> Selection(terms, cache, searched).Ok? && r.value in Selection(terms, cache, searched).value.0
  {
    match Selection(terms, cache, searched)
    case Err(e) => Err(e)
    case Ok((results, index)) => PyIndex(results, index)
  }

  /** Entry number 0 slips past the range check and selects the last cached entry. */
  lemma {:induction false} ZeroSelectsLast<T>(cache: seq<T>, searched: Result<seq<T>>)
    requires cache != []
    ensures CacheOrSearchAsWritten(["0"], Some(cache), searched) == Ok(cache[|cache| - 1])
  {
    ZeroSelection(cache, searched);
    assert PyIndex(cache, -1) == Ok(cache[|cache| - 1]);
  }

  /** The term `0` reads the cache at position -1. */
  lemma {:induction false} ZeroSelection<T>(cache: seq<T>, searched: Result<seq<T>>)
    requires cache != []
    ensures Selection(["0"], Some(cache), searched) == Ok((cache, -1))
  {
    ZeroParses();
    assert IsDigit("0"[0]);
    NumberSelection(cache, searched, "0", 0);
  }

  /** A numeric term `n` reads the cache at position `n - 1`. */
  lemma {:induction false} NumberSelection<T>(cache: seq<T>, searched: Result<seq<T>>, term: string, n: int)
    requires cache != [] && term != [] && IsDigit(term[0]) && ParseInt(term) == Some(n)
    ensures Selection([term], Some(cache), searched) == Ok((cache, n - 1))
  {
    assert IsIndexTerm([term]);
    NumberCached(cache, term, n);
  }

  lemma {:induction false} NumberCached<T>(cache: seq<T>, term: string, n: int)
    requires cache != [] && IsIndexTerm([term]) && ParseInt(term) == Some(n)
    ensures CachedSelection([term], Some(cache)) == Ok((cache, n - 1))
  {
    assert [term][0] == term;
  }

  /** `int("0")` is 0. */
  lemma {:induction false} ZeroParses()
    ensures ParseInt("0") == Some(0)
  {
    NaturalRoundTrip(0);
    assert NatToString(0) == "0";
  }

  /**
   * `_get_cache_or_search_result` with entry numbers counted from 1 as the numbering the user
   * sees: a position outside the results, 0 included, is an error.
   */
  function CacheOrSearch<T>(terms: seq<string>, cache: Option<seq<T>>, searched: Result<seq<T>>): (r: Result<T>)
    ensures r.Ok? ==> match Selection(terms, cache, searched)
      case Ok((results, index)) => 0 <= index < |results| && r.value == results[index]
      case Err(_) => false
  {
    match Selection(terms, cache, searched)
    case Err(e) => Err(e)
    case Ok((results, index)) =>
      if index < 0 then Err(TooFewResults(index, |results|)) else PyIndex(results, index)
  }

  /** With no terms the first cached entry is chosen; an empty or missing cache is an error. */
  lemma {:induction false} CacheFirst<T>(cache: Option<seq<T>>, searched: Result<seq<T>>)
    ensures cache.None? || cache.value == [] ==> CacheOrSearch([], cache, searched).Err?
    ensures cache.Some? && cache.value != [] ==> CacheOrSearch([], cache, searched) == Ok(cache.value[0])
  {
  }

  /** A numeric term `n` picks cached entry `n`, counting from 1, and is an error past the end. */
  lemma {:induction false} CacheNumbered<T>(t: string, n: int, cache: seq<T>, searched: Result<seq<T>>)
    requires IsIndexTerm([t]) && ParseInt(t) == Some(n) && cache != []
    ensures 1 <= n <= |cache| ==> CacheOrSearch([t], Some(cache), searched) == Ok(cache[n - 1])
    ensures n < 1 || n > |cache| ==> CacheOrSearch([t], Some(cache), searched).Err?
  {
    assert [t][0] == t;
    NumberSelection(cache, searched, t, n);
  }

  /** Other terms take the first hit of the search, and no hit is an error. */
  lemma {:induction false} SearchFirst<T>(terms: seq<string>, cache: Option<seq<T>>, searched: Result<seq<T>>)
    requires terms != [] && !IsIndexTerm(terms)
    ensures CacheOrSearch(terms, cache, searched).Ok? <==> searched.Ok? && searched.value != []
    ensures searched.Ok? && searched.value != [] ==> CacheOrSearch(terms, cache, searched) == Ok(searched.value[0])
  {
  }

  /** Where the written code yields an entry for a positive number, the corrected one agrees. */
  lemma {:induction false} CorrectedAgrees<T>(terms: seq<string>, cache: Option<seq<T>>, searched: Result<seq<T>>)
    requires CacheOrSearchAsWritten(terms, cache, searched).Ok?
    requires Selection(terms, cache, searched).value.1 >= 0
    ensures CacheOrSearch(terms, cache, searched) == CacheOrSearchAsWritten(terms, cache, searched)
  {
  }

  // ---------------------------------------------------------------------------------------
  // get_fnames_from_bibset

  const BibSetPrefix := "bib://"

  /** A YAML mapping key: the loader reads `2018` as an integer and `acl` as text. */
  datatype YamlKey = TextKey(text: string) | IntKey(n: int)

  /** A bib-set resource: a list of file names, or a mapping whose values are bib sets. */
  datatype BibSet = Files(names: seq<string>) | Branches(items: seq<(YamlKey, BibSet)>)

  /** `rec_extract_bib`: a list as it stands, a mapping as the concatenation of its values' files. */
  function Extract(b: BibSet): seq<string>
    decreases b, 1
  {
    match b
    case Files(names) => names
    case Branches(items) => ExtractItems(b, 0)
  }

  /** The files under the values of `b`'s mapping from position `i` on. */
  function ExtractItems(b: BibSet, i: nat): seq<string>
    requires b.Branches? && i <= |b.items|
    decreases b, 0, |b.items| - i
  {
    if i == |b.items| then [] else Extract(b.items[i].1) + ExtractItems(b, i + 1)
  }

  /** A list is returned as it stands. */
  lemma {:induction false} ExtractFiles(names: seq<string>)
    ensures Extract(Files(names)) == names
  {
  }

  /** The items after position `i` of two mappings that share them flatten alike. */
  lemma {:induction false} ExtractItemsShift(a: seq<(YamlKey, BibSet)>, c: seq<(YamlKey, BibSet)>, i: nat)
    requires i <= |c|
    ensures ExtractItems(Branches(a + c), |a| + i) == ExtractItems(Branches(c), i)
    decreases |c| - i
  {
    if i < |c| {
      assert (a + c)[|a| + i] == c[i];
      ExtractItemsShift(a, c, i + 1);
    }
  }

  /** The items of a prefix mapping flatten to the prefix of the joined mapping's files. */
  lemma {:induction false} ExtractItemsPrefix(a: seq<(YamlKey, BibSet)>, c: seq<(YamlKey, BibSet)>, i: nat)
    requires i <= |a|
    ensures ExtractItems(Branches(a + c), i) == ExtractItems(Branches(a), i) + ExtractItems(Branches(c), 0)
    decreases |a| - i
  {
    if i == |a| {
      ExtractItemsShift(a, c, 0);
    } else {
      assert (a + c)[i] == a[i];
      ExtractItemsPrefix(a, c, i + 1);
    }
  }

  /** Flattening keeps the mapping's order: joined mappings flatten to joined file lists. */
  lemma {:induction false} ExtractConcat(a: seq<(YamlKey, BibSet)>, c: seq<(YamlKey, BibSet)>)
    ensures Extract(Branches(a + c)) == Extract(Branches(a)) + Extract(Branches(c))
  {
    ExtractItemsPrefix(a, c, 0);
  }

  /** A mapping with one value flattens to that value's files, whatever its key. */
  lemma {:induction false} ExtractSingle(k: YamlKey, v: BibSet)
    ensures Extract(Branches([(k, v)])) == Extract(v)
  {
    var b := Branches([(k, v)]);
    assert ExtractItems(b, 1) == [];
    assert ExtractItems(b, 0) == Extract(v) + [];
  }

  /** `currentSet[f]` for a text key: the value stored under the text `f`. */
  function Lookup(items: seq<(YamlKey, BibSet)>, f: string): (r: Option<BibSet>)
    ensures r.Some? ==> exists i :: 0 <= i < |items| && items[i] == (TextKey(f), r.value)
    ensures r.None? <==> forall i :: 0 <= i < |items| ==> items[i].0 != TextKey(f)
  {
    if items == [] then None
    else if items[0].0 == TextKey(f) then Some(items[0].1)
    else
      var rest := Lookup(items[1..], f);
      assert forall i :: 1 <= i < |items| ==> items[i] == items[1..][i - 1];
      rest
  }

  /** A branch stored under an integer key is never reached by its digits. */
  lemma {:induction false} IntKeyUnreachable(n: int, v: BibSet, f: string)
    ensures Lookup([(IntKey(n), v)], f).None?
  {
  }

  /** Walks the branches named by `path` from `b`; a missing branch ends the program. */
  function Descend(b: BibSet, path: seq<string>, raw: string): (r: Result<BibSet>)
    ensures path == [] ==> r == Ok(b)
    decreases |path|
  {
    if path == [] then Ok(b)
    else match b
      case Files(_) => Err("list indices must be integers or slices, not str")
      case Branches(items) =>
        match Lookup(items, path[0])
        case None => Err("Invalid branch '" + path[0] + "' in bib specification '" + raw + "'")
        case Some(next) => Descend(next, path[1..], raw)
  }

  /** The resource name and branch path of a `bib://` specification. */
  function SpecFields(raw: string): (r: seq<string>)
    ensures |r| >= 1
  {
    var rest := if |raw| >= |BibSetPrefix| then raw[|BibSetPrefix|..] else "";
    Split(Strip(rest), '/')
  }

  /**
   * `get_fnames_from_bibset`: the file names a `bib://resource/branch/...` specification stands
   * for. `loaded` is the resource's YAML as downloaded; the `list` resource only prints.
   */
  function FnamesFromBibSet(raw: string, loaded: BibSet): (r: Result<seq<string>>)
    ensures SpecFields(raw)[0] == "list" ==> r == Ok([])
  {
    var fields := SpecFields(raw);
    if fields[0] == "list" then Ok([])
    else
      match Descend(loaded, fields[1..], raw)
      case Err(e) => Err(e)
      case Ok(node) => Ok(Extract(node))
  }

  /** A specification naming a resource alone gives every file of the resource. */
  lemma {:induction false} WholeResource(name: string, loaded: BibSet)
    requires name != "list" && name != [] && '/' !in name
    requires name[0] !in Whitespace && name[|name| - 1] !in Whitespace
    ensures FnamesFromBibSet(BibSetPrefix + name, loaded) == Ok(Extract(loaded))
  {
    var raw := BibSetPrefix + name;
    assert SpecFields(raw) == [name] by {
      SpecFieldsOf(name);
      StripDigits(name);
      SplitAbsent(name, '/');
    }
    assert SpecFields(raw)[1..] == [];
  }

  /** A specification with one branch gives the files under that branch of the resource. */
  lemma {:induction false} OneBranch(name: string, branch: string, items: seq<(YamlKey, BibSet)>, v: BibSet)
    requires name != "list" && name != [] && '/' !in name && '/' !in branch
    requires name[0] !in Whitespace && branch != [] && branch[|branch| - 1] !in Whitespace
    requires Lookup(items, branch) == Some(v)
    ensures FnamesFromBibSet(BibSetPrefix + name + "/" + branch, Branches(items)) == Ok(Extract(v))
  {
    var raw := BibSetPrefix + name + "/" + branch;
    SpecWithBranch(name, branch);
    var fields := SpecFields(raw);
    assert fields[0] == name && fields[1..] == [branch];
    assert Descend(v, [], raw) == Ok(v);
    assert [branch][1..] == [];
    assert Descend(Branches(items), [branch], raw) == Ok(v);
  }

  /** A branch the resource does not have ends the program with the invalid-branch message. */
  lemma {:induction false} InvalidBranch(name: string, branch: string, items: seq<(YamlKey, BibSet)>)
    requires name != "list" && name != [] && '/' !in name && '/' !in branch
    requires name[0] !in Whitespace && branch != [] && branch[|branch| - 1] !in Whitespace
    requires Lookup(items, branch).None?
    ensures var raw := BibSetPrefix + name + "/" + branch;
      FnamesFromBibSet(raw, Branches(items)) == Err("Invalid branch '" + branch + "' in bib specification '" + raw + "'")
  {
    var raw := BibSetPrefix + name + "/" + branch;
    SpecWithBranch(name, branch);
    var fields := SpecFields(raw);
    assert fields[0] == name && fields[1..] == [branch];
    assert Descend(Branches(items), [branch], raw) == Err("Invalid branch '" + branch + "' in bib specification '" + raw + "'");
  }

  /** A branch below a list is a `TypeError`: a list is not indexed by text. */
  lemma {:induction false} BranchOfList(name: string, branch: string, fs: seq<string>)
    requires name != "list" && name != [] && '/' !in name && '/' !in branch
    requires name[0] !in Whitespace && branch != [] && branch[|branch| - 1] !in Whitespace
    ensures FnamesFromBibSet(BibSetPrefix + name + "/" + branch, Files(fs)).Err?
  {
    SpecWithBranch(name, branch);
  }

  /** Walking `p + q` is walking `p`, then `q` from where `p` ends; an error on `p` stops the walk. */
  lemma {:induction false} DescendConcat(b: BibSet, p: seq<string>, q: seq<string>, raw: string)
    ensures Descend(b, p + q, raw) == match Descend(b, p, raw)
      case Err(e) => Err(e)
      case Ok(n) => Descend(n, q, raw)
    decreases |p|
  {
    if p == [] {
      assert p + q == q;
    } else {
      assert (p + q)[0] == p[0] && (p + q)[1..] == p[1..] + q;
      match b
      case Files(_) =>
      case Branches(items) =>
        match Lookup(items, p[0])
        case None =>
        case Some(next) => DescendConcat(next, p[1..], q, raw);
    }
  }

  lemma {:induction false} SpecWithBranch(name: string, branch: string)
    requires '/' !in name && '/' !in branch
    requires name != [] && name[0] !in Whitespace && branch != [] && branch[|branch| - 1] !in Whitespace
    ensures SpecFields(BibSetPrefix + name + "/" + branch) == [name, branch]
  {
    var spec := name + ['/'] + branch;
    assert BibSetPrefix + name + "/" + branch == BibSetPrefix + spec;
    SpecFieldsOf(spec);
    assert Strip(spec) == spec by {
      assert spec[0] == name[0] && spec[|spec| - 1] == branch[|branch| - 1];
      StripDigits(spec);
    }
    TwoParts(name, branch);
  }

  lemma {:induction false} TwoParts(name: string, branch: string)
    requires '/' !in name && '/' !in branch
    ensures Split(name + ['/'] + branch, '/') == [name, branch]
  {
    SplitAtFirst(name, '/', branch);
    var tail := Split(branch, '/');
    SplitAbsent(branch, '/');
    assert [name] + tail == [name, branch];
  }

  /** The fields of a specification are the parts of its stripped body. */
  lemma {:induction false} SpecFieldsOf(spec: string)
    ensures SpecFields(BibSetPrefix + spec) == Split(Strip(spec), '/')
  {
    assert (BibSetPrefix + spec)[|BibSetPrefix|..] == spec;
  }

  // ---------------------------------------------------------------------------------------
  // `.aux` name normalisation in _tex

  /** The `.aux` file `tex` reads for the name it was given. */
  function AuxName(f: string): (r: string)
    ensures EndsWith(r, ".aux")
    ensures EndsWith(f, ".aux") ==> r == f
    ensures !EndsWith(f, ".aux") && EndsWith(f, ".tex") ==> r[..|r| - 4] == f[..|f| - 4]
    ensures !EndsWith(f, ".aux") && !EndsWith(f, ".tex") ==> r[..|r| - 4] == f
  {
    if EndsWith(f, ".aux") then f
    else if EndsWith(f, ".tex") then f[..|f| - 4] + ".aux"
    else f + ".aux"
  }

  /** Normalising twice is normalising once. */
  lemma {:induction false} AuxNameIdempotent(f: string)
    ensures AuxName(AuxName(f)) == AuxName(f)
  {
  }

  /** A `.tex` file and its stem name the same `.aux` file. */
  lemma {:induction false} AuxOfTexAndStem(stem: string)
    requires !EndsWith(stem, ".aux") && !EndsWith(stem, ".tex")
    ensures AuxName(stem + ".tex") == AuxName(stem) == stem + ".aux"
  {
    var f := stem + ".tex";
    assert f[|f| - 4..] == ".tex" && f[..|f| - 4] == stem;
  }

  // ---------------------------------------------------------------------------------------
  // find_entry and compare_entries

  /** `e.fields.get(field)`. */
  function FieldGet(e: Entry, field: string): Option<string> {
    if field in e.fields then Some(e.fields[field]) else None
  }

  /** `find_entry`: the first entry whose field is `value`; `None` also matches a missing field. */
  function FindEntry(entries: seq<Entry>, field: string, value: Option<string>): (r: Option<Entry>)
    ensures r.None? <==> forall i :: 0 <= i < |entries| ==> FieldGet(entries[i], field) != value
    ensures r.Some? ==> exists i :: (0 <= i < |entries| && entries[i] == r.value && FieldGet(r.value, field) == value &&
      forall j :: 0 <= j < i ==> FieldGet(entries[j], field) != value)
  {
    if entries == [] then None
    else if FieldGet(entries[0], field) == value then Some(entries[0])
    else
      var r := FindEntry(entries[1..], field, value);
      assert forall i :: 1 <= i < |entries| ==> entries[i] == entries[1..][i - 1];
      if r.Some? then
        var i :| 0 <= i < |entries[1..]| && entries[1..][i] == r.value && FieldGet(r.value, field) == value &&
          forall j :: 0 <= j < i ==> FieldGet(entries[1..][j], field) != value;
        assert entries[i + 1] == r.value;
        r
      else r
  }

  /** The three sets `compare_entries` returns. */
  datatype FieldChanges = FieldChanges(added: set<string>, deleted: set<string>, edited: set<string>)

  /**
   * What changed from `before` to `after`: the field names only `after` has, those only
   * `before` has, the shared fields whose values differ, and `key` when the keys differ.
   */
  function Changes(before: Entry, after: Entry): (r: FieldChanges)
    ensures r.added !! r.deleted
    ensures r.added <= after.fields.Keys && r.deleted <= before.fields.Keys
  {
    FieldChanges(
      after.fields.Keys - before.fields.Keys,
      before.fields.Keys - after.fields.Keys,
      (set f | f in before.fields && f in after.fields && before.fields[f] != after.fields[f]) +
        (if before.key != after.key then {"key"} else {}))
  }

  /** `compare_entries`: walks the old fields, sorting each into deleted, edited or neither. */
  method CompareEntries(before: Entry, after: Entry) returns (added: set<string>, deleted: set<string>, edited: set<string>)
    ensures FieldChanges(added, deleted, edited) == Changes(before, after)
  {
    deleted := {};
    edited := {};
    if before.key != after.key {
      edited := edited + {"key"};
    }
    var keyEdit := edited;
    var todo := before.fields.Keys;
    while todo != {}
      invariant todo <= before.fields.Keys
      invariant deleted == set f | f in before.fields && f !in todo && f !in after.fields
      invariant edited == keyEdit +
        set f | f in before.fields && f !in todo && f in after.fields && before.fields[f] != after.fields[f]
      decreases todo
    {
      var f :| f in todo;
      if f !in after.fields {
        deleted := deleted + {f};
      } else if before.fields[f] != after.fields[f] {
        edited := edited + {f};
      }
      todo := todo - {f};
    }
    added := after.fields.Keys - before.fields.Keys;
  }

  /** An entry compared with itself shows no change. */
  lemma {:induction false} ChangesSelf(e: Entry)
    ensures Changes(e, e) == FieldChanges({}, {}, {})
  {
    var c := Changes(e, e);
    assert forall f :: f !in c.edited;
  }

  /** No change is reported exactly when the key and all fields are the same. */
  lemma {:induction false} NoChangesIff(before: Entry, after: Entry)
    ensures Changes(before, after) == FieldChanges({}, {}, {}) <==>
      before.key == after.key && before.fields == after.fields
  {
    var c := Changes(before, after);
    if c == FieldChanges({}, {}, {}) {
      assert "key" !in c.edited;
      assert before.fields.Keys == after.fields.Keys by {
        forall f | f in before.fields ensures f in after.fields {
          assert f !in c.deleted;
        }
        forall f | f in after.fields ensures f in before.fields {
          assert f !in c.added;
        }
      }
      forall f | f in before.fields ensures before.fields[f] == after.fields[f] {
        assert f !in c.edited;
      }
    }
    if before.key == after.key && before.fields == after.fields {
      ChangesSelf(before);
    }
  }

  /** Swapping the entries swaps the added and deleted fields. */
  lemma {:induction false} ChangesSwap(before: Entry, after: Entry)
    ensures Changes(after, before).added == Changes(before, after).deleted
    ensures Changes(after, before).deleted == Changes(before, after).added
    ensures Changes(after, before).edited == Changes(before, after).edited
  {
  }

  // ---------------------------------------------------------------------------------------
  // _add_file

  /** `_add_file`'s result: entries added, entries skipped, whether the file was skipped, warnings. */
  datatype AddFileReport = AddFileReport(added: nat, skipped: nat, fileSkipped: bool, warnings: seq<string>)

  const CannotUnpack := "cannot unpack non-iterable bool object"
  const AddNeverReturns := "add does not return: the entry's own key is taken as a custom key"

  /**
   * `_add_file`: a URL fetched before is skipped unless `forceRedownload`; otherwise the URL is
   * recorded and the parsed `entries` are added one by one, counting the ones stored and the
   * ones skipped as already present.
   */
  method AddFile(fname: string, forceRedownload: bool, db: BibDB, entries: seq<Entry>) returns (r: Result<AddFileReport>)
    requires db.Valid()
    modifies db
    ensures db.Valid()
    ensures db.searchCache == old(db.searchCache)
    ensures StartsWith(fname, "http") && !forceRedownload && old(db.FileHasBeenDownloaded(fname)) ==>
      r == Ok(AddFileReport(0, 0, true, [])) && db.rows == old(db.rows) && db.downloaded == old(db.downloaded)
    ensures !(StartsWith(fname, "http") && !forceRedownload && old(db.FileHasBeenDownloaded(fname))) ==>
      db.downloaded == old(db.downloaded) + (if StartsWith(fname, "http") then {fname} else {})
    ensures old(db.rows) <= db.rows
    ensures (!(StartsWith(fname, "http") && !forceRedownload && old(db.FileHasBeenDownloaded(fname))) &&
      exists i :: 0 <= i < |entries| && entries[i].key == "") ==> r.Err?
    ensures r.Ok? && !r.value.fileSkipped ==> (
      r.value.added + r.value.skipped == |entries| &&
      |db.rows| == |old(db.rows)| + r.value.added &&
      (forall i :: 0 <= i < |entries| ==> entries[i].key in Keys(db.rows)) &&
      forall w :: w in r.value.warnings ==> exists i :: 0 <= i < |entries| && w == UniqueKeyWarning(entries[i].key))
  {
    if StartsWith(fname, "http") {
      if !forceRedownload && db.FileHasBeenDownloaded(fname) {
        return Ok(AddFileReport(0, 0, true, []));
      }
      db.RegisterFileDownloaded(fname);
    }
    var added: nat := 0;
    var skipped: nat := 0;
    var allWarnings: seq<string> := [];
    for i := 0 to |entries|
      invariant db.Valid()
      invariant db.searchCache == old(db.searchCache)
      invariant db.downloaded == old(db.downloaded) + (if StartsWith(fname, "http") then {fname} else {})
      invariant old(db.rows) <= db.rows
      invariant added + skipped == i
      invariant |db.rows| == |old(db.rows)| + added
      invariant forall j :: 0 <= j < i ==> entries[j].key != "" && entries[j].key in Keys(db.rows)
      invariant forall w :: w in allWarnings ==> exists j :: 0 <= j < i && w == UniqueKeyWarning(entries[j].key)
    {
      ghost var before := db.rows;
      var outcome := AddEntry(db, entries[i]);
      if outcome.Err? {
        return Err(outcome.error);
      }
      var (success, warnings) := outcome.value;
      if success {
        added := added + 1;
      } else {
        skipped := skipped + 1;
      }
      allWarnings := allWarnings + warnings;
      assert forall k :: k in Keys(before) ==> k in Keys(db.rows);
    }
    return Ok(AddFileReport(added, skipped, false, allWarnings));
  }

  /**
   * `success, warnings = db.add(entry)` in `_add_file`'s loop: the entry is stored exactly when
   * its key is new, and any warning names it. An entry without a key makes `add` return a bare
   * `False`, which cannot be unpacked; where `add` would loop forever the model stops with an error.
   */
  method AddEntry(db: BibDB, e: Entry) returns (r: Result<(bool, seq<string>)>)
    requires db.Valid()
    modifies db
    ensures db.Valid()
    ensures db.searchCache == old(db.searchCache) && db.downloaded == old(db.downloaded)
    ensures old(db.rows) <= db.rows
    ensures e.key == "" ==> r == Err(CannotUnpack)
    ensures r.Ok? ==> e.key != "" && e.key in Keys(db.rows) && (r.value.0 <==> e.key !in Keys(old(db.rows)))
    ensures r.Ok? ==> |db.rows| == |old(db.rows)| + (if r.value.0 then 1 else 0)
    ensures r.Ok? ==> forall w :: w in r.value.1 ==> w == UniqueKeyWarning(e.key)
  {
    if e.key != "" && e.key !in Keys(db.rows) && ChosenTry(db.rows, Prepared(e), db.keyConfig).None? {
      return Err(AddNeverReturns);
    }
    ghost var before := db.rows;
    var outcome := db.Add(e);
    match outcome {
      case NoKey =>
        return Err(CannotUnpack);
      case Added(success, warnings) =>
        if e.key !in Keys(before) {
          var t := ChosenTry(before, Prepared(e), db.keyConfig).value;
          AddedOutcome(before, db.rows, e.key, AddedRow(e, Candidate(Prepared(e), db.keyConfig, t)), t == MaxTries, success, warnings);
        } else {
          AddedOutcome(before, db.rows, e.key, db.rows[0], false, success, warnings);
        }
        return Ok((success, warnings));
    }
  }

  /** What `add` reports for an entry with a key, read off the rows before and after. */
  lemma {:induction false} AddedOutcome(before: seq<Row>, after: seq<Row>, key: string, row: Row, last: bool, success: bool, warnings: seq<string>)
    requires key in Keys(before) ==> !success && warnings == [] && after == before
    requires key !in Keys(before) ==>
      after == before + [row] && row.key == key && success && warnings == (if last then [UniqueKeyWarning(key)] else [])
    ensures before <= after && key in Keys(after) && (success <==> key !in Keys(before))
    ensures |after| == |before| + (if success then 1 else 0)
    ensures forall w :: w in warnings ==> w == UniqueKeyWarning(key)
  {
    if key !in Keys(before) {
      KeyOfAppended(before, row);
    }
  }

}
