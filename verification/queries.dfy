/**
 * How the index turns the search terms of the command line into SQL: an FTS5 `MATCH`
 * expression when the full-text index exists, a `LIKE` filter over the plain table when
 * it does not, and the `column:pattern` filter of the older `where` command.
 */
module Queries {
  import opened Wrappers
  import opened Strings

  // ---------------------------------------------------------------------------------
  // Collecting per-term results

  /** All results when every one succeeds, else the first failure. */
  function CollectOk<T>(rs: seq<Result<T>>): (r: Result<seq<T>>)
    ensures r.Ok? <==> forall i :: 0 <= i < |rs| ==> rs[i].Ok?
    ensures r.Ok? ==> |r.value| == |rs| && forall i :: 0 <= i < |rs| ==> rs[i] == Ok(r.value[i])
    ensures r.Err? ==> exists i :: 0 <= i < |rs| && rs[i] == Err(r.error) && forall j :: 0 <= j < i ==> rs[j].Ok?
    decreases |rs|
  {
    if rs == [] then Ok([])
    else match rs[0]
      case Err(m) => Err(m)
      case Ok(x) =>
        match CollectOk(rs[1..])
        case Err(m) =>
          var i :| 0 <= i < |rs[1..]| && rs[1..][i] == Err(m) && forall j :: 0 <= j < i ==> rs[1..][j].Ok?;
          assert rs[i + 1] == Err(m) && forall j :: 0 <= j < i + 1 ==> rs[j].Ok?;
          Err(m)
        case Ok(xs) =>
          assert forall i :: 0 <= i < |rs| ==> rs[i] == Ok(([x] + xs)[i]) by {
            forall i | 0 <= i < |rs| ensures rs[i] == Ok(([x] + xs)[i]) {
              if i > 0 { assert rs[i] == rs[1..][i - 1]; }
            }
          }
          Ok([x] + xs)
  }

  /** The failure reported is the one of the first failing term. */
  lemma {:induction false} CollectFirstErr<T>(rs: seq<Result<T>>, i: nat)
    requires i < |rs| && rs[i].Err? && forall j :: 0 <= j < i ==> rs[j].Ok?
    ensures CollectOk(rs) == Err(rs[i].error)
  {
    var k :| 0 <= k < |rs| && rs[k] == Err(CollectOk(rs).error) && forall j :: 0 <= j < k ==> rs[j].Ok?;
    assert k == i;
  }

  // ---------------------------------------------------------------------------------
  // Parameterised SQL fragments

  /** A condition and the values that fill its `?` placeholders, in order. */
  datatype Clause = Clause(sql: string, values: seq<string>)

  /** Every placeholder has exactly one value. */
  predicate Balanced(c: Clause) {
    Count(c.sql, '?') == |c.values|
  }

  function Sqls(cs: seq<Clause>): (r: seq<string>)
    ensures |r| == |cs| && forall i :: 0 <= i < |cs| ==> r[i] == cs[i].sql
  {
    seq(|cs|, i requires 0 <= i < |cs| => cs[i].sql)
  }

  function AllValues(cs: seq<Clause>): seq<string>
    decreases |cs|
  {
    if cs == [] then [] else cs[0].values + AllValues(cs[1..])
  }

  lemma {:induction false} AllValuesAppend(cs: seq<Clause>, c: Clause)
    ensures AllValues(cs + [c]) == AllValues(cs) + c.values
    decreases |cs|
  {
    if cs == [] {
      assert [c][1..] == [];
    } else {
      assert (cs + [c])[0] == cs[0] && (cs + [c])[1..] == cs[1..] + [c];
      AllValuesAppend(cs[1..], c);
    }
  }

  /** `" AND ".join` of the conditions, with their values concatenated. */
  function Conjunction(cs: seq<Clause>): Clause {
    Clause(Join(" AND ", Sqls(cs)), AllValues(cs))
  }

  /** Total number of occurrences of `c` in the parts. */
  function CountAll(parts: seq<string>, c: char): nat
    decreases |parts|
  {
    if parts == [] then 0 else Count(parts[0], c) + CountAll(parts[1..], c)
  }

  /** Joining with a separator free of `c` adds no occurrence of `c`. */
  lemma {:induction false} CountJoin(sep: string, parts: seq<string>, c: char)
    requires Count(sep, c) == 0
    ensures Count(Join(sep, parts), c) == CountAll(parts, c)
    decreases |parts|
  {
    if |parts| == 1 {
      assert parts[1..] == [];
    } else if |parts| > 1 {
      CountJoin(sep, parts[1..], c);
      CountAppend(parts[0], sep, c);
      CountAppend(parts[0] + sep, Join(sep, parts[1..]), c);
    }
  }

  lemma {:induction false} CountAllBalanced(cs: seq<Clause>)
    requires forall i :: 0 <= i < |cs| ==> Balanced(cs[i])
    ensures CountAll(Sqls(cs), '?') == |AllValues(cs)|
    decreases |cs|
  {
    if cs != [] {
      assert Sqls(cs)[1..] == Sqls(cs[1..]);
      CountAllBalanced(cs[1..]);
    }
  }

  lemma {:induction false} AndHasNoPlaceholder()
    ensures Count(" AND ", '?') == 0
  {
    assert " AND "[1..] == "AND ";
    assert "AND "[1..] == "ND ";
    assert "ND "[1..] == "D ";
    assert "D "[1..] == " ";
    assert " "[1..] == "";
  }

  /** A conjunction of balanced conditions is balanced. */
  lemma {:induction false} ConjunctionBalanced(cs: seq<Clause>)
    requires forall i :: 0 <= i < |cs| ==> Balanced(cs[i])
    ensures Balanced(Conjunction(cs))
  {
    AndHasNoPlaceholder();
    CountJoin(" AND ", Sqls(cs), '?');
    CountAllBalanced(cs);
  }

  /** `(name LIKE ?)` holds one placeholder when the name holds none. */
  lemma {:induction false} LikeOne(name: string)
    requires Count(name, '?') == 0
    ensures Count("(" + name + " LIKE ?)", '?') == 1
  {
    var tail := " LIKE ?)";
    assert tail[1..] == "LIKE ?)" && tail[1..][1..] == "IKE ?)" && tail[1..][1..][1..] == "KE ?)";
    assert "KE ?)"[1..] == "E ?)" && "E ?)"[1..] == " ?)" && " ?)"[1..] == "?)" && "?)"[1..] == ")";
    assert ")"[1..] == "";
    assert Count(tail, '?') == 1;
    assert Count("(", '?') == 0 by { assert "("[1..] == ""; }
    CountAppend("(", name, '?');
    CountAppend("(" + name, tail, '?');
  }

  // ---------------------------------------------------------------------------------
  // Full-text (FTS5) queries

  function Quoted(s: string): (r: string)
    ensures |r| == |s| + 2 && r[0] == '"' && r[|r| - 1] == '"' && r[1..|r| - 1] == s
  {
    "\"" + s + "\""
  }

  /** The prefixes that mark a term as column-qualified for the full-text index. */
  predicate FtsQualified(t: string) {
    StartsWith(t, "author:") || StartsWith(t, "key:") || StartsWith(t, "title:")
    || StartsWith(t, "venue:") || StartsWith(t, "year")
  }

  /** The pattern of a qualified term, left alone when already enclosed in quotes. */
  function QuoteQuery(q: string): (r: string)
    requires q != ""
    ensures |r| > 0 && r[0] == '"' && r[|r| - 1] == '"'
    ensures q[0] == '"' && q[|q| - 1] == '"' ==> r == q
    ensures !(q[0] == '"' && q[|q| - 1] == '"') ==> r == Quoted(q)
  {
    if q[0] == '"' && q[|q| - 1] == '"' then q else Quoted(q)
  }

  /**
   * One term of a full-text query. Macro names are looked up case-insensitively, as the
   * configuration section stores option names lower-cased, and their text is used as is.
   */
  function FtsTerm(macros: map<string, string>, t: string): (r: Result<string>)
    ensures Lower(t) in macros ==> r == Ok(macros[Lower(t)])
    ensures Lower(t) !in macros && !FtsQualified(t) ==> (r.Err? <==> t == "")
    ensures Lower(t) !in macros && FtsQualified(t) ==>
      (r.Err? <==> SplitOnce(t, ':').None? || SplitOnce(t, ':').value.1 == "")
  {
    if Lower(t) in macros then Ok(macros[Lower(t)])
    else if !FtsQualified(t) then
      if t == "" then Err("IndexError: string index out of range")
      else if t[0] != '"' && t[|t| - 1] != '"' then Ok(Quoted(t))
      else Ok(t)
    else
      match SplitOnce(t, ':')
      case None => Err("ValueError: not enough values to unpack (expected 2, got 1)")
      case Some((spec, q)) =>
        if q == "" then Err("IndexError: string index out of range")
        else if spec == "key" then Ok("(key:" + QuoteQuery(q) + " OR custom_key:" + QuoteQuery(q) + ")")
        else Ok(spec + ":" + QuoteQuery(q))
  }

  function FtsResults(macros: map<string, string>, terms: seq<string>): (r: seq<Result<string>>)
    ensures |r| == |terms| && forall i :: 0 <= i < |terms| ==> r[i] == FtsTerm(macros, terms[i])
  {
    seq(|terms|, i requires 0 <= i < |terms| => FtsTerm(macros, terms[i]))
  }

  /** `_format_query_fts`: the translated terms joined by ` AND `; the first failing term aborts. */
  function FtsQuery(macros: map<string, string>, terms: seq<string>): Result<string> {
    AndJoined(FtsResults(macros, terms))
  }

  /** The successful translations joined by ` AND `, or the first failure. */
  function AndJoined(rs: seq<Result<string>>): Result<string> {
    match CollectOk(rs)
    case Err(m) => Err(m)
    case Ok(ts) => Ok(Join(" AND ", ts))
  }

  method FormatQueryFts(macros: map<string, string>, terms: seq<string>) returns (r: Result<string>)
    ensures r == FtsQuery(macros, terms)
  {
    var results := FtsResults(macros, terms);
    r := JoinTranslated(results);
  }

  /** The loop of `_format_query_fts` over the translated terms: stops at the first failure. */
  method JoinTranslated(results: seq<Result<string>>) returns (r: Result<string>)
    ensures r == AndJoined(results)
  {
    var processed: seq<string> := [];
    var i := 0;
    while i < |results|
      invariant 0 <= i <= |results|
      invariant |processed| == i
      invariant forall j :: 0 <= j < i ==> results[j] == Ok(processed[j])
    {
      var current := results[i];
      if current.Err? {
        CollectFirstErr(results, i);
        return Err(current.error);
      }
      processed := processed + [current.value];
      i := i + 1;
    }
    var all := CollectOk(results);
    assert all.Ok?;
    assert all.value == processed;
    return Ok(Join(" AND ", processed));
  }

  /** A term naming a macro is replaced by the macro's text, whatever its case. */
  lemma {:induction false} MacroTerm(macros: map<string, string>, name: string, t: string)
    requires Lower(t) == name && name in macros
    ensures FtsQuery(macros, [t]) == Ok(macros[name])
  {
    assert CollectOk(FtsResults(macros, [t])).value == [macros[name]];
  }

  /** An unqualified term is quoted as a phrase unless it starts or ends with a quote. */
  lemma {:induction false} PlainTerm(macros: map<string, string>, t: string)
    requires Lower(t) !in macros && !FtsQualified(t) && t != ""
    ensures FtsTerm(macros, t) == Ok(if t[0] == '"' || t[|t| - 1] == '"' then t else Quoted(t))
  {
  }

  /** A qualified term with a pattern: `key` searches both key columns, any other column itself. */
  lemma {:induction false} QualifiedTerm(macros: map<string, string>, t: string, spec: string, q: string)
    requires Lower(t) !in macros && FtsQualified(t) && SplitOnce(t, ':') == Some((spec, q)) && q != ""
    ensures spec == "key" ==> FtsTerm(macros, t) == Ok("(key:" + QuoteQuery(q) + " OR custom_key:" + QuoteQuery(q) + ")")
    ensures spec != "key" ==> FtsTerm(macros, t) == Ok(spec + ":" + QuoteQuery(q))
  {
  }

  /** `col:q` for a column name `col` splits into the column and the pattern. */
  lemma {:induction false} ColumnSplit(col: string, q: string)
    requires col in {"author", "key", "title", "venue", "year"}
    ensures StartsWith(col + ":" + q, col + ":") && FtsQualified(col + ":" + q)
    ensures SplitOnce(col + ":" + q, ':') == Some((col, q))
  {
    var t := col + ":" + q;
    assert t == col + [':'] + q;
    assert t[..|col| + 1] == col + ":";
    assert t[..|col|] == col;
    SplitOncePrefix(col, ':', q);
  }

  /** `key:` searches both the key and the custom-key column for the quoted pattern. */
  lemma {:induction false} KeyTerm(macros: map<string, string>, q: string)
    requires Lower("key:" + q) !in macros && q != ""
    ensures FtsTerm(macros, "key:" + q) == Ok("(key:" + QuoteQuery(q) + " OR custom_key:" + QuoteQuery(q) + ")")
  {
    assert "key:" + q == "key" + ":" + q;
    ColumnSplit("key", q);
    QualifiedTerm(macros, "key" + ":" + q, "key", q);
  }

  /** Any other column prefix becomes an FTS5 column filter on the quoted pattern. */
  lemma {:induction false} ColumnTerm(macros: map<string, string>, col: string, q: string)
    requires col in {"author", "title", "venue", "year"}
    requires Lower(col + ":" + q) !in macros && q != ""
    ensures FtsTerm(macros, col + ":" + q) == Ok(col + ":" + QuoteQuery(q))
  {
    ColumnSplit(col, q);
    QualifiedTerm(macros, col + ":" + q, col, q);
  }

  /** A qualified term with nothing after the colon makes the whole query fail. */
  lemma {:induction false} EmptyPatternFails(macros: map<string, string>, col: string, terms: seq<string>, i: nat)
    requires col in {"author", "key", "title", "venue", "year"}
    requires i < |terms| && terms[i] == col + ":" && Lower(terms[i]) !in macros
    requires forall j :: 0 <= j < i ==> FtsTerm(macros, terms[j]).Ok?
    ensures FtsQuery(macros, terms).Err?
  {
    ColumnSplit(col, "");
    assert col + ":" + "" == col + ":";
    CollectFirstErr(FtsResults(macros, terms), i);
  }

  // ---------------------------------------------------------------------------------
  // Plain-table (LIKE) queries

  /** The columns a term can be restricted to without the full-text index. */
  const LikeQualifiers: seq<string> := ["author", "title", "venue", "year", "key"]

  /** The columns an unrestricted term is matched against. */
  const LikeColumns: seq<string> := ["author", "title", "venue", "year", "key", "custom_key"]

  predicate LikeQualified(t: string) {
    exists i :: 0 <= i < |LikeQualifiers| && StartsWith(t, LikeQualifiers[i] + ":")
  }

  /** `%pattern%`: a substring match. */
  function Wild(q: string): string {
    "%" + q + "%"
  }

  function LikeOf(c: string): string {
    "(" + c + " LIKE ?)"
  }

  function LikeAll(): string {
    "(" + Join(" OR ", seq(|LikeColumns|, i requires 0 <= i < |LikeColumns| => LikeOf(LikeColumns[i]))) + ")"
  }

  /** The column part of a qualified term is the qualifier it starts with. */
  lemma {:induction false} QualifierOf(t: string) returns (i: nat)
    requires LikeQualified(t)
    ensures i < |LikeQualifiers| && SplitOnce(t, ':').Some?
    ensures SplitOnce(t, ':').value.0 == LikeQualifiers[i]
    ensures t == LikeQualifiers[i] + ":" + SplitOnce(t, ':').value.1
  {
    i :| 0 <= i < |LikeQualifiers| && StartsWith(t, LikeQualifiers[i] + ":");
    var c := LikeQualifiers[i];
    var rest := t[|c| + 1..];
    assert t == c + [':'] + rest by {
      assert t[..|c| + 1] == c + ":";
    }
    assert ':' !in c;
    SplitOncePrefix(c, ':', rest);
  }

  /** One term of a plain-table query. */
  function LikeTerm(t: string): (r: Clause)
    ensures !LikeQualified(t) ==> r.values == [Wild(t), Wild(t), Wild(t), Wild(t), Wild(t), Wild(t)]
    ensures LikeQualified(t) ==> (SplitOnce(t, ':').Some? &&
      forall i :: 0 <= i < |r.values| ==> r.values[i] == Wild(SplitOnce(t, ':').value.1))
  {
    if !LikeQualified(t) then
      Clause(LikeAll(), [Wild(t), Wild(t), Wild(t), Wild(t), Wild(t), Wild(t)])
    else
      assert SplitOnce(t, ':').Some? by { var _ := QualifierOf(t); }
      var (spec, q) := SplitOnce(t, ':').value;
      if spec == "key" then Clause(KeyLike(), [Wild(q), Wild(q)])
      else Clause(LikeOf(spec), [Wild(q)])
  }

  lemma {:induction false} LikeAllBalanced()
    ensures Count(LikeAll(), '?') == |LikeColumns|
  {
    var parts := seq(|LikeColumns|, i requires 0 <= i < |LikeColumns| => LikeOf(LikeColumns[i]));
    forall i | 0 <= i < |parts| ensures Count(parts[i], '?') == 1 {
      NoPlaceholderIn(LikeColumns[i]);
      LikeOne(LikeColumns[i]);
    }
    OrHasNoPlaceholder();
    CountJoin(" OR ", parts, '?');
    CountAllOnes(parts);
    ParenCount(Join(" OR ", parts));
  }

  lemma {:induction false} CountAllOnes(parts: seq<string>)
    requires forall i :: 0 <= i < |parts| ==> Count(parts[i], '?') == 1
    ensures CountAll(parts, '?') == |parts|
    decreases |parts|
  {
    if parts != [] {
      CountAllOnes(parts[1..]);
    }
  }

  /** Column names hold no placeholder. */
  lemma {:induction false} NoPlaceholderIn(c: string)
    requires forall k :: 0 <= k < |c| ==> c[k] != '?'
    ensures Count(c, '?') == 0
    decreases |c|
  {
    if c != [] {
      NoPlaceholderIn(c[1..]);
    }
  }

  /** `((key LIKE ?) OR (custom_key LIKE ?))` */
  function KeyLike(): string {
    "(" + (LikeOf("key") + " OR " + LikeOf("custom_key")) + ")"
  }

  lemma {:induction false} KeyLikeBalanced()
    ensures Count(KeyLike(), '?') == 2
  {
    var key, customKey := LikeOf("key"), LikeOf("custom_key");
    NoPlaceholderIn("key");
    NoPlaceholderIn("custom_key");
    LikeOne("key");
    LikeOne("custom_key");
    OrCount(key, customKey);
    ParenCount(key + " OR " + customKey);
  }

  /** Parentheses add no placeholder. */
  lemma {:induction false} ParenCount(x: string)
    ensures Count("(" + x + ")", '?') == Count(x, '?')
  {
    assert Count("(", '?') == 0 && Count(")", '?') == 0 by {
      assert "("[1..] == "" && ")"[1..] == "";
    }
    CountAppend("(", x, '?');
    CountAppend("(" + x, ")", '?');
  }

  /** `OR` adds no placeholder. */
  lemma {:induction false} OrCount(a: string, b: string)
    ensures Count(a + " OR " + b, '?') == Count(a, '?') + Count(b, '?')
  {
    OrHasNoPlaceholder();
    CountAppend(a, " OR ", '?');
    CountAppend(a + " OR ", b, '?');
  }

  lemma {:induction false} OrHasNoPlaceholder()
    ensures Count(" OR ", '?') == 0
  {
    assert " OR "[1..] == "OR " && "OR "[1..] == "R " && "R "[1..] == " " && " "[1..] == "";
  }

  /** Every plain-table term has exactly as many values as placeholders. */
  lemma {:induction false} LikeTermBalanced(t: string)
    ensures Balanced(LikeTerm(t))
  {
    if !LikeQualified(t) {
      LikeAllBalanced();
    } else {
      var i := QualifierOf(t);
      var spec := SplitOnce(t, ':').value.0;
      if spec == "key" {
        KeyLikeBalanced();
      } else {
        NoPlaceholderIn(spec);
        LikeOne(spec);
      }
    }
  }

  function LikeClauses(terms: seq<string>): (r: seq<Clause>)
    ensures |r| == |terms| && forall i :: 0 <= i < |terms| ==> r[i] == LikeTerm(terms[i])
  {
    seq(|terms|, i requires 0 <= i < |terms| => LikeTerm(terms[i]))
  }

  /** `_format_query_no_fts`: the `WHERE` clause and its values. */
  function NoFtsQuery(terms: seq<string>): Clause {
    Conjunction(LikeClauses(terms))
  }

  method FormatQueryNoFts(terms: seq<string>) returns (whereClause: string, values: seq<string>)
    ensures Clause(whereClause, values) == NoFtsQuery(terms)
  {
    whereClause, values := ConjoinClauses(LikeClauses(terms));
  }

  /** The loop of `_format_query_no_fts` over the terms' conditions. */
  method ConjoinClauses(cs: seq<Clause>) returns (whereClause: string, values: seq<string>)
    ensures Clause(whereClause, values) == Conjunction(cs)
  {
    var sqls: seq<string> := [];
    values := [];
    var i := 0;
    while i < |cs|
      invariant 0 <= i <= |cs|
      invariant sqls == Sqls(cs[..i])
      invariant values == AllValues(cs[..i])
    {
      var c := cs[i];
      assert cs[..i + 1] == cs[..i] + [c];
      AllValuesAppend(cs[..i], c);
      assert Sqls(cs[..i] + [c]) == Sqls(cs[..i]) + [c.sql];
      sqls := sqls + [c.sql];
      values := values + c.values;
      i := i + 1;
    }
    assert cs[..i] == cs;
    whereClause := Join(" AND ", sqls);
  }

  /** The plain-table query has exactly one value per placeholder. */
  lemma {:induction false} NoFtsBalanced(terms: seq<string>)
    ensures Balanced(NoFtsQuery(terms))
  {
    forall i | 0 <= i < |terms| ensures Balanced(LikeClauses(terms)[i]) {
      LikeTermBalanced(terms[i]);
    }
    ConjunctionBalanced(LikeClauses(terms));
  }

  /**
   * With no terms the plain-table statement has an empty `WHERE` condition, which SQLite
   * rejects as incomplete; with terms the condition opens with the first term's parenthesis.
   */
  lemma {:induction false} NoFtsEmptyWhere(terms: seq<string>)
    ensures NoFtsQuery(terms).sql == "" <==> terms == []
    ensures terms != [] ==> NoFtsQuery(terms).sql[0] == '('
  {
    if terms != [] {
      var parts := Sqls(LikeClauses(terms));
      assert parts[0] == LikeTerm(terms[0]).sql;
      LikeTermParen(terms[0]);
      JoinStarts(" AND ", parts);
    }
  }

  /** Every condition of a plain-table term is parenthesised. */
  lemma {:induction false} LikeTermParen(t: string)
    ensures LikeTerm(t).sql != [] && LikeTerm(t).sql[0] == '('
  {
    if LikeQualified(t) {
      var _ := QualifierOf(t);
      var spec := SplitOnce(t, ':').value.0;
      if spec != "key" {
        assert LikeTerm(t).sql == LikeOf(spec);
      }
    }
  }

  /** A join starts with the first part. */
  lemma {:induction false} JoinStarts(sep: string, parts: seq<string>)
    requires parts != [] && parts[0] != []
    ensures Join(sep, parts) != [] && Join(sep, parts)[0] == parts[0][0]
  {
    if |parts| > 1 {
      assert Join(sep, parts) == parts[0] + sep + Join(sep, parts[1..]);
    }
  }

  // ---------------------------------------------------------------------------------
  // The `where` command of the older index

  const WhereColumns: set<string> := {"author", "title", "venue", "year"}

  /** No value holds a `*`. */
  predicate StarFree(c: Clause) {
    forall i :: 0 <= i < |c.values| ==> '*' !in c.values[i]
  }

  /**
   * One `column:pattern` term: `*` in the pattern becomes the SQL wildcard `%`; a term
   * without a colon or with an unknown column is an error exit.
   */
  function WhereTerm(t: string): (r: Result<Clause>)
    ensures r.Err? <==> SplitOnce(t, ':').None? || (SplitOnce(t, ':').value.0 != "key" && SplitOnce(t, ':').value.0 !in WhereColumns)
    ensures r.Ok? ==> r.value == WhereClause(SplitOnce(t, ':').value.0, Translate(SplitOnce(t, ':').value.1, '*', '%'))
  {
    match SplitOnce(t, ':')
    case None => Err("Malformed query term '" + t + "'")
    case Some((column, query)) =>
      if column == "key" || column in WhereColumns then Ok(WhereClause(column, Translate(query, '*', '%')))
      else Err("Unknown search field '" + column + "'")
  }

  /** The condition of a valid column: both key columns for `key`, a `LIKE` on the column otherwise. */
  function WhereClause(column: string, q: string): Clause {
    if column == "key" then Clause(KeyWhere(), [q, q]) else Clause(LikeOf(column), [q])
  }

  /** `(key LIKE ? OR custom_key LIKE ?)` */
  function KeyWhere(): string {
    "(key LIKE ? OR custom_key LIKE ?)"
  }

  /** A valid term: one value per placeholder, each the pattern with `*` turned into `%`. */
  lemma {:induction false} WhereTermWellFormed(t: string)
    requires WhereTerm(t).Ok?
    ensures Balanced(WhereTerm(t).value) && StarFree(WhereTerm(t).value)
    ensures forall i :: 0 <= i < |WhereTerm(t).value.values| ==>
      WhereTerm(t).value.values[i] == Translate(SplitOnce(t, ':').value.1, '*', '%')
  {
    var parts := SplitOnce(t, ':').value;
    WhereClauseWellFormed(parts.0, parts.1);
  }

  /** The condition of a valid column has one value per placeholder, each the translated pattern. */
  lemma {:induction false} WhereClauseWellFormed(column: string, query: string)
    requires column == "key" || column in WhereColumns
    ensures var c := WhereClause(column, Translate(query, '*', '%'));
      Balanced(c) && StarFree(c) && forall i :: 0 <= i < |c.values| ==> c.values[i] == Translate(query, '*', '%')
  {
    var q := Translate(query, '*', '%');
    var c := WhereClause(column, q);
    assert forall i :: 0 <= i < |c.values| ==> c.values[i] == q;
    assert '*' !in q by {
      assert forall k :: 0 <= k < |q| ==> q[k] != '*';
    }
    if column == "key" {
      assert c == Clause(KeyWhere(), [q, q]);
      KeyWhereBalanced();
    } else {
      assert c == Clause(LikeOf(column), [q]);
      WhereColumnPlain(column);
      LikeOne(column);
    }
  }

  /** The column names of `where` hold no placeholder. */
  lemma {:induction false} WhereColumnPlain(column: string)
    requires column in WhereColumns
    ensures Count(column, '?') == 0
  {
    LettersOnly(column);
  }

  /** A name made of lower-case letters holds no placeholder. */
  lemma {:induction false} LettersOnly(name: string)
    requires name == "author" || name == "title" || name == "venue" || name == "year"
    ensures Count(name, '?') == 0
  {
    NoPlaceholderIn(name);
  }

  lemma {:induction false} KeyWhereBalanced()
    ensures Count(KeyWhere(), '?') == 2
  {
    var p1, p2, p3 := KeyWhereParts();
    NoPlaceholderIn(p1);
    NoPlaceholderIn(p2);
    NoPlaceholderIn(p3);
    TwoPlaceholders(p1, p2, p3);
  }

  lemma {:induction false} KeyWhereParts() returns (p1: string, p2: string, p3: string)
    ensures KeyWhere() == p1 + "?" + p2 + "?" + p3
    ensures forall k :: 0 <= k < |p1| ==> p1[k] != '?'
    ensures forall k :: 0 <= k < |p2| ==> p2[k] != '?'
    ensures forall k :: 0 <= k < |p3| ==> p3[k] != '?'
  {
    p1, p2, p3 := "(key LIKE ", " OR custom_key LIKE ", ")";
  }

  lemma {:induction false} TwoPlaceholders(p1: string, p2: string, p3: string)
    requires Count(p1, '?') == 0 && Count(p2, '?') == 0 && Count(p3, '?') == 0
    ensures Count(p1 + "?" + p2 + "?" + p3, '?') == 2
  {
    assert Count("?", '?') == 1 by { assert "?"[1..] == ""; }
    CountAppend(p1, "?", '?');
    CountAppend(p1 + "?", p2, '?');
    CountAppend(p1 + "?" + p2, "?", '?');
    CountAppend(p1 + "?" + p2 + "?", p3, '?');
  }

  function WhereResults(terms: seq<string>): (r: seq<Result<Clause>>)
    ensures |r| == |terms| && forall i :: 0 <= i < |terms| ==> r[i] == WhereTerm(terms[i])
  {
    seq(|terms|, i requires 0 <= i < |terms| => WhereTerm(terms[i]))
  }

  /** The conjunction of the terms' conditions, or the first term's error. */
  function LegacyWhere(terms: seq<string>): Result<Clause> {
    ConjoinedOk(WhereResults(terms))
  }

  /** The conjunction of the conditions when every term is valid, else the first failure. */
  function ConjoinedOk(rs: seq<Result<Clause>>): Result<Clause> {
    match CollectOk(rs)
    case Err(m) => Err(m)
    case Ok(cs) => Ok(Conjunction(cs))
  }

  /** The condition loop of `where`. */
  method BuildWhere(terms: seq<string>) returns (r: Result<Clause>)
    ensures r == LegacyWhere(terms)
  {
    var results := WhereResults(terms);
    r := ConjoinChecked(results);
  }

  /** The loop body of `where` over the checked terms: appends each condition and its values. */
  method ConjoinChecked(results: seq<Result<Clause>>) returns (r: Result<Clause>)
    ensures r == ConjoinedOk(results)
  {
    var columns: seq<string> := [];
    var args: seq<string> := [];
    var i := 0;
    ghost var clauses: seq<Clause> := [];
    while i < |results|
      invariant 0 <= i <= |results| && |clauses| == i
      invariant forall j :: 0 <= j < i ==> results[j] == Ok(clauses[j])
      invariant columns == Sqls(clauses) && args == AllValues(clauses)
    {
      var c := results[i];
      if c.Err? {
        CollectFirstErr(results, i);
        return Err(c.error);
      }
      AllValuesAppend(clauses, c.value);
      assert Sqls(clauses + [c.value]) == Sqls(clauses) + [c.value.sql];
      clauses := clauses + [c.value];
      columns := columns + [c.value.sql];
      args := args + c.value.values;
      i := i + 1;
    }
    assert CollectOk(results).value == clauses;
    return Ok(Clause(Join(" AND ", columns), args));
  }

  /** A `where` query has one value per placeholder and no `*` left in its values. */
  lemma {:induction false} LegacyWhereWellFormed(terms: seq<string>)
    requires LegacyWhere(terms).Ok?
    ensures Balanced(LegacyWhere(terms).value)
    ensures StarFree(LegacyWhere(terms).value)
  {
    var cs := CollectOk(WhereResults(terms)).value;
    forall i | 0 <= i < |cs| ensures Balanced(cs[i]) && StarFree(cs[i]) {
      assert WhereResults(terms)[i] == Ok(cs[i]);
      WhereTermWellFormed(terms[i]);
    }
    ConjunctionBalanced(cs);
    NoStarValues(cs);
  }

  lemma {:induction false} NoStarValues(cs: seq<Clause>)
    requires forall i :: 0 <= i < |cs| ==> StarFree(cs[i])
    ensures StarFree(Clause("", AllValues(cs)))
    decreases |cs|
  {
    if cs != [] {
      NoStarValues(cs[1..]);
      var rest := AllValues(cs[1..]);
      assert AllValues(cs) == cs[0].values + rest;
      assert StarFree(cs[0]);
      forall i | 0 <= i < |AllValues(cs)| ensures '*' !in AllValues(cs)[i] {
        if i < |cs[0].values| {
          assert AllValues(cs)[i] == cs[0].values[i];
        } else {
          assert AllValues(cs)[i] == rest[i - |cs[0].values|];
        }
      }
    }
  }
}
