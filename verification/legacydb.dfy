/**
 * The older index at the top of the repository: the same `bib` table, a `search` that
 * needs the full-text index, a `where` command of `column:pattern` filters, and an `add`
 * that reports only whether the entry was stored. The key generator it imports from the
 * top-level `bibutils` module is taken to behave as the packaged one.
 */
module LegacyDb {
  import opened Wrappers
  import opened Records
  import opened CustomKey
  import opened Table
  import Queries

  /** The placeholder the older `add` writes into an empty or missing `author` field, spelled as it is. */
  const AuthorPlaceholder: string := "UNKNWON"

  /** The entry the older `add` stores: an empty or missing author field is replaced by the placeholder. */
  function LegacyPrepared(e: Entry): (p: Entry)
    ensures p.key == e.key && p.authors == e.authors && "author" in p.fields
    ensures "author" in e.fields && e.fields["author"] != "" ==> p == e
    ensures !("author" in e.fields && e.fields["author"] != "") ==> p.fields == e.fields["author" := AuthorPlaceholder]
  {
    if "author" in e.fields && e.fields["author"] != "" then e
    else e.(fields := e.fields["author" := AuthorPlaceholder])
  }

  /** The row the older `add` inserts for `e` under custom key `c`: its author column is the converted field. */
  function LegacyRow(e: Entry, c: Option<string>): (r: Row)
    ensures r.key == e.key && r.customKey == c
    ensures r.fulltext.authors == e.authors && "author" in r.fulltext.fields
    ensures c.Some? && c.value != "" ==> r.fulltext.key == c.value
  {
    var p := LegacyPrepared(e);
    NewRow(p, c, FieldToUnicode(p, "author").value)
  }

  class LegacyBibDB {
    var rows: seq<Row>
    var searchCache: Option<seq<Hit>>
    const hasFts: bool
    const keyConfig: KeyConfig
    const macros: map<string, string>

    predicate Valid()
      reads this
    {
      Unique(rows)
    }

    constructor(hasFts: bool, keyConfig: KeyConfig, macros: map<string, string>, rows: seq<Row>, searchCache: Option<seq<Hit>>)
      requires Unique(rows)
      ensures Valid()
      ensures this.hasFts == hasFts && this.keyConfig == keyConfig && this.macros == macros
      ensures this.rows == rows && this.searchCache == searchCache
    {
      this.hasFts := hasFts;
      this.keyConfig := keyConfig;
      this.macros := macros;
      this.rows := rows;
      this.searchCache := searchCache;
    }

    /**
     * `add`: `false` for an empty or already stored key; otherwise the entry is inserted
     * under the first free custom key of the retry schedule and the result is `true`.
     */
    method Add(e: Entry) returns (added: bool)
      requires Valid()
      requires e.key != "" && e.key !in Keys(rows) ==> ChosenTry(rows, LegacyPrepared(e), keyConfig).Some?
      modifies this
      ensures Valid()
      ensures searchCache == old(searchCache)
      ensures added <==> e.key != "" && e.key !in Keys(old(rows))
      ensures !added ==> rows == old(rows)
      ensures added ==> var p := LegacyPrepared(e);
        rows == old(rows) + [LegacyRow(e, Candidate(p, keyConfig, ChosenTry(old(rows), p, keyConfig).value))]
    {
      if e.key == "" {
        return false;
      }
      var p := LegacyPrepared(e);
      var ok, customKey, _ := ChooseCustomKey(rows, p, keyConfig);
      if !ok {
        return false;
      }
      ChosenRowUnique(rows, p, keyConfig, FieldToUnicode(p, "author").value);
      rows := rows + [NewRow(p, customKey, FieldToUnicode(p, "author").value)];
      return true;
    }

    /**
     * `search`: with no terms, the cached hits of the last search (`None` when there are
     * none); otherwise the full-text query, which fails without the full-text index. A
     * statement SQLite rejects fails without touching the cache.
     */
    method Search(terms: seq<string>, run: SqlQuery -> Result<seq<Hit>>) returns (r: Result<Option<seq<Hit>>>)
      requires Valid()
      modifies this
      ensures Valid() && rows == old(rows)
      ensures terms == [] ==> r == Ok(old(searchCache)) && searchCache == old(searchCache)
      ensures terms != [] && (Queries.FtsQuery(macros, terms).Err? || !hasFts) ==> r.Err? && searchCache == old(searchCache)
      ensures terms != [] && Queries.FtsQuery(macros, terms).Ok? && hasFts ==>
        var ran := run(MatchQuery(Queries.FtsQuery(macros, terms).value));
        (ran.Ok? ==> r == Ok(Some(ran.value)) && searchCache == r.value) &&
        (ran.Err? ==> r == Err(ran.error) && searchCache == old(searchCache))
    {
      if terms == [] {
        return Ok(searchCache);
      }
      var q := Queries.FormatQueryFts(macros, terms);
      if q.Err? {
        return Err(q.error);
      }
      if !hasFts {
        return Err("The database was created without fts5 indexing, the 'search' command is not supported.");
      }
      var ran := run(MatchQuery(q.value));
      if ran.Err? {
        return Err(ran.error);
      }
      searchCache := Some(ran.value);
      return Ok(Some(ran.value));
    }

    /**
     * `where`: the conjunction of the `column:pattern` terms; a malformed term or an
     * unknown column is an error exit. With no terms the cached hits are returned; a
     * statement SQLite rejects fails without touching the cache.
     */
    method Where(terms: seq<string>, run: SqlQuery -> Result<seq<Hit>>) returns (r: Result<seq<Hit>>)
      requires Valid()
      modifies this
      ensures Valid() && rows == old(rows)
      ensures Queries.LegacyWhere(terms).Err? ==> r.Err? && searchCache == old(searchCache)
      ensures terms == [] ==> r == Ok(if old(searchCache).Some? then old(searchCache).value else []) && searchCache == old(searchCache)
      ensures terms != [] && Queries.LegacyWhere(terms).Ok? ==>
        var c := Queries.LegacyWhere(terms).value;
        r == run(WhereQuery(c.sql, c.values)) &&
        (r.Ok? ==> searchCache == Some(r.value)) && (r.Err? ==> searchCache == old(searchCache))
    {
      var c := Queries.BuildWhere(terms);
      if c.Err? {
        return Err(c.error);
      }
      if terms == [] {
        return Ok(if searchCache.Some? then searchCache.value else []);
      }
      r := run(WhereQuery(c.value.sql, c.value.values));
      if r.Ok? {
        searchCache := Some(r.value);
      }
    }
  }
}
