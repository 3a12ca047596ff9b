/**
 * The private bibliography index: a `bib` table of entries with unique keys and unique
 * custom keys, the set of collection files already downloaded, and the cached result of
 * the last search. SQLite itself is not modelled: the table is a sequence of rows that
 * the operations rewrite, and the execution of a search statement is a parameter.
 */
module BibDb {
  import opened Wrappers
  import opened Strings
  import opened Records
  import opened CustomKey
  import opened Table
  import Queries

  /** What `add` reports: `False` for an entry without a key, else whether it was added and the warnings. */
  datatype AddOutcome = NoKey | Added(added: bool, warnings: seq<string>)

  /** What `update` ends in. */
  datatype UpdateOutcome = NotUpdated | Updated | CustomKeyTaken | Raised(error: string)

  /** The entry `add` stores: a placeholder author when it has none, and its key kept as `original_key`. */
  function Prepared(e: Entry): (p: Entry)
    ensures p.key == e.key && p.authors != []
    ensures p.fields == e.fields["original_key" := e.key]
    ensures e.authors != [] ==> p.authors == e.authors
  {
    Entry(e.key, e.fields["original_key" := e.key], if e.authors == [] then [UnknownAuthor] else e.authors)
  }

  /** The row `add` inserts for `e` under custom key `c`. */
  function AddedRow(e: Entry, c: Option<string>): (r: Row)
    ensures r.key == e.key && r.customKey == c
    ensures r.fulltext.fields == e.fields["original_key" := e.key] && r.fulltext.authors != []
    ensures c.Some? && c.value != "" ==> r.fulltext.key == c.value
  {
    var p := Prepared(e);
    NewRow(p, c, AuthorsToUnicode(p).value)
  }

  class BibDB {
    var rows: seq<Row>
    var downloaded: set<string>
    var searchCache: Option<seq<Hit>>
    const hasFts: bool
    const keyConfig: KeyConfig
    const macros: map<string, string>

    predicate Valid()
      reads this
    {
      Unique(rows)
    }

    /** Opens an index holding `rows`, with or without the full-text table. */
    constructor(hasFts: bool, keyConfig: KeyConfig, macros: map<string, string>, rows: seq<Row>, downloaded: set<string>)
      requires Unique(rows)
      ensures Valid()
      ensures this.hasFts == hasFts && this.keyConfig == keyConfig && this.macros == macros
      ensures this.rows == rows && this.downloaded == downloaded && searchCache == None
    {
      this.hasFts := hasFts;
      this.keyConfig := keyConfig;
      this.macros := macros;
      this.rows := rows;
      this.downloaded := downloaded;
      this.searchCache := None;
    }

    /** `__len__`: the number of stored entries. */
    method Len() returns (n: nat)
      ensures n == |rows|
    {
      n := |rows|;
    }

    /**
     * `add`: inserts the entry under the first custom key of the retry schedule that no
     * row holds, unless its key is empty or already stored. The source loops forever when
     * even the entry's own key is taken as a custom key; the precondition excludes that.
     */
    method Add(e: Entry) returns (r: AddOutcome)
      requires Valid()
      requires e.key != "" && e.key !in Keys(rows) ==> ChosenTry(rows, Prepared(e), keyConfig).Some?
      modifies this
      ensures Valid()
      ensures downloaded == old(downloaded) && searchCache == old(searchCache)
      ensures e.key == "" ==> r == NoKey && rows == old(rows)
      ensures e.key != "" && e.key in Keys(old(rows)) ==> r == Added(false, []) && rows == old(rows)
      ensures e.key != "" && e.key !in Keys(old(rows)) ==>
        var t := ChosenTry(old(rows), Prepared(e), keyConfig).value;
        rows == old(rows) + [AddedRow(e, Candidate(Prepared(e), keyConfig, t))] &&
        r == Added(true, if t == MaxTries then [UniqueKeyWarning(e.key)] else [])
    {
      if e.key == "" {
        return NoKey;
      }
      var p := Prepared(e);
      var added, customKey, warnings := ChooseCustomKey(rows, p, keyConfig);
      if !added {
        return Added(false, warnings);
      }
      ChosenRowUnique(rows, p, keyConfig, AuthorsToUnicode(p).value);
      rows := rows + [NewRow(p, customKey, AuthorsToUnicode(p).value)];
      return Added(true, warnings);
    }

    /** `remove`: deletes every row whose key or custom key is `k`. */
    method Remove(k: string)
      requires Valid()
      modifies this
      ensures Valid()
      ensures rows == Without(old(rows), k)
      ensures downloaded == old(downloaded) && searchCache == old(searchCache)
    {
      WithoutUnique(rows, k);
      rows := Without(rows, k);
    }

    /**
     * `search_key`: the full text of the first row whose key or custom key is `k`,
     * serialised under `k`; `None` when no row matches.
     */
    function SearchKey(k: string): (r: Option<Entry>)
      reads this
      ensures r.None? <==> forall j :: 0 <= j < |rows| ==> !Matches(rows[j], k)
      ensures r.Some? ==> exists j :: (0 <= j < |rows| && Matches(rows[j], k) &&
        r.value.fields == rows[j].fulltext.fields && r.value.authors == rows[j].fulltext.authors)
      ensures r.Some? && k != "" ==> r.value.key == k
    {
      match FirstMatch(rows, k)
      case None => None
      case Some(i) => Some(ToFulltext(rows[i].fulltext, Some(k)))
    }

    /**
     * `update_custom_key`: gives the row with key `originalKey` the custom key `newKey`
     * and re-serialises its full text under it. A missing row fails, and so does a custom
     * key another row holds (the source logs it and exits).
     */
    method UpdateCustomKey(originalKey: string, newKey: string) returns (r: Result<()>)
      requires Valid()
      modifies this
      ensures Valid()
      ensures downloaded == old(downloaded) && searchCache == old(searchCache)
      ensures r.Err? <==> originalKey !in Keys(old(rows)) || HeldElsewhere(old(rows), KeyIndex(old(rows), originalKey).value, newKey)
      ensures r.Err? ==> rows == old(rows)
      ensures r.Ok? ==> var i := KeyIndex(old(rows), originalKey).value;
        rows == old(rows)[i := old(rows)[i].(customKey := Some(newKey), fulltext := old(rows)[i].fulltext.(key := newKey))]
    {
      var found := KeyIndex(rows, originalKey);
      if found.None? {
        return Err("TypeError: 'NoneType' object is not subscriptable");
      }
      var i := found.value;
      if HeldElsewhere(rows, i, newKey) {
        return Err("Key " + newKey + " already exists in the database");
      }
      var entry := rows[i].fulltext.(key := newKey);
      var row := rows[i].(customKey := Some(newKey), fulltext := ToFulltext(entry, None));
      ReplaceUnique(rows, i, row);
      rows := rows[i := row];
      return Ok(());
    }

    /**
     * `update`: rewrites the columns of the row whose key is the entry's `original_key`
     * field, taking the entry's key as the new custom key. A row holding that custom key
     * already makes the update fail without change; no matching row changes nothing.
     */
    method Update(e: Entry) returns (r: UpdateOutcome)
      requires Valid()
      modifies this
      ensures Valid()
      ensures downloaded == old(downloaded) && searchCache == old(searchCache)
      ensures e.key == "" ==> r == NotUpdated
      ensures e.key != "" && "original_key" !in e.fields ==> r.Raised?
      ensures e.key != "" && "original_key" in e.fields && e.authors == [] ==> r.Raised?
      ensures r != Updated ==> rows == old(rows)
      ensures r == Updated ==> ("original_key" in e.fields && e.authors != [] &&
        var k := e.fields["original_key"];
        (k !in Keys(old(rows)) ==> rows == old(rows)) &&
        (k in Keys(old(rows)) ==> var i := KeyIndex(old(rows), k).value;
          rows == old(rows)[i := Row(k, Some(e.key), AuthorsToUnicode(e).value, FieldToUnicode(e, "title"), Venue(e), YearText(e), e)]))
      ensures r == CustomKeyTaken <==> (e.key != "" && "original_key" in e.fields && e.authors != [] &&
        e.fields["original_key"] in Keys(old(rows)) &&
        HeldElsewhere(old(rows), KeyIndex(old(rows), e.fields["original_key"]).value, e.key))
    {
      if e.key == "" {
        return NotUpdated;
      }
      if "original_key" !in e.fields {
        return Raised("KeyError: 'original_key'");
      }
      var originalKey := e.fields["original_key"];
      var author := AuthorsToUnicode(e);
      if author.Err? {
        return Raised(author.error);
      }
      var found := KeyIndex(rows, originalKey);
      if found.None? {
        return Updated;
      }
      var i := found.value;
      if HeldElsewhere(rows, i, e.key) {
        return CustomKeyTaken;
      }
      var row := Row(originalKey, Some(e.key), author.value, FieldToUnicode(e, "title"), Venue(e), YearText(e), ToFulltext(e, None));
      ReplaceUnique(rows, i, row);
      rows := rows[i := row];
      return Updated;
    }

    /** `file_has_been_downloaded` */
    predicate FileHasBeenDownloaded(file: string)
      reads this
    {
      file in downloaded
    }

    /** `register_file_downloaded`: records the file; registering it again changes nothing. */
    method RegisterFileDownloaded(file: string)
      modifies this
      ensures downloaded == old(downloaded) + {file}
      ensures FileHasBeenDownloaded(file)
      ensures forall f :: f != file ==> (FileHasBeenDownloaded(f) <==> old(FileHasBeenDownloaded(f)))
      ensures rows == old(rows) && searchCache == old(searchCache)
    {
      if file !in downloaded {
        downloaded := downloaded + {file};
      }
    }

    /**
     * `search`: translates the terms for the full-text index when there is one and for a
     * `LIKE` filter otherwise, runs the statement, and caches and returns the hits. A term
     * the full-text translation rejects fails before anything runs; a statement SQLite
     * rejects (an unbalanced quote in a full-text query, the empty condition of a
     * plain-table query with no terms) fails without touching the cache.
     */
    method Search(terms: seq<string>, run: SqlQuery -> Result<seq<Hit>>) returns (r: Result<seq<Hit>>)
      requires Valid()
      modifies this
      ensures Valid()
      ensures rows == old(rows) && downloaded == old(downloaded)
      ensures hasFts && Queries.FtsQuery(macros, terms).Err? ==> r.Err?
      ensures hasFts && Queries.FtsQuery(macros, terms).Ok? ==>
        r == run(MatchQuery(Queries.FtsQuery(macros, terms).value))
      ensures !hasFts ==> var q := Queries.NoFtsQuery(terms);
        r == run(WhereQuery(q.sql, q.values))
      ensures r.Ok? ==> searchCache == Some(r.value)
      ensures r.Err? ==> searchCache == old(searchCache)
    {
      if hasFts {
        var q := Queries.FormatQueryFts(macros, terms);
        if q.Err? {
          return Err(q.error);
        }
        r := run(MatchQuery(q.value));
      } else {
        var whereClause, values := Queries.FormatQueryNoFts(terms);
        r := run(WhereQuery(whereClause, values));
      }
      if r.Ok? {
        searchCache := Some(r.value);
      }
    }
  }

  // -----------------------------------------------------------------------------------
  // Properties of the operations over the table

  /** After a removal nothing answers to the removed key. */
  lemma {:induction false} RemovedKeyNotFound(rows: seq<Row>, k: string)
    ensures forall j :: 0 <= j < |Without(rows, k)| ==> !Matches(Without(rows, k)[j], k)
    ensures FirstMatch(Without(rows, k), k).None?
  {
    var w := Without(rows, k);
    forall j | 0 <= j < |w| ensures !Matches(w[j], k) {
      assert w[j] in w;
    }
  }

  /** Removing a key twice is removing it once. */
  lemma {:induction false} RemoveIdempotent(rows: seq<Row>, k: string)
    ensures Without(Without(rows, k), k) == Without(rows, k)
  {
    WithoutIdempotent(rows, k);
  }

  /** A removal keeps every row that does not answer to the key, and only those. */
  lemma {:induction false} RemoveKeepsOthers(rows: seq<Row>, k: string, x: Row)
    ensures x in Without(rows, k) <==> x in rows && !Matches(x, k)
  {
  }

  /** A freshly added entry is found again by its key, under that key. */
  lemma {:induction false} AddedFoundByKey(rows: seq<Row>, e: Entry, c: Option<string>)
    requires e.key != "" && forall j :: 0 <= j < |rows| ==> !Matches(rows[j], e.key)
    ensures var s := rows + [AddedRow(e, c)];
      FirstMatch(s, e.key) == Some(|rows|) && ToFulltext(s[|rows|].fulltext, Some(e.key)).key == e.key
  {
    var s := rows + [AddedRow(e, c)];
    assert s[|rows|].key == e.key;
    assert forall j :: 0 <= j < |rows| ==> s[j] == rows[j];
    FirstMatchAfter(rows, AddedRow(e, c), e.key);
  }

  lemma {:induction false} FirstMatchAfter(rows: seq<Row>, x: Row, k: string)
    requires forall j :: 0 <= j < |rows| ==> !Matches(rows[j], k)
    requires Matches(x, k)
    ensures FirstMatch(rows + [x], k) == Some(|rows|)
    decreases |rows|
  {
    if rows == [] {
      assert [] + [x] == [x];
    } else {
      assert (rows + [x])[1..] == rows[1..] + [x];
      FirstMatchAfter(rows[1..], x, k);
    }
  }

  /** The custom key an entry is added under is the first of the schedule no row holds. */
  lemma {:induction false} AddedCustomKey(rows: seq<Row>, e: Entry, cfg: KeyConfig)
    requires ChosenTry(rows, Prepared(e), cfg).Some?
    ensures var t := ChosenTry(rows, Prepared(e), cfg).value;
      var c := Candidate(Prepared(e), cfg, t);
      Free(rows, c) &&
      (t < MaxTries && c.Some? ==> c == Some(GenerateCustomKey(Prepared(e), cfg, t).value)) &&
      (t == MaxTries ==> c == Some(e.key)) &&
      forall u :: 0 <= u < t ==> !Free(rows, Candidate(Prepared(e), cfg, u))
  {
    ChosenCandidate(rows, Prepared(e), cfg);
  }
}
