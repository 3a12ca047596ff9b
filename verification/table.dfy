/**
 * The `bib` table both index classes keep: its rows, the uniqueness of the `key` and
 * `custom_key` columns, the rows a key selects, and the retry schedule by which a new
 * entry gets a custom key that no stored row holds.
 */
module Table {
  import opened Wrappers
  import opened Strings
  import opened Records
  import opened CustomKey

  /** A row of `bib`; SQL NULL is `None`. The full text is the serialised entry. */
  datatype Row = Row(key: string, customKey: Option<string>, author: string, title: Option<string>,
                     venue: Option<string>, year: string, fulltext: Entry)

  /** One search result: the stored full text and the row's key. */
  datatype Hit = Hit(fulltext: Entry, key: string)

  /** The statement handed to SQLite: an FTS5 `MATCH` text, or a `WHERE` clause with its parameters. */
  datatype SqlQuery = MatchQuery(text: string) | WhereQuery(clause: string, values: seq<string>)

  /** Two rows may coexist: different keys, and different custom keys unless one is NULL. */
  predicate Distinct(a: Row, b: Row) {
    a.key != b.key && (a.customKey.Some? && b.customKey.Some? ==> a.customKey != b.customKey)
  }

  /** The `UNIQUE` constraints of `key` and `custom_key` (SQLite admits any number of NULLs). */
  predicate Unique(rows: seq<Row>) {
    forall i, j :: 0 <= i < j < |rows| ==> Distinct(rows[i], rows[j])
  }

  function Keys(rows: seq<Row>): set<string> {
    set r | r in rows :: r.key
  }

  function CustomKeys(rows: seq<Row>): set<string> {
    set r | r in rows && r.customKey.Some? :: r.customKey.value
  }

  /** `key=? OR custom_key=?` */
  predicate Matches(r: Row, k: string) {
    r.key == k || r.customKey == Some(k)
  }

  /** A custom key the table accepts next to `rows`: NULL, or one no row holds. */
  predicate Free(rows: seq<Row>, c: Option<string>) {
    c.None? || c.value !in CustomKeys(rows)
  }

  lemma {:induction false} UniqueCons(x: Row, rows: seq<Row>)
    ensures Unique([x] + rows) <==> Unique(rows) && forall j :: 0 <= j < |rows| ==> Distinct(x, rows[j])
  {
    var s := [x] + rows;
    if Unique(s) {
      forall i, j | 0 <= i < j < |rows| ensures Distinct(rows[i], rows[j]) {
        assert s[i + 1] == rows[i] && s[j + 1] == rows[j];
      }
      forall j | 0 <= j < |rows| ensures Distinct(x, rows[j]) {
        assert s[0] == x && s[j + 1] == rows[j];
      }
    }
  }

  /** Appending a row adds its key. */
  lemma {:induction false} KeyOfAppended(rows: seq<Row>, r: Row)
    ensures Keys(rows + [r]) == Keys(rows) + {r.key}
  {
    var after := rows + [r];
    assert after[|rows|] == r;
    forall x | x in after ensures x in rows || x == r {
      var j :| 0 <= j < |after| && after[j] == x;
      if j < |rows| { assert x == rows[j]; }
    }
  }

  /** Appending a row whose key and custom key are free keeps the constraints. */
  lemma {:induction false} AppendUnique(rows: seq<Row>, r: Row)
    requires Unique(rows) && r.key !in Keys(rows) && Free(rows, r.customKey)
    ensures Unique(rows + [r])
  {
    var s := rows + [r];
    forall i, j | 0 <= i < j < |s| ensures Distinct(s[i], s[j]) {
      if j == |rows| {
        assert s[i] == rows[i] && rows[i] in rows;
        assert s[i].key in Keys(rows);
        if s[i].customKey.Some? {
          assert s[i].customKey.value in CustomKeys(rows);
        }
      }
    }
  }

  /** Replacing row `i` by one with the same key and a custom key no other row holds keeps the constraints. */
  lemma {:induction false} ReplaceUnique(rows: seq<Row>, i: nat, r: Row)
    requires Unique(rows) && i < |rows| && r.key == rows[i].key
    requires r.customKey.Some? ==> forall j :: 0 <= j < |rows| && j != i ==> rows[j].customKey != r.customKey
    ensures Unique(rows[i := r])
  {
    var s := rows[i := r];
    forall a, b | 0 <= a < b < |s| ensures Distinct(s[a], s[b]) {
      if a == i {
        assert Distinct(rows[i], rows[b]);
      } else if b == i {
        assert Distinct(rows[a], rows[i]);
      } else {
        assert Distinct(rows[a], rows[b]);
      }
    }
  }

  /** The rows a `DELETE ... WHERE key=? or custom_key=?` leaves, in their order. */
  function Without(rows: seq<Row>, k: string): (r: seq<Row>)
    ensures forall x :: x in r <==> x in rows && !Matches(x, k)
    ensures |r| <= |rows|
    decreases |rows|
  {
    if rows == [] then []
    else if Matches(rows[0], k) then Without(rows[1..], k)
    else [rows[0]] + Without(rows[1..], k)
  }

  /** Deleting rows keeps the constraints. */
  lemma {:induction false} WithoutUnique(rows: seq<Row>, k: string)
    requires Unique(rows)
    ensures Unique(Without(rows, k))
    decreases |rows|
  {
    if rows != [] {
      assert rows == [rows[0]] + rows[1..];
      UniqueCons(rows[0], rows[1..]);
      WithoutUnique(rows[1..], k);
      if !Matches(rows[0], k) {
        var rest := Without(rows[1..], k);
        forall j | 0 <= j < |rest| ensures Distinct(rows[0], rest[j]) {
          assert rest[j] in rows[1..];
          var m :| 0 <= m < |rows[1..]| && rows[1..][m] == rest[j];
        }
        UniqueCons(rows[0], rest);
      }
    }
  }

  /** Deleting twice deletes nothing more. */
  lemma {:induction false} WithoutIdempotent(rows: seq<Row>, k: string)
    ensures Without(Without(rows, k), k) == Without(rows, k)
    decreases |rows|
  {
    if rows != [] {
      WithoutIdempotent(rows[1..], k);
      if !Matches(rows[0], k) {
        var rest := Without(rows[1..], k);
        assert ([rows[0]] + rest)[0] == rows[0] && ([rows[0]] + rest)[1..] == rest;
      }
    }
  }

  /** Deleting rows that match no row changes nothing. */
  lemma {:induction false} WithoutAbsent(rows: seq<Row>, k: string)
    requires forall j :: 0 <= j < |rows| ==> !Matches(rows[j], k)
    ensures Without(rows, k) == rows
    decreases |rows|
  {
    if rows != [] {
      assert !Matches(rows[0], k);
      assert forall j :: 0 <= j < |rows[1..]| ==> rows[1..][j] == rows[j + 1];
      WithoutAbsent(rows[1..], k);
      assert rows == [rows[0]] + rows[1..];
    }
  }

  /** The first row `key=? OR custom_key=?` selects. */
  function FirstMatch(rows: seq<Row>, k: string): (r: Option<nat>)
    ensures r.Some? ==> r.value < |rows| && Matches(rows[r.value], k)
    ensures r.Some? ==> forall j :: 0 <= j < r.value ==> !Matches(rows[j], k)
    ensures r.None? ==> forall j :: 0 <= j < |rows| ==> !Matches(rows[j], k)
    decreases |rows|
  {
    if rows == [] then None
    else if Matches(rows[0], k) then Some(0)
    else match FirstMatch(rows[1..], k)
      case None => None
      case Some(i) => Some(i + 1)
  }

  /** The row `key=?` selects. */
  function KeyIndex(rows: seq<Row>, k: string): (r: Option<nat>)
    ensures r.Some? ==> r.value < |rows| && rows[r.value].key == k
    ensures r.None? <==> k !in Keys(rows)
    decreases |rows|
  {
    if rows == [] then None
    else if rows[0].key == k then Some(0)
    else match KeyIndex(rows[1..], k)
      case None =>
        assert forall x :: x in rows ==> x == rows[0] || x in rows[1..];
        None
      case Some(i) => Some(i + 1)
  }

  /** Under the constraints the row a key selects is the only one with that key. */
  lemma {:induction false} KeyIndexOnly(rows: seq<Row>, k: string)
    requires Unique(rows) && KeyIndex(rows, k).Some?
    ensures forall j :: 0 <= j < |rows| && rows[j].key == k ==> j == KeyIndex(rows, k).value
  {
    var i := KeyIndex(rows, k).value;
    forall j | 0 <= j < |rows| && rows[j].key == k ensures j == i {
    }
  }

  /** Whether a row other than `i` holds custom key `c`. */
  predicate HeldElsewhere(rows: seq<Row>, i: nat, c: string) {
    exists j :: 0 <= j < |rows| && j != i && rows[j].customKey == Some(c)
  }

  /** The `venue` column: the journal, or the book title when the journal is missing or empty. */
  function Venue(e: Entry): (r: Option<string>)
    ensures FieldToUnicode(e, "journal").Some? && FieldToUnicode(e, "journal").value != "" ==> r == FieldToUnicode(e, "journal")
    ensures FieldToUnicode(e, "journal").None? || FieldToUnicode(e, "journal").value == "" ==> r == FieldToUnicode(e, "booktitle")
  {
    var j := FieldToUnicode(e, "journal");
    if j.Some? && j.value != "" then j else FieldToUnicode(e, "booktitle")
  }

  /** The `year` column: `str()` of the year field, which is `None` when it is missing. */
  function YearText(e: Entry): string {
    if "year" in e.fields then e.fields["year"] else "None"
  }

  /** The row inserted for entry `e` under custom key `c` with author column `author`. */
  function NewRow(e: Entry, c: Option<string>, author: string): (r: Row)
    ensures r.key == e.key && r.customKey == c && r.author == author
    ensures r.title == FieldToUnicode(e, "title") && r.venue == Venue(e) && r.year == YearText(e)
    ensures r.fulltext.fields == e.fields && r.fulltext.authors == e.authors
    ensures c.Some? && c.value != "" ==> r.fulltext.key == c.value
  {
    Row(e.key, c, author, FieldToUnicode(e, "title"), Venue(e), YearText(e), ToFulltext(e, c))
  }

  /** Generated custom keys are tried for levels 0 to 26; after that the original key is used. */
  const MaxTries: nat := 27

  /**
   * The custom key of attempt `t`: a generated key for `t < 27`, NULL when generation
   * fails, and the entry's own key from attempt 27 on.
   */
  function Candidate(e: Entry, cfg: KeyConfig, t: nat): (c: Option<string>)
    ensures t >= MaxTries ==> c == Some(e.key)
  {
    if t < MaxTries then
      match GenerateCustomKey(e, cfg, t)
      case Ok(k) => Some(k)
      case Err(_) => None
    else Some(e.key)
  }

  /** Below attempt 27 the candidate is the generated key, or NULL when generation fails. */
  lemma {:induction false} GeneratedCandidate(e: Entry, cfg: KeyConfig, t: nat)
    requires t < MaxTries
    ensures Candidate(e, cfg, t).Some? <==> GenerateCustomKey(e, cfg, t).Ok?
    ensures Candidate(e, cfg, t).Some? ==> Candidate(e, cfg, t).value == GenerateCustomKey(e, cfg, t).value
  {
  }

  /** The custom keys of attempts 0 to 27, in order. */
  function Candidates(e: Entry, cfg: KeyConfig): (cs: seq<Option<string>>)
    ensures |cs| == MaxTries + 1
    ensures forall u :: 0 <= u < |cs| ==> cs[u] == Candidate(e, cfg, u)
  {
    seq(MaxTries + 1, u requires 0 <= u <= MaxTries => Candidate(e, cfg, u))
  }

  /** The first position from `t` on whose proposed custom key the table accepts. */
  function FirstFree(rows: seq<Row>, cands: seq<Option<string>>, t: nat): (r: Option<nat>)
    requires t <= |cands|
    ensures r.Some? ==> t <= r.value < |cands| && Free(rows, cands[r.value])
    ensures r.Some? ==> forall u :: t <= u < r.value ==> !Free(rows, cands[u])
    ensures r.None? ==> forall u :: t <= u < |cands| ==> !Free(rows, cands[u])
    decreases |cands| - t
  {
    if t == |cands| then None
    else if Free(rows, cands[t]) then Some(t)
    else FirstFree(rows, cands, t + 1)
  }

  /** The attempt the add loop settles on, when there is one. */
  function ChosenTry(rows: seq<Row>, e: Entry, cfg: KeyConfig): (r: Option<nat>)
    ensures r.Some? ==> r.value <= MaxTries
    ensures r.None? ==> forall u :: 0 <= u <= MaxTries ==> !Free(rows, Candidate(e, cfg, u))
  {
    FirstFree(rows, Candidates(e, cfg), 0)
  }

  /** The chosen attempt proposes a free key: its generated key, or the entry's own key at attempt 27; every earlier one is taken. */
  lemma {:induction false} ChosenCandidate(rows: seq<Row>, e: Entry, cfg: KeyConfig)
    requires ChosenTry(rows, e, cfg).Some?
    ensures var t := ChosenTry(rows, e, cfg).value;
      var c := Candidate(e, cfg, t);
      Free(rows, c) &&
      (t < MaxTries && c.Some? ==> c == Some(GenerateCustomKey(e, cfg, t).value)) &&
      (t == MaxTries ==> c == Some(e.key)) &&
      forall u :: 0 <= u < t ==> !Free(rows, Candidate(e, cfg, u))
  {
    var cands := Candidates(e, cfg);
    var t := ChosenTry(rows, e, cfg).value;
    assert t < |cands| && Free(rows, cands[t]);
    assert cands[t] == Candidate(e, cfg, t);
    forall u | 0 <= u < t ensures !Free(rows, Candidate(e, cfg, u)) {
      assert !Free(rows, cands[u]) && cands[u] == Candidate(e, cfg, u);
    }
    if t < MaxTries {
      GeneratedCandidate(e, cfg, t);
    }
  }

  /** A taken attempt before the chosen one is followed by another attempt no later than it. */
  lemma {:induction false} TakenBeforeChosen(rows: seq<Row>, e: Entry, cfg: KeyConfig, t: nat)
    requires ChosenTry(rows, e, cfg).Some? && t <= ChosenTry(rows, e, cfg).value
    requires !Free(rows, Candidate(e, cfg, t))
    ensures t < ChosenTry(rows, e, cfg).value
  {
  }

  /** The first free attempt reached is the chosen one. */
  lemma {:induction false} FreeIsChosen(rows: seq<Row>, e: Entry, cfg: KeyConfig, t: nat)
    requires ChosenTry(rows, e, cfg).Some? && t <= ChosenTry(rows, e, cfg).value
    requires Free(rows, Candidate(e, cfg, t))
    ensures t == ChosenTry(rows, e, cfg).value
  {
  }

  /** Past attempt 26 every attempt proposes the same key, so a taken key at 27 stays taken. */
  lemma {:induction false} TakenForever(rows: seq<Row>, e: Entry, cfg: KeyConfig, t: nat)
    requires t >= MaxTries && !Free(rows, Candidate(e, cfg, MaxTries))
    ensures !Free(rows, Candidate(e, cfg, t))
  {
  }

  /** If the first free attempt is 27, every generated key was NULL-free and already taken. */
  lemma {:induction false} ChosenLast(rows: seq<Row>, e: Entry, cfg: KeyConfig)
    requires ChosenTry(rows, e, cfg) == Some(MaxTries)
    ensures forall u :: 0 <= u < MaxTries ==> GenerateCustomKey(e, cfg, u).Ok? && GenerateCustomKey(e, cfg, u).value in CustomKeys(rows)
    ensures e.key !in CustomKeys(rows)
  {
    var cands := Candidates(e, cfg);
    assert Free(rows, cands[MaxTries]);
    forall u | 0 <= u < MaxTries
      ensures GenerateCustomKey(e, cfg, u).Ok? && GenerateCustomKey(e, cfg, u).value in CustomKeys(rows)
    {
      assert !Free(rows, cands[u]);
      TakenGenerated(rows, e, cfg, u);
    }
  }

  /** A taken attempt below 27 proposed a generated key that some row holds. */
  lemma {:induction false} TakenGenerated(rows: seq<Row>, e: Entry, cfg: KeyConfig, u: nat)
    requires u < MaxTries && !Free(rows, Candidate(e, cfg, u))
    ensures GenerateCustomKey(e, cfg, u).Ok? && GenerateCustomKey(e, cfg, u).value in CustomKeys(rows)
  {
    GeneratedCandidate(e, cfg, u);
  }

  /** The key the add loop chooses is free, so the inserted row keeps the constraints. */
  lemma {:induction false} ChosenRowUnique(rows: seq<Row>, e: Entry, cfg: KeyConfig, author: string)
    requires Unique(rows) && e.key !in Keys(rows) && ChosenTry(rows, e, cfg).Some?
    ensures Unique(rows + [NewRow(e, Candidate(e, cfg, ChosenTry(rows, e, cfg).value), author)])
  {
    AppendUnique(rows, NewRow(e, Candidate(e, cfg, ChosenTry(rows, e, cfg).value), author));
  }

  /** The warning of the last attempt, which falls back on the entry's own key. */
  function UniqueKeyWarning(originalKey: string): string {
    "Could not generate a unique custom key for entry " + originalKey
  }

  /** One generation attempt: the generated key, or NULL when generation raises. */
  method TryGenerate(e: Entry, cfg: KeyConfig, level: nat) returns (c: Option<string>)
    requires level < MaxTries
    ensures c == Candidate(e, cfg, level)
  {
    var generated := GenerateCustomKey(e, cfg, level);
    c := None;
    if generated.Ok? {
      c := Some(generated.value);
    }
    GeneratedCandidate(e, cfg, level);
  }

  /**
   * The retry loop of `add`: attempt after attempt proposes a custom key until the row can
   * be inserted, or stops at once when the key itself is already stored.
   */
  method ChooseCustomKey(rows: seq<Row>, p: Entry, cfg: KeyConfig) returns (added: bool, customKey: Option<string>, warnings: seq<string>)
    requires p.key !in Keys(rows) ==> ChosenTry(rows, p, cfg).Some?
    ensures added <==> p.key !in Keys(rows)
    ensures !added ==> warnings == []
    ensures added ==> var t := ChosenTry(rows, p, cfg).value;
      customKey == Candidate(p, cfg, t) && warnings == if t == MaxTries then [UniqueKeyWarning(p.key)] else []
  {
    var tries: nat := 0;
    warnings := [];
    customKey := None;
    while true
      invariant tries <= MaxTries
      invariant p.key !in Keys(rows) ==> ChosenTry(rows, p, cfg).Some? && tries <= ChosenTry(rows, p, cfg).value
      invariant warnings == [] && (p.key in Keys(rows) ==> tries == 0)
      decreases MaxTries - tries
    {
      if tries < MaxTries {
        customKey := TryGenerate(p, cfg, tries);
      } else {
        warnings := warnings + [UniqueKeyWarning(p.key)];
        customKey := Some(p.key);
      }
      if p.key in Keys(rows) {
        return false, customKey, warnings;
      }
      if Free(rows, customKey) {
        FreeIsChosen(rows, p, cfg, tries);
        return true, customKey, warnings;
      }
      TakenBeforeChosen(rows, p, cfg, tries);
      tries := tries + 1;
    }
  }
}
