/**
 * The bibliography records the index stores. A BibTeX entry is reduced to what the
 * index reads from it: its citation key, its field map and its parsed authors. The
 * stored "full text" of a row is such a record; serialising it only sets its key.
 */
module Records {
  import opened Wrappers
  import opened Strings
  import TeX

  /** A parsed author, split into the four BibTeX name parts. */
  datatype Person = Person(firstNames: seq<string>, prelastNames: seq<string>, lastNames: seq<string>, lineageNames: seq<string>)

  /** A BibTeX entry: citation key, fields, and the parsed `author` list (empty when absent). */
  datatype Entry = Entry(key: string, fields: map<string, string>, authors: seq<Person>)

  /** The author the index substitutes when an entry has none: a single last name. */
  const UnknownAuthor: Person := Person([], [], ["UNKNOWN"], [])

  /**
   * `single_entry_to_fulltext`: the entry serialised under the overriding key when one is
   * given and non-empty, and under its own key otherwise.
   */
  function ToFulltext(e: Entry, overwriteKey: Option<string>): (r: Entry)
    ensures r.fields == e.fields && r.authors == e.authors
    ensures overwriteKey.Some? && overwriteKey.value != "" ==> r.key == overwriteKey.value
    ensures overwriteKey.None? || overwriteKey.value == "" ==> r == e
  {
    if overwriteKey.Some? && overwriteKey.value != "" then e.(key := overwriteKey.value) else e
  }

  /** `get_author_name`: first, prelast, last and lineage names joined by single spaces. */
  function AuthorName(p: Person): string {
    Join(" ", p.firstNames + p.prelastNames + p.lastNames + p.lineageNames)
  }

  /** The display name of every author, in order. */
  function AuthorNames(ps: seq<Person>): (r: seq<string>)
    ensures |r| == |ps| && forall i :: 0 <= i < |ps| ==> r[i] == AuthorName(ps[i])
    decreases |ps|
  {
    if ps == [] then [] else [AuthorName(ps[0])] + AuthorNames(ps[1..])
  }

  /** The plain author list before TeX conversion: `A, B and C`. */
  function AuthorList(names: seq<string>): (r: string)
    requires names != []
  {
    Join(", ", names[..|names| - 1]) + (if |names| > 1 then " and " else "") + names[|names| - 1]
  }

  /** `authors_to_unicode`: the author list converted from TeX; an entry without authors fails. */
  function AuthorsToUnicode(e: Entry): (r: Result<string>)
    ensures r.Ok? <==> e.authors != []
    ensures r.Ok? ==> r.value == TeX.TexToUnicode(AuthorList(AuthorNames(e.authors)))
  {
    if e.authors == [] then Err("IndexError: list index out of range")
    else Ok(TeX.TexToUnicode(AuthorList(AuthorNames(e.authors))))
  }

  /** `field_to_unicode` with no default: the converted field, or `None` when the field is missing. */
  function FieldToUnicode(e: Entry, f: string): (r: Option<string>)
    ensures r.Some? <==> f in e.fields
    ensures r.Some? ==> r.value == TeX.TexToUnicode(e.fields[f])
  {
    if f in e.fields then Some(TeX.TexToUnicode(e.fields[f])) else None
  }

  /** A single author with just a last name is listed under that name alone. */
  lemma {:induction false} SingleAuthorList(e: Entry)
    requires e.authors == [UnknownAuthor]
    ensures AuthorsToUnicode(e).Ok? && AuthorList(AuthorNames(e.authors)) == "UNKNOWN"
  {
    assert UnknownAuthor.firstNames + UnknownAuthor.prelastNames + UnknownAuthor.lastNames + UnknownAuthor.lineageNames == ["UNKNOWN"];
    assert AuthorName(UnknownAuthor) == "UNKNOWN";
    var names := AuthorNames(e.authors);
    assert names == ["UNKNOWN"];
    assert names[..0] == [];
  }

  /** Two authors are joined by ` and ` with no comma. */
  lemma {:induction false} TwoAuthorList(a: string, b: string)
    ensures AuthorList([a, b]) == a + " and " + b
  {
    assert [a, b][..1] == [a];
  }

  /** Three or more authors: commas between all but the last, ` and ` before the last. */
  lemma {:induction false} ThreeAuthorList(a: string, b: string, c: string)
    ensures AuthorList([a, b, c]) == a + ", " + b + " and " + c
  {
    assert [a, b, c][..2] == [a, b];
    assert [a, b][1..] == [b];
    assert Join(", ", [a, b]) == a + ", " + b;
  }
}
