# bibsearch, modelled in Dafny

bibsearch is a command-line tool that keeps a private BibTeX index in SQLite.

- **Adding entries.** `bibsearch add` parses BibTeX files (local, or downloaded from `http` URLs and named bib-set resources) and stores each entry in a `bib` table.
  - The table has unique `key` and `custom_key` columns.
  - The custom key is generated from a template such as `{surname}{year}{suffix}:{title}`. It is retried with the suffixes `a`..`z` until it is free.
- **Searching.** `bibsearch find` searches the table, through an FTS5 full-text index when there is one and through `LIKE` filters when there is not. The hits are cached, so that `open` can refer back to them by number.
- **BibTeX utilities.** bibsearch/bibutils.py brings BibTeX's own algorithms:
  - the name-list parser (First von Last, von Last, First, von Last, Jr, First);
  - `change.case$` title casing;
  - the month reader;
  - a TeX-to-Unicode converter.
- **Legacy index.** An older version of the index class (top-level bibdb.py) has a `where` command of `column:pattern` filters. Its `add` reports only whether the entry was stored.

In this project:

- **Data.** Entries are reduced to their key, their field map and their parsed authors. The `bib` table is a sequence of rows whose uniqueness constraints are an invariant of the index classes.
- **Index classes.** Both are Dafny classes whose methods rewrite the row sequence, the set of downloaded files and the search cache.
- **Statement execution.** Running an SQL statement is a function passed in as a parameter. The model proves what statement and what values are sent.
- **Algorithms and helpers.** The BibTeX algorithms and the command-line helpers are functions, with the source's loops as methods proved against them.

| file | module | models |
|---|---|---|
| wrappers.dfy | Wrappers | `Option` and `Result` |
| strings.dfy | Strings | the Python string methods the source uses (ASCII and Latin-1 character classes) |
| records.dfy | Records | entries, persons, `single_entry_to_fulltext`, `authors_to_unicode`, `field_to_unicode` |
| tex.dfy | TeX | `TeXProcessor.process`, `TeXToUnicode`, `tex_to_unicode` |
| casing.dfy | Casing | `title_case` |
| namescan.dfy | NameScan | `__depth`, `__split_depth0`, `_first_char` |
| names.dfy | Names | `NameParser.parse`, `Name.is_others`, `parse_names` |
| months.dfy | Months | `parse_month` |
| customkey.dfy | CustomKey | `generate_custom_key` and the part of `str.format` it needs |
| table.dfy | Table | the `bib` table, its constraints, and the custom-key retry schedule of `add` |
| queries.dfy | Queries | `_format_query_fts`, `_format_query_no_fts`, the legacy `_format_query` and `where` filters |
| bibdb.dfy | BibDb | the `BibDB` class of bibsearch/bibdb.py |
| legacydb.dfy | LegacyDb | the `BibDB` class of the top-level bibdb.py |
| cli.dfy | Cli | `pybtex_unescape`, `_get_cache_or_search_result`, `_add_file`, `get_fnames_from_bibset`, the `.aux` name of `_tex`, `find_entry`, `compare_entries` |

## Model

| member | source | states |
|---|---|---|
| Records.ToFulltext | bibsearch/bibutils.py:52-63 | the serialised entry keeps fields and authors; a non-empty overriding key replaces the key, and no key or an empty one leaves the entry as it is |
| Records.AuthorNames | bibsearch/bibutils.py:103-113 | one display name per author, in order, each `AuthorName` of the author: the first, prelast, last and lineage names joined by spaces |
| Records.AuthorsToUnicode | bibsearch/bibutils.py:115-121 | succeeds exactly when the entry has authors, and is then the TeX conversion of the `A, B and C` list |
| Records.SingleAuthorList | bibsearch/bibdb.py:217-218 | the placeholder author `UNKNOWN` is listed as `UNKNOWN` |
| Records.TwoAuthorList | bibsearch/bibutils.py:117-120 | two authors are joined by ` and ` without a comma |
| Records.ThreeAuthorList | bibsearch/bibutils.py:117-120 | three authors: a comma after the first, ` and ` before the last |
| Records.FieldToUnicode | bibsearch/bibutils.py:123-129 | present exactly when the field is, and then the TeX conversion of its value |
| TeX.Expansion | bibsearch/bibutils.py:558-572 | a sequence expands exactly when it is in the table of simple replacements, to its table entry |
| TeX.LetterRun | bibsearch/bibutils.py:443-444 | the maximal run of ASCII letters at the start of the text |
| TeX.SpaceRun | bibsearch/bibutils.py:443-444 | the maximal run of TeX white space at the start of the text |
| TeX.MatchHere | bibsearch/bibutils.py:443-444 | the control-sequence pattern matches exactly at an active character or a backslash with a character after it; the sequence is a prefix of the match |
| TeX.LetterSequenceMatch | bibsearch/bibutils.py:443-444 | a backslash, letters and one space match as a whole, and the sequence is the backslash and the letters |
| TeX.Search | bibsearch/bibutils.py:465 | the leftmost match at or after the offset, lying inside the text |
| TeX.SearchSkips | bibsearch/bibutils.py:464-467 | the text before the leftmost match, or all of it when nothing matches, is output unchanged |
| TeX.SkipOne | bibsearch/bibutils.py:465 | a character where no match starts is copied, and the search continues after it |
| TeX.ExpandMatch | bibsearch/bibutils.py:468-479 | at a match the scan emits the replacement (the expansion, or the matched text when unknown) and continues after the match |
| TeX.ExpandAtHit | bibsearch/bibutils.py:468-479 | the scan from the leftmost match is its replacement followed by the scan after it |
| TeX.SearchStep | bibsearch/bibutils.py:464-479 | the scan from the offset is the untouched text, the replacement, and the scan after the match |
| TeX.ReplaceHit | bibsearch/bibutils.py:465-479 | one round of the loop shrinks what is left to scan and keeps (processed prefix + scan of the rest) unchanged |
| TeX.NoMoreHits | bibsearch/bibutils.py:466-467 | when no match is left, the data is the finished output |
| TeX.ExpandMacros | bibsearch/bibutils.py:453-481 | the splice-and-continue loop computes the left-to-right scan `Expand`, which copies a character where no macro starts (`TeX.SkipOne`) and splices the replacement where one does (`TeX.ExpandMatch`) |
| TeX.Process | bibsearch/bibutils.py:547-556 | the converter yields `TexToUnicode`, and its output holds no brace |
| TeX.TexToUnicode | bibsearch/bibutils.py:547-556 | the converted text never holds a brace |
| TeX.ExpandPlain | bibsearch/bibutils.py:464-481 | text without backslashes and active characters is unchanged by the scan |
| TeX.ExpandLetter | bibsearch/bibutils.py:464-481 | a lone letter is unchanged by the scan |
| TeX.NoDoubleHyphen | bibsearch/bibutils.py:553 | after the `--` replacement no two hyphens are adjacent |
| TeX.FirstAfterReplace | bibsearch/bibutils.py:553 | the `--` replacement keeps a first character that is not a hyphen |
| TeX.LigaturesNoDoubleHyphen | bibsearch/bibutils.py:553 | the ligature step leaves no `--` |
| TeX.Ligatures | bibsearch/bibutils.py:553 | the ligature step never lengthens the text |
| TeX.TripleHyphen | bibsearch/bibutils.py:553 | `---` becomes one em dash |
| TeX.BracesInhibitLigature | bibsearch/bibutils.py:550-556 | `-{}-` becomes two hyphens, not an en dash |
| TeX.LetterMacroSwallowsSpace | bibsearch/bibutils.py:443-444 | `\ss x` becomes `ßx`: the space after a letter macro is consumed |
| TeX.UnknownMacroKept | bibsearch/bibutils.py:470-472 | an unknown macro is left in place with the space after it |
| Casing.CsLength | bibsearch/bibutils.py:361 | a control sequence is found exactly at a backslash followed by a letter |
| Casing.CsText | bibsearch/bibutils.py:383-390 | a control sequence keeps its length, and each character stays or is lower-cased |
| Casing.KnownSequenceLowered | bibsearch/bibutils.py:385-387 | the known `\AE` is lower-cased to `\ae` |
| Casing.UnknownSequenceKept | bibsearch/bibutils.py:388-390 | the unknown `\TeX` keeps its case |
| Casing.CaseFrom | bibsearch/bibutils.py:363-427 | a successful conversion has exactly as many characters as the rest of the input |
| Casing.TitleCase | bibsearch/bibutils.py:363-427 | the scanning loop computes `CaseFrom` from the initial state |
| Casing.SpecialChar | bibsearch/bibutils.py:375-403 | the inner loop stops at the closing brace or the end, and its text followed by the conversion of the rest is the conversion of the special character |
| Casing.SpecialCharStep | bibsearch/bibutils.py:381-400 | one round advances and keeps (emitted text + conversion of the rest) unchanged |
| Casing.SpecialCs | bibsearch/bibutils.py:382-392 | a control sequence inside a special character is emitted through `CsText` |
| Casing.SpecialLetter | bibsearch/bibutils.py:393-400 | any other character inside a special character is lower-cased, and braces move the level |
| Casing.SpecialEnd | bibsearch/bibutils.py:402-403 | the special character ends when its braces close or the input ends, and the colon state is cleared |
| Casing.CaseOnly | bibsearch/bibutils.py:363-427 | every output character is the input character at the same position, or its lower case |
| Casing.TitleCaseShape | bibsearch/bibutils.py:363-427 | the converted title has the input's length, changes only letter case, and keeps its first character |
| Casing.PlainRun | bibsearch/bibutils.py:420-425 | plain text outside braces, after the first character and not after a colon, is lower-cased |
| Casing.PlainTitle | bibsearch/bibutils.py:363-427 | a plain title keeps its first character and lower-cases the rest |
| Casing.PlainTail | bibsearch/bibutils.py:420-425 | plain text to the end of the input is lower-cased |
| Casing.FirstStep | bibsearch/bibutils.py:373 | the first character keeps its case |
| Casing.ColonSpace | bibsearch/bibutils.py:373 | after a colon and a space the next character keeps its case |
| Casing.Subtitle | bibsearch/bibutils.py:363-427 | `a: b` keeps the first characters of `a` and of `b` and lower-cases the rest |
| Casing.GroupRest | bibsearch/bibutils.py:405-422 | inside braces characters are kept, and the closing brace returns to level 0 |
| Casing.BracedKept | bibsearch/bibutils.py:405-425 | a brace group that is not a special character is kept as is |
| Casing.UnmatchedClose | bibsearch/bibutils.py:409-411 | a `}` at level 0 is an error |
| Casing.TitleCaseFails | bibsearch/bibutils.py:363-427 | the conversion fails if and only if some prefix of the title has more `}` than `{` |
| Casing.ErrIffUnderflow | bibsearch/bibutils.py:371-425 | from any scanner state, the conversion fails exactly when counting the braces of the rest from the current level would go below 0; the control sequences and the characters of a special character move the level as the braces among them say |
| Casing.UnderflowIffBalance | bibsearch/bibutils.py:405-411 | the brace level goes below 0 exactly when some prefix of the rest closes more braces than the starting level and the prefix open |
| Casing.SpecialGroup | bibsearch/bibutils.py:375-403 | a special character `{\cs}` is emitted with its control sequence through `CsText` |
| NameScan.DepthSeq | bibsearch/bibutils.py:135-144 | one depth per character: the level before it, or after it for an opening brace |
| NameScan.Depths | bibsearch/bibutils.py:135-144 | the loop fills a fresh array with `DepthSeq` |
| NameScan.FlatLevel | bibsearch/bibutils.py:135-144 | without braces every level is 0 |
| NameScan.GroupLevel | bibsearch/bibutils.py:135-144 | inside a string that is one brace group, the level is 1 |
| NameScan.ConnectorRun | bibsearch/bibutils.py:224 | the leading run of connectors `-`, `~`, space, tab |
| NameScan.MatchLength | bibsearch/bibutils.py:206-225 | the comma pattern matches one comma; the token pattern matches exactly at a connector |
| NameScan.SplitFrom | bibsearch/bibutils.py:146-157 | the scan always yields at least one part |
| NameScan.SplitDepth0 | bibsearch/bibutils.py:146-157 | the loop over the matches computes `SplitAtDepth0` |
| NameScan.SplitStep | bibsearch/bibutils.py:150-155 | one match advances the scan and keeps (closed parts + rest of the scan) unchanged |
| NameScan.SplitPastNonMatch | bibsearch/bibutils.py:150-151 | a non-match, or a match inside braces, leaves the current part open |
| NameScan.SplitAtMatch | bibsearch/bibutils.py:151-155 | a depth-0 match closes the current part and appends its groups |
| NameScan.SkipNoMatch | bibsearch/bibutils.py:150 | a stretch without matches leaves the scan unchanged |
| NameScan.CommaSplitFlat | bibsearch/bibutils.py:146-157 | on a brace-free string the comma scan is `str.split(',')` |
| NameScan.CommaSplitIsSplit | bibsearch/bibutils.py:225 | a brace-free name is split at its commas as `str.split(',')` would |
| NameScan.NoSplitInGroup | bibsearch/bibutils.py:150-151 | no match inside a brace group splits it |
| NameScan.BracedNotSplit | bibsearch/bibutils.py:146-157 | a string that is one brace group is never split |
| NameScan.SkipGroup | bibsearch/bibutils.py:183-184 | the skip stops at the first depth-0 position, or the end |
| NameScan.SkipGroupLoop | bibsearch/bibutils.py:183-184 | the skipping loop computes `SkipGroup` |
| NameScan.ScanSpecial | bibsearch/bibutils.py:177-180 | what the scan finds is one letter; otherwise it stops at depth 0 or the end |
| NameScan.ScanSpecialLoop | bibsearch/bibutils.py:177-180 | the scanning loop computes `ScanSpecial` |
| NameScan.SpecialStep | bibsearch/bibutils.py:169-180 | inside a special character the result is one letter, or the scan moves on |
| NameScan.FirstCharStep | bibsearch/bibutils.py:164-186 | the corrected round finds a letter or strictly advances |
| NameScan.FirstCharStepAsWritten | bibsearch/bibutils.py:164-186 | the round as written never moves back, but may not advance |
| NameScan.AsWrittenAgrees | bibsearch/bibutils.py:181-184 | where the brace has positive depth, the round as written and the corrected round agree |
| NameScan.AsWrittenStuck | bibsearch/bibutils.py:181-184 | an opening brace at recorded depth 0 leaves the position unchanged, so the loop repeats forever |
| NameScan.UnmatchedBraceLoops | bibsearch/bibutils.py:159-186 | on `}{a` the loop as written stays at position 1, and the corrected scan finds `a` |
| NameScan.FirstCharFrom | bibsearch/bibutils.py:164-186 | the first character is empty or one letter |
| NameScan.FirstChar | bibsearch/bibutils.py:159-186 | the corrected loop computes `FirstCharOf` |
| NameScan.Round | bibsearch/bibutils.py:164-186 | one round of the loop computes `FirstCharStep` |
| NameScan.FirstCharNoBraces | bibsearch/bibutils.py:164-186 | without opening braces the first character is the first letter |
| NameScan.FirstCharPlain | bibsearch/bibutils.py:159-186 | a brace-free token starts with its first letter |
| NameScan.FirstCharKnownSequence | bibsearch/bibutils.py:169-175 | `{\o}...` and the like start with the letter of the known control sequence |
| NameScan.CsOfKnown | bibsearch/bibutils.py:172-173 | a known control sequence followed by a non-letter is matched whole |
| Names.NameParts | bibsearch/bibutils.py:224-225 | one token list per depth-0 comma part |
| Names.Tokens | bibsearch/bibutils.py:224 | a comma part always has at least one token |
| Names.VonStart | bibsearch/bibutils.py:234-235 | the first even token before the last word that starts in lower case, and none before it |
| Names.VonEnd | bibsearch/bibutils.py:190-191 | the last von word, scanning back by two, and no lower-case start after it |
| Names.SplitVonLast | bibsearch/bibutils.py:188-193 | a split at a von end: the von tokens and a proper tail; otherwise all last name |
| Names.VonThenLast | bibsearch/bibutils.py:188-193 | a lower-case word then a word split into von and last |
| Names.LastOnly | bibsearch/bibutils.py:193 | a lone token is all last name |
| Names.LastStart | bibsearch/bibutils.py:243-245 | the last name starts after the last connector that is not a hyphen |
| Names.FirstVonLast | bibsearch/bibutils.py:229-247 | the comma-free form has no jr part |
| Names.ParseStripped | bibsearch/bibutils.py:224-258 | more than three comma parts fail; one part is First von Last; two or three give the first name (and jr) from the later parts |
| Names.Collect | bibsearch/bibutils.py:209-259 | all names when every one parses, else the first error |
| Names.ParseAll | bibsearch/bibutils.py:209-259 | all names when `ParseName` (strip, then `ParseStripped`) succeeds on every one, else the error of one that does not |
| Names.NameResults | bibsearch/bibutils.py:210 | one parse per name string |
| Names.NameStrings | bibsearch/bibutils.py:205-206 | the stripped parts of the depth-0 ` and ` split |
| Names.ParseNames | bibsearch/bibutils.py:336-343 | one name per depth-0 ` and `, failing exactly when one name string fails |
| Names.WordUnsplit | bibsearch/bibutils.py:146-157 | a plain word is never split |
| Names.OneTokenName | bibsearch/bibutils.py:240-247 | a single token is all last name |
| Names.OneNameList | bibsearch/bibutils.py:205-259 | an unsplit name string gives a one-name list |
| Names.WordName | bibsearch/bibutils.py:336-343 | `Aristotle` is a last name alone |
| Names.OthersName | bibsearch/bibutils.py:270-272 | the list `others` is the one name for which `IsOthers` holds: empty first, von and jr parts and last part `others` |
| Names.BracedName | bibsearch/bibutils.py:336-343 | a name in one brace group (`{Barnes and Noble, Inc.}`) is one last name, kept whole |
| Names.BraceGroupName | bibsearch/bibutils.py:205-258 | a brace group is not split and reads as a last name |
| Names.TwoWordTokens | bibsearch/bibutils.py:224 | two words give two tokens with their connector |
| Names.ThreeWordTokens | bibsearch/bibutils.py:224 | three words give three tokens with their connectors |
| Names.WordTokens | bibsearch/bibutils.py:224 | a word, with or without a leading space, is one token |
| Names.CapitalNotVon | bibsearch/bibutils.py:235 | a capitalised word does not start a von part |
| Names.LowerIsVon | bibsearch/bibutils.py:235 | a lower-case word starts a von part |
| Names.NoCommaName | bibsearch/bibutils.py:229-247 | a comma-free name is read from its tokens |
| Names.FirstLastName | bibsearch/bibutils.py:229-247 | `First Last` gives first and last |
| Names.FirstOfTwo | bibsearch/bibutils.py:240-247 | two tokens, the first not lower-case, are first and last |
| Names.FirstVonLastName | bibsearch/bibutils.py:229-239 | `Ludwig van Beethoven` gives first, von and last |
| Names.VonOfThree | bibsearch/bibutils.py:234-239 | the lower-case middle of three tokens is the von part |
| Names.LastFirstName | bibsearch/bibutils.py:248-251 | `Last, First` gives last and first |
| Names.LastFirstParts | bibsearch/bibutils.py:224-225 | `Last, First` has two one-token parts |
| Names.PartsOfTokens | bibsearch/bibutils.py:224-225 | the parts are the token lists of the comma pieces |
| Names.CommaCons | bibsearch/bibutils.py:225 | without braces, the first comma closes the first part |
| Names.CommaPartsName | bibsearch/bibutils.py:248-253 | two or three one-token parts are last, first and jr |
| Names.LastFirstJrName | bibsearch/bibutils.py:248-253 | `Last, First, Jr` gives last, first and jr |
| Names.TooManyCommas | bibsearch/bibutils.py:254-255 | four comma parts are an error |
| Months.FindMonth | bibsearch/bibutils.py:356-358 | the first month name from `i` on that the text prefixes, and none before it |
| Months.ParseMonth | bibsearch/bibutils.py:347-359 | succeeds exactly when the normalised text `MonthText` (stripped, trailing dots removed, lower-cased) has three characters or more and prefixes a month; gives the first such month, numbered 1..12; otherwise the error is ``invalid month `<text>'`` quoting the text as given |
| Months.ReadMonth | bibsearch/bibutils.py:356-359 | the same, on the already normalised text, quoting the original text in the error |
| Months.LowerWordText | bibsearch/bibutils.py:355 | a lower-case word is its own normalised text `MonthText` |
| Months.MonthNamesLower | bibsearch/bibutils.py:345 | each month name is lower case, of three letters or more, and starts with its abbreviation |
| Months.AbbrevsDistinct | bibsearch/bibutils.py:345 | the twelve three-letter abbreviations are distinct |
| Months.NoEarlierPrefix | bibsearch/bibutils.py:345 | three or more letters of one month prefix no earlier month |
| Months.FindFrom | bibsearch/bibutils.py:356-358 | the search stops at the first month the text prefixes |
| Months.MonthPrefixParses | bibsearch/bibutils.py:347-359 | any prefix of three letters or more of a month name reads as that month |
| Months.ParsesAt | bibsearch/bibutils.py:356-358 | on normalised text, a prefix of month `i` gives `i + 1`, whatever the original text |
| CustomKey.SpacePad | bibsearch/bibutils.py:95-101 | an integer field of a width is right-aligned, with the text at its end |
| CustomKey.FormatField | bibsearch/bibutils.py:95-101 | a field formats only when its name is bound |
| CustomKey.FormatLiteral | bibsearch/bibutils.py:95-101 | `Format` copies brace-free literal text |
| CustomKey.FormatFieldStep | bibsearch/bibutils.py:95-101 | `Format` replaces a replacement field by its value and continues after it |
| CustomKey.FormatInt | bibsearch/bibutils.py:95-101 | an integer with no spec or spec `d` is written in decimal, and an accepted spec only pads it, never shortens it |
| CustomKey.Suffix | bibsearch/bibutils.py:100 | level 0 gives no suffix; level `n` gives the `n`-th lower-case letter |
| CustomKey.SuffixInjective | bibsearch/bibutils.py:100 | different levels give different suffixes |
| CustomKey.FirstNotIn | bibsearch/bibutils.py:88 | the first word that is not a stop word, and only stop words before it |
| CustomKey.LowerWords | bibsearch/bibutils.py:88 | the lower-cased white-space tokens of the title |
| CustomKey.TitleWord | bibsearch/bibutils.py:88-93 | fails exactly on an empty title; otherwise the first non-stop word, or the first character, with skip characters deleted |
| CustomKey.KeyBindings | bibsearch/bibutils.py:78-101 | succeeds only with an integer year, an author with a last name, and a title; binds the lower-cased surname, `_etAl` for several authors, the year, the suffix and the title word |
| CustomKey.Bindings | bibsearch/bibutils.py:95-101 | exactly six names are bound; `short_year` is the year modulo 100 |
| CustomKey.SurnameNormalised | bibsearch/bibutils.py:80 | the surname has no capital and no skip character |
| CustomKey.LowerDeleted | bibsearch/bibutils.py:80 | lower-casing then deleting leaves no capital and no deleted character |
| CustomKey.StringField | bibsearch/bibutils.py:95-101 | `{name}` bound to text gives the text |
| CustomKey.IntField | bibsearch/bibutils.py:95-101 | `{name}` bound to an integer gives its decimal text |
| CustomKey.IntSpecField | bibsearch/bibutils.py:75 | `{name:0w}` gives the integer zero-padded to `w` |
| CustomKey.ShortYearField | bibsearch/bibutils.py:75 | `{short_year:02}` is the short year in two digits |
| CustomKey.FieldsTemplate | bibsearch/bibutils.py:95-101 | a template of four fields and a literal gives the four values with the literal |
| CustomKey.DefaultTemplateFormat | bibsearch/config.py:15 | the default template gives surname, year, suffix, `:` and title word |
| CustomKey.LegacyTemplateFormat | config.py:12 | the older template gives surname, two-digit short year, suffix, `_` and title word |
| CustomKey.DefaultKeyShape | bibsearch/bibutils.py:74-101 | with the default template `GenerateCustomKey` gives `surname year suffix : title` |
| CustomKey.LegacyKeyShape | bibsearch/bibutils.py:74-101 | with the older template `GenerateCustomKey` gives `surname yy suffix _ title`, with the year in exactly two digits |
| CustomKey.ShortYearKeyShape | bibsearch/bibutils.py:74-101 | with the template `{surname}{short_year}{suffix}_{title}`, `GenerateCustomKey` gives `surname yy suffix _ title`, where `yy` is the year modulo 100 in exactly two digits |
| CustomKey.FieldNotShortYear | bibsearch/bibutils.py:75 | a field other than `{short_year}` is not rewritten |
| CustomKey.DefaultTemplateUnchanged | bibsearch/bibutils.py:75 | the default template has nothing to rewrite |
| CustomKey.KeyTemplate | bibsearch/bibutils.py:75 | a template without `{short_year}` is left as it is |
| CustomKey.KeyTemplateRewrites | bibsearch/bibutils.py:75 | a bare `{short_year}` becomes `{short_year:02d}`, text before it without braces is kept, and the rewrite goes on over the rest |
| CustomKey.ShortYearTemplateRewritten | bibsearch/bibutils.py:75 | `{surname}{short_year}{suffix}_{title}` becomes `{surname}{short_year:02d}{suffix}_{title}`, and nothing else changes |
| CustomKey.LegacyTemplateUnchanged | bibsearch/bibutils.py:75 | the older template, which already has a spec, is not rewritten |
| Table.UniqueCons | bibsearch/bibdb.py:34-36 | a row can be put in front exactly when it is distinct from every row and the rest is unique |
| Table.AppendUnique | bibsearch/bibdb.py:34-36 | a row with a new key and a free custom key keeps the table unique |
| Table.ReplaceUnique | bibsearch/bibdb.py:34-36 | rewriting a row, keeping its key and taking a custom key no other row holds, keeps the table unique |
| Table.Without | bibsearch/bibdb.py:206-209 | exactly the rows that do not match the key remain |
| Table.WithoutUnique | bibsearch/bibdb.py:206-209 | deleting keeps the table unique |
| Table.WithoutIdempotent | bibsearch/bibdb.py:206-209 | deleting twice deletes nothing more |
| Table.WithoutAbsent | bibsearch/bibdb.py:206-209 | deleting an absent key changes nothing |
| Table.FirstMatch | bibsearch/bibdb.py:196-198 | the first row with the key or custom key, or none when no row has it |
| Table.Venue | bibsearch/bibdb.py:224-226 | the journal when it is present and non-empty, and otherwise the book title |
| Table.NewRow | bibsearch/bibdb.py:241-249 | the inserted row has the entry's key, the given custom key and author text, the converted title, venue and year, and a full text with the entry's fields and authors under the custom key when it is non-empty |
| Table.KeyIndex | bibsearch/bibdb.py:268 | the row with the key, present exactly when the key is stored |
| Table.KeyIndexOnly | bibsearch/bibdb.py:34-35 | in a unique table that row is the only one with the key |
| Table.Candidate | bibsearch/bibdb.py:231-239 | from attempt 27 on, the candidate is the entry's own key |
| Table.GeneratedCandidate | bibsearch/bibdb.py:232-236 | below 27 the candidate is the generated key, or NULL when generation fails |
| Table.TryGenerate | bibsearch/bibdb.py:231-236 | one attempt proposes exactly that attempt's candidate |
| Table.Candidates | bibsearch/bibdb.py:230-239 | the 28 candidates, in order |
| Table.FirstFree | bibsearch/bibdb.py:230-257 | the first attempt whose candidate is free, every earlier one taken |
| Table.ChosenCandidate | bibsearch/bibdb.py:230-257 | the attempt `ChosenTry` picks proposes a free key: the generated key below 27, the entry's key at 27; every earlier one is taken |
| Table.ChosenTry | bibsearch/bibdb.py:230-257 | the add loop settles by attempt 27 at the latest, and finds no attempt only when all 28 proposed keys are taken |
| Table.TakenBeforeChosen | bibsearch/bibdb.py:252-257 | a taken attempt comes before the chosen one |
| Table.FreeIsChosen | bibsearch/bibdb.py:240-251 | the first free attempt is the chosen one |
| Table.TakenForever | bibsearch/bibdb.py:237-239 | from attempt 27 on the same key is retried, so a taken one stays taken |
| Table.ChosenLast | bibsearch/bibdb.py:237-239 | reaching attempt 27 means all 27 generated keys were produced and taken, and the entry's own key is free |
| Table.TakenGenerated | bibsearch/bibdb.py:232-257 | a taken attempt below 27 proposed a generated key some row holds |
| Table.ChosenRowUnique | bibsearch/bibdb.py:240-251 | inserting under the chosen key keeps the table unique |
| Table.ChooseCustomKey | bibsearch/bibdb.py:227-265 | the retry loop adds exactly when the key is new, under the chosen candidate, with a warning exactly when attempt 27 was reached |
| Queries.CollectOk | bibsearch/bibdb.py:116-140 | all translations when every term succeeds, else the first failure |
| Queries.CollectFirstErr | bibsearch/bibdb.py:116-140 | the failure reported is that of the first failing term |
| Queries.Quoted | bibsearch/bibdb.py:130 | the text between a pair of double quotes |
| Queries.QuoteQuery | bibsearch/bibdb.py:133-134 | a pattern already in quotes is kept, any other is quoted |
| Queries.FtsTerm | bibsearch/bibdb.py:117-139 | a macro gives its text; an unqualified term fails only when empty; a qualified term fails when it has no colon or nothing after it |
| Queries.FtsResults | bibsearch/bibdb.py:117-139 | one translation per term |
| Queries.FormatQueryFts | bibsearch/bibdb.py:115-140 | the loop computes `FtsQuery`: the translations of the terms (`Queries.FtsResults`) joined by ` AND `, or the first failure |
| Queries.JoinTranslated | bibsearch/bibdb.py:139-140 | the successful translations joined by ` AND `, or the first failure |
| Queries.MacroTerm | bibsearch/bibdb.py:119-121 | a macro name, in any case, is replaced by the macro's text |
| Queries.PlainTerm | bibsearch/bibdb.py:123-130 | an unqualified term is quoted unless it starts or ends with a quote |
| Queries.QualifiedTerm | bibsearch/bibdb.py:131-138 | `key:` searches both key columns, any other column itself, on the quoted pattern |
| Queries.KeyTerm | bibsearch/bibdb.py:135-136 | `key:q` becomes `(key:"q" OR custom_key:"q")` |
| Queries.ColumnTerm | bibsearch/bibdb.py:137-138 | `col:q` becomes `col:"q"` |
| Queries.EmptyPatternFails | bibsearch/bibdb.py:132-134 | `col:` with nothing after the colon makes the whole query fail |
| Queries.QualifierOf | bibsearch/bibdb.py:146-148 | a qualified term splits into its qualifier and pattern |
| Queries.LikeTerm | bibsearch/bibdb.py:145-163 | an unqualified term gives six `%t%` values; a qualified one gives `%pattern%` for each placeholder |
| Queries.LikeTermBalanced | bibsearch/bibdb.py:145-163 | every term has one value per placeholder |
| Queries.LikeClauses | bibsearch/bibdb.py:145 | one condition per term |
| Queries.ConjoinClauses | bibsearch/bibdb.py:142-164 | the loop computes the ` AND ` conjunction and the concatenated values |
| Queries.FormatQueryNoFts | bibsearch/bibdb.py:142-164 | the condition and values are the `LIKE` query of the terms, `NoFtsQuery` |
| Queries.ConjunctionBalanced | bibsearch/bibdb.py:164 | a conjunction of balanced conditions is balanced |
| Queries.NoFtsBalanced | bibsearch/bibdb.py:142-164 | the plain-table query `NoFtsQuery` has one value per placeholder |
| Queries.NoFtsEmptyWhere | bibsearch/bibdb.py:142-180 | the plain-table condition is empty exactly when there are no terms, so `search` with no terms and no full-text index sends `WHERE` with nothing after it; otherwise it opens with a parenthesis |
| Queries.WhereTerm | bibdb.py:162-187 | fails exactly without a colon or with an unknown column; otherwise the column's condition on the pattern with `*` turned into `%` |
| Queries.WhereTermWellFormed | bibdb.py:162-184 | a valid term is balanced, star-free, and each value is the translated pattern |
| Queries.WhereClauseWellFormed | bibdb.py:168-184 | the condition `WhereClause` builds for a valid column (`KeyWhere`, over both key columns with the pattern twice, for `key`) is balanced and star-free |
| Queries.WhereResults | bibdb.py:162 | one condition or error per term |
| Queries.BuildWhere | bibdb.py:158-188 | the loop computes `LegacyWhere` |
| Queries.ConjoinChecked | bibdb.py:162-197 | the loop over checked terms gives the conjunction, or the first error |
| Queries.LegacyWhereWellFormed | bibdb.py:158-197 | a `where` query `LegacyWhere` has one value per placeholder and no `*` in its values |
| BibDb.Prepared | bibsearch/bibdb.py:217-221 | the key is kept, an author is always present (the placeholder when none), and `original_key` records the key |
| BibDb.AddedRow | bibsearch/bibdb.py:217-249 | the inserted row has the entry's key and the chosen custom key; its full text keeps the fields plus `original_key`, has an author, and carries a non-empty custom key as its key |
| BibDb.BibDB.constructor | bibsearch/bibdb.py:14-31 | the index opens on unique rows, with or without the full-text table, and no cached search |
| BibDb.BibDB.Len | bibsearch/bibdb.py:94-96 | the number of stored entries |
| BibDb.BibDB.Add | bibsearch/bibdb.py:211-265 | no key: nothing stored; a stored key: `(False, [])`; otherwise one row appended under the chosen custom key, with the warning exactly when the entry's own key was used; uniqueness kept |
| BibDb.AddedCustomKey | bibsearch/bibdb.py:227-257 | the custom key of an added entry is free, is the generated key of its attempt below 27, and every earlier attempt was taken |
| BibDb.AddedFoundByKey | bibsearch/bibdb.py:188-201 | an added entry is found again by its key, under that key |
| BibDb.BibDB.Remove | bibsearch/bibdb.py:206-209 | the rows become `Without(rows, k)`, and uniqueness is kept |
| BibDb.RemovedKeyNotFound | bibsearch/bibdb.py:206-209 | after removal no row answers to the key |
| BibDb.RemoveIdempotent | bibsearch/bibdb.py:206-209 | removing twice is removing once |
| BibDb.RemoveKeepsOthers | bibsearch/bibdb.py:206-209 | a row survives exactly when it does not answer to the key |
| BibDb.BibDB.SearchKey | bibsearch/bibdb.py:188-201 | none exactly when no row matches; otherwise the full text of a matching row, serialised under the queried key |
| BibDb.BibDB.UpdateCustomKey | bibsearch/bibdb.py:267-279 | fails exactly on a missing row or a custom key held elsewhere, without change; otherwise only that row's custom key and full-text key change |
| BibDb.BibDB.Update | bibsearch/bibdb.py:281-313 | no key: not updated; a missing `original_key` or no authors raise; a custom key held elsewhere is reported without change; otherwise the row with that key is rewritten |
| BibDb.BibDB.RegisterFileDownloaded | bibsearch/bibdb.py:320-328 | the file joins the downloaded set, and registering again changes nothing; afterwards `FileHasBeenDownloaded` holds for the file and is unchanged for every other |
| BibDb.BibDB.Search | bibsearch/bibdb.py:166-186 | with the full-text index the `MATCH` query of `FtsQuery` is run (a bad term fails first); without it the `LIKE` query; the result is what running the statement gives, the hits are cached when it succeeds, and a failed statement leaves the cache as it was |
| LegacyDb.LegacyPrepared | bibdb.py:237-238 | an empty or missing author field becomes the placeholder; otherwise the entry is unchanged |
| LegacyDb.LegacyRow | bibdb.py:237-269 | the inserted row has the entry's key and the chosen custom key; its full text keeps the authors and has an `author` field, and carries a non-empty custom key as its key |
| LegacyDb.LegacyBibDB.constructor | bibdb.py:12-31 | the index opens on unique rows with the given cache |
| LegacyDb.LegacyBibDB.Add | bibdb.py:226-284 | true exactly when the key is non-empty and new, and then one row is appended under the chosen custom key |
| LegacyDb.LegacyBibDB.Search | bibdb.py:133-156 | no terms: the cache; a bad term or no full-text index: an error exit; otherwise the `MATCH` query, whose hits are cached, or whose failure is re-raised with the cache left as it was |
| LegacyDb.LegacyBibDB.Where | bibdb.py:158-201 | a bad term: an error exit; no terms: the cache or nothing; otherwise the result of running the conjunction of the filters, cached when it succeeds |
| Cli.UnescapeNoBackslash | bibsearch/bibsearch.py:137-144 | text without backslashes is unchanged |
| Cli.PybtexUnescape | bibsearch/bibsearch.py:137-144 | unescaping never lengthens the text |
| Cli.UnescapeUnderscore | bibsearch/bibsearch.py:144 | `\_` becomes `_` |
| Cli.UnescapeTilde | bibsearch/bibsearch.py:144 | `\textasciitilde ` becomes `~` |
| Cli.TildeSurvives | bibsearch/bibsearch.py:144 | the underscore pass leaves an escaped tilde intact |
| Cli.EscapedWordKept | bibsearch/bibsearch.py:144 | a backslash that starts no `\_` passes the underscore pass, and so does the word after it |
| Cli.Selection | bibsearch/bibsearch.py:210-234 | the cache with position 0 for no terms, the cache with `n - 1` for a number, and the first search hit otherwise; an empty cache or empty search is an error |
| Cli.CachedSelection | bibsearch/bibsearch.py:210-226 | the cached branch reads position 0, or the number minus one |
| Cli.NumberSelection | bibsearch/bibsearch.py:219-226 | a single term `n` starting with a digit reads the cache at position `n - 1` |
| Cli.LeadingDigitNonNegative | bibsearch/bibsearch.py:219-226 | a term starting with a digit reads as a number of at least 0 |
| Cli.PyIndex | bibsearch/bibsearch.py:236-240 | succeeds exactly for positions `-len..len-1`, reading a negative one from the end |
| Cli.ZeroSelectsLast | bibsearch/bibsearch.py:219-240 | as written, entry number 0 returns the last cached entry |
| Cli.CacheOrSearch | bibsearch/bibsearch.py:203-240 | corrected: a result is always inside the selected results, at the selected position |
| Cli.CacheOrSearchAsWritten | bibsearch/bibsearch.py:203-240 | as written: a returned entry is one of the selected results |
| Cli.CacheFirst | bibsearch/bibsearch.py:210-217 | no terms: the first cached entry, and an error for an empty or missing cache |
| Cli.CacheNumbered | bibsearch/bibsearch.py:219-238 | number `n` selects cached entry `n` counting from 1, and is an error outside `1..len` |
| Cli.SearchFirst | bibsearch/bibsearch.py:228-234 | other terms give the first hit, and no hit is an error |
| Cli.CorrectedAgrees | bibsearch/bibsearch.py:203-240 | for non-negative positions the corrected and written versions agree |
| Cli.ExtractFiles | bibsearch/bibsearch.py:368-369 | `Extract` returns a list as it stands |
| Cli.ExtractConcat | bibsearch/bibsearch.py:370-372 | joined mappings flatten (`ExtractItems`, value by value) to joined file lists, in order |
| Cli.ExtractSingle | bibsearch/bibsearch.py:370-372 | a one-value mapping flattens to that value's files |
| Cli.Lookup | bibsearch/bibsearch.py:360 | the value under the text key, absent exactly when no text key matches |
| Cli.IntKeyUnreachable | bibsearch/bibsearch.py:358-360 | a branch under an integer key is not reached by its digits |
| Cli.Descend | bibsearch/bibsearch.py:356-365 | an empty branch path stays at the resource |
| Cli.SpecFields | bibsearch/bibsearch.py:335-336 | a specification has at least one field |
| Cli.SpecFieldsOf | bibsearch/bibsearch.py:335-336 | the fields are the stripped body split at `/` |
| Cli.FnamesFromBibSet | bibsearch/bibsearch.py:334-374 | the `list` resource gives no files |
| Cli.WholeResource | bibsearch/bibsearch.py:334-374 | a resource name alone gives all its files |
| Cli.OneBranch | bibsearch/bibsearch.py:356-374 | `resource/branch` gives the files under that branch |
| Cli.InvalidBranch | bibsearch/bibsearch.py:356-364 | `resource/branch` naming a branch the resource lacks ends with the invalid-branch message quoting the branch and the specification |
| Cli.BranchOfList | bibsearch/bibsearch.py:356-360 | a branch below a list of files is an error, as indexing a list by text raises `TypeError` |
| Cli.DescendConcat | bibsearch/bibsearch.py:356-364 | walking a path `p + q` is walking `p` and then `q` from where it ends; an error on `p` ends the walk |
| Cli.AuxName | bibsearch/bibsearch.py:537-542 | always ends in `.aux`; `.aux` is kept, `.tex` replaced, anything else extended |
| Cli.AuxNameIdempotent | bibsearch/bibsearch.py:537-542 | normalising twice is normalising once |
| Cli.AuxOfTexAndStem | bibsearch/bibsearch.py:538-542 | `x.tex` and `x` name the same `x.aux` |
| Cli.FindEntry | bibsearch/bibsearch.py:575-579 | none exactly when no entry's field, read by `FieldGet` with a missing field as none, equals the value; otherwise the first entry that does |
| Cli.CompareEntries | bibsearch/bibsearch.py:581-594 | the loop computes `Changes`: added fields, deleted fields, and edited fields plus `key` |
| Cli.Changes | bibsearch/bibsearch.py:581-594 | no field is both added and deleted; added fields are fields of the new entry and deleted ones of the old |
| Cli.ChangesSelf | bibsearch/bibsearch.py:581-594 | an entry compared with itself shows no change |
| Cli.NoChangesIff | bibsearch/bibsearch.py:581-594 | no change is reported exactly when the keys and the fields are equal |
| Cli.ChangesSwap | bibsearch/bibsearch.py:581-594 | swapping the entries swaps added and deleted and keeps edited |
| Cli.AddFile | bibsearch/bibsearch.py:298-332 | a downloaded URL is skipped unless forced; otherwise it is registered, added plus skipped is the number of entries, the table grows by the added count, every entry's key is then stored, and every warning names an entry |
| Cli.AddEntry | bibsearch/bibsearch.py:325-330 | one `add` in the loop: success exactly when the key was new, the table grows by one exactly then, and warnings name the entry |
| Cli.AddedOutcome | bibsearch/bibsearch.py:325-330 | the rows before and after one `add` give its success flag and warnings |
| Strings.ParseInt | bibsearch/bibsearch.py:226 | `int()` reads only text with something besides white space |
| Strings.ParseIntRoundTrip | bibsearch/bibsearch.py:226 | `int(str(n)) == n` |
| Strings.Delete | bibsearch/bibutils.py:72 | the deleted characters are gone, and every character left is from the input |
| Strings.DeleteConcat | bibsearch/bibutils.py:72 | deleting from `a + b` deletes from `a` and from `b`, keeping the order |
| Strings.DeleteOne | bibsearch/bibutils.py:72 | a single character is kept exactly when it is not to be deleted |
| Strings.DeleteKeeps | bibsearch/bibutils.py:72 | every character not to be deleted occurs as often in the result as in the input |
| Strings.Lower | bibsearch/bibutils.py:80 | the same length, each character lower-cased, non-capitals kept |
| Strings.LStrip | bibsearch/bibutils.py:213 | a suffix of the input, not starting with a stripped character |
| Strings.LStripRemovesOnly | bibsearch/bibutils.py:213 | every character `lstrip` removes is one of the stripped characters |
| Strings.RStrip | bibsearch/bibutils.py:214 | a prefix of the input, not ending with a stripped character |
| Strings.RStripRemovesOnly | bibsearch/bibutils.py:214 | every character `rstrip` removes is one of the stripped characters |
| Strings.Translate | bibdb.py:161 | every `from` becomes `to`, and nothing else changes |
| Strings.SplitOnce | bibsearch/bibdb.py:132 | `s == head + c + tail` with no `c` in the head, and none exactly when `c` is absent |

## Left out

- SQLite is not modelled. Running a search statement is a function passed in, which returns the hits or an error. The model proves which statement and values are sent and that the cache changes only when the statement succeeds. It does not prove what FTS5 or `LIKE` return, nor in what order, nor which statements SQLite rejects (an FTS5 query with an unbalanced quote, or the empty `WHERE` of a plain-table search with no terms).
- The FTS5 index and its triggers are not modelled; searches go through the statement function.
- File and network I/O is not modelled. This covers `download_file`, reading `.bib`, `.aux` and YAML files, and writing the search cache (the cache is a field), as well as progress bars, `print`, and opening PDFs.
  - `_add_file` receives the parsed entries as a parameter. Download and parse failures (`AddFileError`) are not modelled.
- pybtex parsing and serialisation are not modelled, and neither is `fulltext_to_single_entry` (bibsearch/bibutils.py:65-72), which only parses. An entry is its key, fields and persons, and the stored full text is that value.
- Character classes cover ASCII and Latin-1 only; the rest of Unicode is not modelled:
  - `str.isalpha` (`NameScan.IsAlpha`) holds for the ASCII letters, for U+00C0 to U+00FF except `×` and `÷`, and for the letters the control sequences stand for. It does not hold for `ª`, `µ` and `º`, or for letters outside Latin-1.
  - `str.islower` on one character (`NameScan.IsLowerInitial`) holds for `a`–`z`, for U+00DF to U+00FF except `÷`, and for `ı`, `ȷ`, `œ` and `ł`.
  - Strings.LowerChar: lowers only `A`–`Z` and the Latin-1 capitals U+00C0 to U+00DE except `×`. Every other character, including capitals outside Latin-1, is kept as it is.
  - White space (`Strings.Whitespace`, for `str.strip` and `str.split`) is exactly `\t`–`\r`, U+001C to U+001F, the space, U+0085 and U+00A0. The other Unicode spaces are not white space in the model.
  - `\d` and `int()` accept only the ASCII digits.
- The accent macros of `TeXToUnicode` (`_ACCENTS`, `_scan_argument`, NFC normalisation) are not modelled, because they need Unicode tables. The scanner treats accent macros as unknown sequences.
- CustomKey.Format: covers only the part of `str.format` that key templates use: literal text, `{{` and `}}`, and `{name}` or `{name:spec}`, where a text field takes no spec or `s` and an integer field takes `d` or a zero- or space-padded width. Python also accepts other specs on a text field (`{title:.5}` truncates, `{title:>8}` pads), other integer specs (`x`, `+d`, `,`), the conversions `!r`, `!s` and `!a`, and attribute or index access (`{title[0]}`). The model reports all of these as errors.
- Field names are matched exactly. pybtex keeps an entry's fields in a case-insensitive dictionary, so in the source `Title` and `title` are the same field. The model's field map tells them apart. This affects:
  - `find_entry`'s `fields.get` (bibsearch/bibsearch.py:577);
  - the field lookups of `compare_entries` (bibsearch/bibsearch.py:588-591);
  - the `year` and `title` lookups of `generate_custom_key` (bibsearch/bibutils.py:78, 88).
  For example, with an old entry whose field is `Title` and a new one whose field is `title` and whose values are equal, the source reports `title` as added and nothing else. The model reports `title` as added and `Title` as deleted. `Cli.ChangesSwap` holds for the model's exact names and not for the source's case-insensitive ones.
- The top-level bibdb.py imports a top-level `bibutils` module (bibdb.py:9), and that module is not part of this model. `LegacyDb.LegacyRow`, `LegacyDb.LegacyBibDB.Add` and the legacy key generation assume that it behaves as bibsearch/bibutils.py does: `generate_custom_key`, `field_to_unicode` and `single_entry_to_fulltext`.
- `Name.pretty` is not modelled: no core operation calls it.
- Integer fields (the year) are unbounded. `int()` does not accept the `_` digit separators Python allows.
- BibDb.BibDB.Add requires that attempts eventually find a free key. The source loops forever when every generated key and the entry's own key are taken as custom keys. `Cli.AddEntry` reports that case as an error instead.
- LegacyDb.LegacyBibDB.Add has the same precondition, for the same reason.
- Macro lookup follows configparser: macro names are case-insensitive. Interpolation of option values is not modelled.
- Error exits are `Err` results: `sys.exit` after `logging.error`, a missing `sys` import in the older index, and exceptions. Log messages are not modelled, including the `%s` left unfilled at bibsearch/bibdb.py:309.
- Cli.FnamesFromBibSet states only the `list` case in its contract. The whole resource, one branch and the two one-branch error exits are stated by `Cli.WholeResource`, `Cli.OneBranch`, `Cli.InvalidBranch` and `Cli.BranchOfList`. Paths of two or more branches have no lemma of their own; `Cli.DescendConcat` states only that such a walk composes from shorter ones. YAML values other than lists and mappings are not modelled.
- BibDb.BibDB.UpdateCustomKey models a missing row as an error; the source fails there with a `TypeError`.
- The search cache of `open` holds hits of any type, since the contents of a hit are not examined.

## Findings

| source | as written | input that shows it | evidently intended | confidence | as-written member | corrected member |
|---|---|---|---|---|---|---|
| bibsearch/bibutils.py:181-184 | a `{` is skipped by advancing while the recorded depth is non-zero, but a `{` following an unmatched `}` has recorded depth 0, so the position never moves | `_first_char("}{a")`, reached through `parse_names("}{a b c")` | skip past the opening brace, then over the group, so the scan always advances | not executed | NameScan.FirstCharStepAsWritten | NameScan.FirstCharStep |
| bibsearch/bibsearch.py:226-240 | `entry_index = int(term) - 1` is checked only against the upper bound, so number 0 gives index -1, which Python reads as the last entry | `bibsearch open 0` with a non-empty search cache | numbers outside `1..len(results)` are an error | not executed | Cli.CacheOrSearchAsWritten | Cli.CacheOrSearch |

- **First finding.** `NameScan.AsWrittenStuck` and `NameScan.UnmatchedBraceLoops` show the loop that never ends. `NameScan.FirstChar`, the corrected loop, terminates and agrees with the written round wherever the brace depth is positive (`NameScan.AsWrittenAgrees`).
- **Second finding.** `Cli.ZeroSelectsLast` shows that number 0 returns the last entry. `Cli.CacheNumbered` proves that the corrected version rejects every number outside `1..len`, and `Cli.CorrectedAgrees` that it agrees with the written code elsewhere.
