/**
 * The custom citation-key generator of bibsearch/bibutils.py and the part of Python's
 * `str.format` it relies on: literal text, `{{`/`}}` escapes and `{name[:spec]}` fields,
 * with integer specs of the form `[0][width][d]`.
 */
module CustomKey {
  import opened Wrappers
  import opened Strings
  import opened Records

  /** The default template of the packaged tool (bibsearch/config.py). */
  const DefaultKeyFormat: string := "{surname}{year}{suffix}:{title}"

  /** The default template of the early prototype (config.py). */
  const LegacyKeyFormat: string := "{surname}{short_year:02}{suffix}_{title}"

  /** A template that uses `short_year` without a spec, which the generator rewrites. */
  const ShortYearKeyFormat: string := "{surname}{short_year}{suffix}_{title}"

  /** The characters deleted from the surname and the title word. */
  const DefaultSkipChars: set<char> := {
    ' ', '`', '~', '!', '@', '#', '$', '%', '^', '&', '*', '(', ')', '+', '=', '[', ']',
    '{', '}', '|', '\\', '\'', '"', ':', ';', ',', '<', '.', '>', '/', '?'}

  /** The key template, the English stop words and the characters to delete. */
  datatype KeyConfig = KeyConfig(format: string, stopWords: set<string>, skipChars: set<char>)

  /** A value bound to a template field. */
  datatype FormatValue = FStr(s: string) | FInt(n: int)

  /** `' ' * k + s`: right-aligned in a field of `width` characters. */
  function SpacePad(s: string, width: nat): (r: string)
    ensures |r| == if |s| >= width then |s| else width
    ensures r[|r| - |s|..] == s
    decreases width - |s|
  {
    if |s| >= width then s
    else
      var r := SpacePad(" " + s, width);
      assert r[|r| - |s|..] == r[|r| - |" " + s|..][1..];
      r
  }

  /** `format(n, spec)` for the specs `''`, `'d'`, `'<width>[d]'` and `'0<width>[d]'`. */
  function FormatInt(n: int, spec: string): (r: Result<string>)
    ensures spec == "" || spec == "d" ==> r == Ok(IntToString(n))
    ensures r.Ok? ==> |IntToString(n)| <= |r.value|
  {
    var body := if spec != [] && spec[|spec| - 1] == 'd' then spec[..|spec| - 1] else spec;
    if body == [] then Ok(IntToString(n))
    else if !AllDigits(body) then Err("unsupported format spec")
    else if body[0] == '0' then Ok(PadInt(n, DigitsValue(body)))
    else Ok(SpacePad(IntToString(n), DigitsValue(body)))
  }

  /** One replacement field `name[:spec]`: a missing name is Python's `KeyError`. */
  function FormatField(field: string, bindings: map<string, FormatValue>): (r: Result<string>)
    ensures r.Ok? ==> (if ':' in field then SplitOnce(field, ':').value.0 else field) in bindings
  {
    var (name, spec) := if ':' in field then SplitOnce(field, ':').value else (field, "");
    if name !in bindings then Err("KeyError: " + name)
    else match bindings[name]
      case FStr(s) => if spec == "" || spec == "s" then Ok(s) else Err("unsupported format spec")
      case FInt(n) => FormatInt(n, spec)
  }

  /** `template.format(**bindings)`. */
  function Format(t: string, bindings: map<string, FormatValue>): Result<string>
    decreases |t|
  {
    if t == [] then Ok("")
    else if t[0] == '{' then
      if |t| >= 2 && t[1] == '{' then Prepend("{", Format(t[2..], bindings))
      else
        var close := IndexOf(t[1..], '}');
        if close.None? then Err("expected '}' before end of string")
        else
          var field := t[1..close.value + 1];
          var v := FormatField(field, bindings);
          if '{' in field then Err("nested replacement fields are not supported")
          else if v.Err? then Err(v.error)
          else Prepend(v.value, Format(t[close.value + 2..], bindings))
    else if t[0] == '}' then
      if |t| >= 2 && t[1] == '}' then Prepend("}", Format(t[2..], bindings))
      else Err("Single '}' encountered in format string")
    else Prepend([t[0]], Format(t[1..], bindings))
  }

  /** Literal text without braces is copied. */
  lemma {:induction false} FormatLiteral(lit: string, rest: string, bindings: map<string, FormatValue>)
    requires forall i :: 0 <= i < |lit| ==> lit[i] != '{' && lit[i] != '}'
    ensures Format(lit + rest, bindings) == Prepend(lit, Format(rest, bindings))
    decreases |lit|
  {
    if lit == [] {
      assert lit + rest == rest;
      var tail := Format(rest, bindings);
      if tail.Ok? {
        assert lit + tail.value == tail.value;
      }
    } else {
      assert (lit + rest)[0] == lit[0] && (lit + rest)[1..] == lit[1..] + rest;
      FormatLiteral(lit[1..], rest, bindings);
      assert Format(lit + rest, bindings) == Prepend([lit[0]], Format(lit[1..] + rest, bindings));
      assert [lit[0]] + lit[1..] == lit;
      var tail := Format(rest, bindings);
      if tail.Ok? {
        assert [lit[0]] + (lit[1..] + tail.value) == lit + tail.value;
      }
    }
  }

  /** A replacement field is replaced by its formatted value and the scan continues after it. */
  lemma {:induction false} FormatFieldStep(field: string, rest: string, bindings: map<string, FormatValue>)
    requires '{' !in field && '}' !in field
    requires FormatField(field, bindings).Ok?
    ensures Format(Field(field) + rest, bindings) == Prepend(FormatField(field, bindings).value, Format(rest, bindings))
  {
    FieldShape(field, rest);
    FormatOpenField(Field(field) + rest, |field|, bindings);
  }

  /** Where the field `{field}` ends inside `{field}` + rest. */
  lemma {:induction false} FieldShape(field: string, rest: string)
    requires '{' !in field && '}' !in field
    ensures var t := Field(field) + rest;
      |t| >= |field| + 2 && t[0] == '{' && t[1] != '{' && IndexOf(t[1..], '}') == Some(|field|)
      && t[1..|field| + 1] == field && t[|field| + 2..] == rest
  {
    var t := Field(field) + rest;
    assert t[1..] == field + "}" + rest;
    assert t[1] != '{' by { if field != [] { assert t[1] == field[0]; } }
    SplitOncePrefix(field, '}', rest);
    assert t[1..|field| + 1] == field;
    assert t[|field| + 2..] == rest;
  }

  /** One unfolding of `Format` at a `{` that opens a field closed at offset `i + 1`. */
  lemma {:induction false} FormatOpenField(t: string, i: nat, bindings: map<string, FormatValue>)
    requires |t| >= i + 2 && t[0] == '{' && t[1] != '{'
    requires IndexOf(t[1..], '}').Some? && IndexOf(t[1..], '}').value == i && '{' !in t[1..i + 1]
    requires FormatField(t[1..i + 1], bindings).Ok?
    ensures Format(t, bindings) == Prepend(FormatField(t[1..i + 1], bindings).value, Format(t[i + 2..], bindings))
  {
  }

  /** `'' if level == 0 else chr(ord('a') + level - 1)`. */
  function Suffix(level: nat): (r: string)
    requires level <= 26
    ensures level == 0 <==> r == ""
    ensures level > 0 ==> |r| == 1 && 'a' <= r[0] <= 'z' && r[0] as int - 'a' as int == level - 1
  {
    if level == 0 then "" else [('a' as int + level - 1) as char]
  }

  /** Different levels give different suffixes, so levels 1..26 give the 26 letters in order. */
  lemma {:induction false} SuffixInjective(i: nat, j: nat)
    requires i <= 26 && j <= 26 && i != j
    ensures Suffix(i) != Suffix(j)
  {
    if i > 0 && j > 0 {
      assert Suffix(i)[0] != Suffix(j)[0];
    }
  }

  /** Index of the first word not in `stop`, if any. */
  function FirstNotIn(words: seq<string>, stop: set<string>): (r: Option<nat>)
    ensures r.Some? ==> r.value < |words| && words[r.value] !in stop
    ensures r.Some? ==> forall j :: 0 <= j < r.value ==> words[j] in stop
    ensures r.None? ==> forall j :: 0 <= j < |words| ==> words[j] in stop
    decreases |words|
  {
    if words == [] then None
    else if words[0] !in stop then Some(0)
    else match FirstNotIn(words[1..], stop)
      case None => None
      case Some(k) => Some(k + 1)
  }

  /** The lower-cased white-space tokens of the title. */
  function LowerWords(title: string): (r: seq<string>)
    ensures |r| == |Words(title)|
    ensures forall i :: 0 <= i < |r| ==> r[i] == Lower(Words(title)[i])
  {
    var ws := Words(title);
    seq(|ws|, i requires 0 <= i < |ws| => Lower(ws[i]))
  }

  /**
   * The title word: the first lower-cased token that is not a stop word, else the
   * title's first character; skip characters are deleted. An empty title fails.
   */
  function TitleWord(title: string, cfg: KeyConfig): (r: Result<string>)
    ensures r.Err? <==> title == ""
    ensures r.Ok? ==> forall i :: 0 <= i < |r.value| ==> r.value[i] !in cfg.skipChars
    ensures r.Ok? && FirstNotIn(LowerWords(title), cfg.stopWords).Some? ==>
      r.value == Delete(LowerWords(title)[FirstNotIn(LowerWords(title), cfg.stopWords).value], cfg.skipChars)
    ensures r.Ok? && FirstNotIn(LowerWords(title), cfg.stopWords).None? ==> r.value == Delete([title[0]], cfg.skipChars)
  {
    var ws := LowerWords(title);
    match FirstNotIn(ws, cfg.stopWords)
    case Some(k) => Ok(Delete(ws[k], cfg.skipChars))
    case None => if title == "" then Err("IndexError: string index out of range") else Ok(Delete([title[0]], cfg.skipChars))
  }

  /** The values the template may refer to, computed from the entry; missing data fails. */
  function KeyBindings(e: Entry, cfg: KeyConfig, level: nat): (r: Result<map<string, FormatValue>>)
    requires level <= 26
    ensures r.Ok? ==> "year" in e.fields && ParseInt(e.fields["year"]).Some?
    ensures r.Ok? ==> e.authors != [] && e.authors[0].lastNames != [] && "title" in e.fields
    ensures r.Ok? ==> TitleWord(e.fields["title"], cfg).Ok?
    ensures r.Ok? ==> r.value == Bindings(
      Delete(Lower(e.authors[0].lastNames[0]), cfg.skipChars),
      if |e.authors| > 1 then "_etAl" else "",
      ParseInt(e.fields["year"]).value,
      Suffix(level),
      TitleWord(e.fields["title"], cfg).value)
  {
    if "year" !in e.fields then Err("KeyError: year")
    else match ParseInt(e.fields["year"])
      case None => Err("ValueError: invalid literal for int() with base 10: '" + e.fields["year"] + "'")
      case Some(year) =>
        if e.authors == [] then Err("KeyError: author")
        else if e.authors[0].lastNames == [] then Err("IndexError: list index out of range")
        else if "title" !in e.fields then Err("KeyError: title")
        else
          var t := TitleWord(e.fields["title"], cfg);
          if t.Err? then Err(t.error)
          else Ok(Bindings(Delete(Lower(e.authors[0].lastNames[0]), cfg.skipChars),
              if |e.authors| > 1 then "_etAl" else "", year, Suffix(level), t.value))
  }

  /** The keyword arguments of the template: `short_year` is the year modulo 100. */
  function Bindings(surname: string, etAl: string, year: int, suffix: string, title: string): (b: map<string, FormatValue>)
    ensures b.Keys == {"surname", "et_al", "year", "short_year", "suffix", "title"}
    ensures b["surname"] == FStr(surname) && b["et_al"] == FStr(etAl) && b["title"] == FStr(title)
    ensures b["year"] == FInt(year) && b["short_year"] == FInt(year % 100) && b["suffix"] == FStr(suffix)
  {
    map[
      "surname" := FStr(surname),
      "et_al" := FStr(etAl),
      "year" := FInt(year),
      "short_year" := FInt(year % 100),
      "suffix" := FStr(suffix),
      "title" := FStr(title)]
  }

  /** The template with `{short_year}` rewritten to `{short_year:02d}`. */
  function KeyTemplate(format: string): (r: string)
    ensures (forall i: nat :: i <= |format| ==> !OccursAt(format, "{short_year}", i)) ==> r == format
  {
    ReplaceWhenAbsent(format, "{short_year}", "{short_year:02d}");
    Replace(format, "{short_year}", "{short_year:02d}")
  }

  /** `generate_custom_key(entry, format, level)`. */
  function GenerateCustomKey(e: Entry, cfg: KeyConfig, level: nat): (r: Result<string>)
    requires level <= 26
  {
    match KeyBindings(e, cfg, level)
    case Err(msg) => Err(msg)
    case Ok(b) => Format(KeyTemplate(cfg.format), b)
  }

  /** The surname part has no capital letter and no skip character. */
  lemma {:induction false} SurnameNormalised(e: Entry, cfg: KeyConfig, level: nat)
    requires level <= 26 && KeyBindings(e, cfg, level).Ok?
    ensures var s := KeyBindings(e, cfg, level).value["surname"].s;
      forall i :: 0 <= i < |s| ==> s[i] !in cfg.skipChars && !IsUpper(s[i])
  {
    LowerDeleted(e.authors[0].lastNames[0], cfg.skipChars);
  }

  /** Deleting characters from a lower-cased text leaves no upper-case letter and none deleted. */
  lemma {:induction false} LowerDeleted(name: string, skip: set<char>)
    ensures var s := Delete(Lower(name), skip);
      forall i :: 0 <= i < |s| ==> s[i] !in skip && !IsUpper(s[i])
  {
    var raw := Lower(name);
    var s := Delete(raw, skip);
    forall i | 0 <= i < |s| ensures s[i] !in skip && !IsUpper(s[i]) {
      assert s[i] in raw;
      var k :| 0 <= k < |raw| && raw[k] == s[i];
    }
  }

  /** A field without a spec bound to a string gives the string. */
  lemma {:induction false} StringField(name: string, b: map<string, FormatValue>)
    requires ':' !in name && name in b && b[name].FStr?
    ensures FormatField(name, b) == Ok(b[name].s)
  {
  }

  /** A field without a spec bound to an integer gives its decimal text. */
  lemma {:induction false} IntField(name: string, b: map<string, FormatValue>)
    requires ':' !in name && name in b && b[name].FInt?
    ensures FormatField(name, b) == Ok(IntToString(b[name].n))
  {
  }

  /** With the default template the key is surname, year, suffix, `:` and title word. */
  lemma {:induction false} DefaultKeyShape(e: Entry, cfg: KeyConfig, level: nat)
    requires level <= 26 && cfg.format == DefaultKeyFormat
    requires KeyBindings(e, cfg, level).Ok?
    ensures var b := KeyBindings(e, cfg, level).value;
      GenerateCustomKey(e, cfg, level) == Ok(b["surname"].s + IntToString(b["year"].n) + b["suffix"].s + ":" + b["title"].s)
  {
    var b := KeyBindings(e, cfg, level).value;
    DefaultTemplateUnchanged();
    DefaultTemplateFormat(b);
  }

  /** With the prototype's template the year is always two digits: `smith07a_parsing`. */
  lemma {:induction false} LegacyKeyShape(e: Entry, cfg: KeyConfig, level: nat)
    requires level <= 26 && cfg.format == LegacyKeyFormat
    requires KeyBindings(e, cfg, level).Ok?
    ensures var b := KeyBindings(e, cfg, level).value;
      GenerateCustomKey(e, cfg, level) == Ok(b["surname"].s + PadInt(b["short_year"].n, 2) + b["suffix"].s + "_" + b["title"].s)
    ensures var y := KeyBindings(e, cfg, level).value["short_year"].n;
      0 <= y < 100 && |PadInt(y, 2)| == 2 && AllDigits(PadInt(y, 2)) && DigitsValue(PadInt(y, 2)) == y
  {
    var b := KeyBindings(e, cfg, level).value;
    LegacyTemplateUnchanged();
    LegacyTemplateFormat(b);
    TwoDigits(b["short_year"].n);
  }

  /** The replacement field `{name}`. */
  function Field(name: string): string {
    "{" + name + "}"
  }

  /** The default template filled from bindings of the right kinds. */
  lemma {:induction false} DefaultTemplateFormat(b: map<string, FormatValue>)
    requires "surname" in b && "year" in b && "suffix" in b && "title" in b
    requires b["surname"].FStr? && b["year"].FInt? && b["suffix"].FStr? && b["title"].FStr?
    ensures Format(DefaultKeyFormat, b) == Ok(b["surname"].s + IntToString(b["year"].n) + b["suffix"].s + ":" + b["title"].s)
  {
    DefaultTemplateShape();
    DefaultFields("surname", "year", "suffix", ":", "title", b);
  }

  lemma {:induction false} DefaultTemplateShape()
    ensures DefaultKeyFormat == Field("surname") + Field("year") + Field("suffix") + ":" + Field("title")
  {
  }

  lemma {:induction false} DefaultFields(sn: string, yr: string, sf: string, c: string, ti: string, b: map<string, FormatValue>)
    requires sn == "surname" && yr == "year" && sf == "suffix" && c == ":" && ti == "title"
    requires "surname" in b && "year" in b && "suffix" in b && "title" in b
    requires b["surname"].FStr? && b["year"].FInt? && b["suffix"].FStr? && b["title"].FStr?
    ensures Format(Field(sn) + Field(yr) + Field(sf) + c + Field(ti), b) ==
      Ok(b["surname"].s + IntToString(b["year"].n) + b["suffix"].s + ":" + b["title"].s)
  {
    assert forall i :: 0 <= i < |c| ==> c[i] != '{' && c[i] != '}';
    StringField(sn, b);
    IntField(yr, b);
    StringField(sf, b);
    StringField(ti, b);
    FieldsTemplate(sn, yr, sf, c, ti, b, b["surname"].s, IntToString(b["year"].n), b["suffix"].s, b["title"].s);
  }

  /** The prototype's template: surname, short year zero-padded to two digits, suffix, `_` and title word. */
  lemma {:induction false} LegacyTemplateFormat(b: map<string, FormatValue>)
    requires "surname" in b && "short_year" in b && "suffix" in b && "title" in b
    requires b["surname"].FStr? && b["short_year"].FInt? && b["suffix"].FStr? && b["title"].FStr?
    ensures Format(LegacyKeyFormat, b) == Ok(b["surname"].s + PadInt(b["short_year"].n, 2) + b["suffix"].s + "_" + b["title"].s)
  {
    LegacyTemplateShape();
    LegacyFields("surname", "short_year:02", "suffix", "_", "title", b);
  }

  lemma {:induction false} LegacyFields(sn: string, sy: string, sf: string, u: string, ti: string, b: map<string, FormatValue>)
    requires sn == "surname" && sy == "short_year:02" && sf == "suffix" && u == "_" && ti == "title"
    requires "surname" in b && "short_year" in b && "suffix" in b && "title" in b
    requires b["surname"].FStr? && b["short_year"].FInt? && b["suffix"].FStr? && b["title"].FStr?
    ensures Format(Field(sn) + Field(sy) + Field(sf) + u + Field(ti), b) ==
      Ok(b["surname"].s + PadInt(b["short_year"].n, 2) + b["suffix"].s + "_" + b["title"].s)
  {
    LegacyFieldValues(sn, sy, sf, u, ti, b);
    FieldsTemplate(sn, sy, sf, u, ti, b,
      b["surname"].s, PadInt(b["short_year"].n, 2), b["suffix"].s, b["title"].s);
  }

  /** Each field of the prototype's template, filled on its own. */
  lemma {:induction false} LegacyFieldValues(sn: string, sy: string, sf: string, u: string, ti: string, b: map<string, FormatValue>)
    requires sn == "surname" && sy == "short_year:02" && sf == "suffix" && u == "_" && ti == "title"
    requires "surname" in b && "short_year" in b && "suffix" in b && "title" in b
    requires b["surname"].FStr? && b["short_year"].FInt? && b["suffix"].FStr? && b["title"].FStr?
    ensures '{' !in sn && '}' !in sn && '{' !in sy && '}' !in sy
    ensures '{' !in sf && '}' !in sf && '{' !in ti && '}' !in ti
    ensures forall i :: 0 <= i < |u| ==> u[i] != '{' && u[i] != '}'
    ensures FormatField(sn, b) == Ok(b["surname"].s) && FormatField(sy, b) == Ok(PadInt(b["short_year"].n, 2))
    ensures FormatField(sf, b) == Ok(b["suffix"].s) && FormatField(ti, b) == Ok(b["title"].s)
  {
    PlainNames(sn, sy, sf, u, ti);
    ShortYearField(sy, b);
    StringField(sn, b);
    StringField(sf, b);
    StringField(ti, b);
  }

  /** The field names and the literal of the prototype's template hold no braces. */
  lemma {:induction false} PlainNames(sn: string, sy: string, sf: string, u: string, ti: string)
    requires sn == "surname" && sy == "short_year:02" && sf == "suffix" && u == "_" && ti == "title"
    ensures '{' !in sn && '}' !in sn && '{' !in sy && '}' !in sy
    ensures '{' !in sf && '}' !in sf && '{' !in ti && '}' !in ti
    ensures forall i :: 0 <= i < |u| ==> u[i] != '{' && u[i] != '}'
    ensures ':' !in sn && ':' !in sf && ':' !in ti
  {
  }

  lemma {:induction false} LegacyTemplateShape()
    ensures LegacyKeyFormat == Field("surname") + Field("short_year:02") + Field("suffix") + "_" + Field("title")
  {
    var a, b, c, d := Field("surname"), Field("short_year:02"), Field("suffix"), Field("title");
    LegacyHalves();
    LegacyLeft();
    LegacyRight();
    assert a + b + c + "_" + d == (a + b) + (c + "_" + d);
  }

  lemma {:induction false} LegacyHalves()
    ensures LegacyKeyFormat == "{surname}{short_year:02}" + "{suffix}_{title}"
  {
  }

  lemma {:induction false} LegacyLeft()
    ensures "{surname}{short_year:02}" == Field("surname") + Field("short_year:02")
  {
    assert Field("surname") == "{surname}" && Field("short_year:02") == "{short_year:02}";
  }

  lemma {:induction false} LegacyRight()
    ensures "{suffix}_{title}" == Field("suffix") + "_" + Field("title")
  {
    assert Field("suffix") == "{suffix}" && Field("title") == "{title}";
  }

  /** `{short_year:02}` pads the short year to two digits. */
  lemma {:induction false} ShortYearField(sy: string, b: map<string, FormatValue>)
    requires sy == "short_year:02"
    requires "short_year" in b && b["short_year"].FInt?
    ensures FormatField(sy, b) == Ok(PadInt(b["short_year"].n, 2))
  {
    var d: string := "02";
    assert AllDigits(d) && d[..1] == "0";
    assert DigitsValue(d) == 2;
    IntSpecField("short_year", d, 2, b);
    assert "short_year" + ":" + d == sy;
  }

  /** A template of the shape `{a}{y}{s}<lit>{t}` whose fields format to the given values. */
  lemma {:induction false} FieldsTemplate(a: string, y: string, sfx: string, lit: string, t: string, b: map<string, FormatValue>,
                       va: string, vy: string, vs: string, vt: string)
    requires '{' !in a && '}' !in a && '{' !in y && '}' !in y
    requires '{' !in sfx && '}' !in sfx && '{' !in t && '}' !in t
    requires forall i :: 0 <= i < |lit| ==> lit[i] != '{' && lit[i] != '}'
    requires FormatField(a, b) == Ok(va) && FormatField(y, b) == Ok(vy)
    requires FormatField(sfx, b) == Ok(vs) && FormatField(t, b) == Ok(vt)
    ensures Format(Field(a) + Field(y) + Field(sfx) + lit + Field(t), b) == Ok(va + vy + vs + lit + vt)
  {
    var empty: string := "";
    assert Format(empty, b) == Ok(empty);
    var t4: string := Field(t) + empty;
    var t3: string := lit + t4;
    var t2: string := Field(sfx) + t3;
    var t1: string := Field(y) + t2;
    FieldThen(t, empty, b, vt, empty);
    LiteralThen(lit, t4, b, vt + empty);
    FieldThen(sfx, t3, b, vs, lit + (vt + empty));
    FieldThen(y, t2, b, vy, vs + (lit + (vt + empty)));
    FieldThen(a, t1, b, va, vy + (vs + (lit + (vt + empty))));
    Regroup(Field(a), Field(y), Field(sfx), lit, Field(t));
    Regroup(va, vy, vs, lit, vt);
  }

  /** A field `name:0<width>` bound to an integer gives the zero-padded integer. */
  lemma {:induction false} IntSpecField(name: string, digits: string, width: nat, b: map<string, FormatValue>)
    requires ':' !in name && name in b && b[name].FInt?
    requires |digits| >= 2 && digits[0] == '0' && AllDigits(digits) && DigitsValue(digits) == width
    requires digits[|digits| - 1] != 'd'
    ensures FormatField(name + ":" + digits, b) == Ok(PadInt(b[name].n, width))
  {
    SplitOncePrefix(name, ':', digits);
    assert ':' in name + ":" + digits by {
      assert (name + ":" + digits)[|name|] == ':';
    }
  }

  lemma {:induction false} Regroup(p: string, q: string, r: string, s: string, u: string)
    ensures p + (q + (r + (s + (u + "")))) == p + q + r + s + u
  {
    assert u + "" == u;
  }

  /** A field followed by text that formats to `w` formats to the field's value then `w`. */
  lemma {:induction false} FieldThen(field: string, rest: string, b: map<string, FormatValue>, v: string, w: string)
    requires '{' !in field && '}' !in field
    requires FormatField(field, b) == Ok(v) && Format(rest, b) == Ok(w)
    ensures Format(Field(field) + rest, b) == Ok(v + w)
  {
    FormatFieldStep(field, rest, b);
  }

  /** Brace-free text followed by text that formats to `w` formats to the text then `w`. */
  lemma {:induction false} LiteralThen(lit: string, rest: string, b: map<string, FormatValue>, w: string)
    requires forall i :: 0 <= i < |lit| ==> lit[i] != '{' && lit[i] != '}'
    requires Format(rest, b) == Ok(w)
    ensures Format(lit + rest, b) == Ok(lit + w)
  {
    FormatLiteral(lit, rest, b);
  }

  /** A replacement field other than `{short_year}` is not rewritten; the scan resumes after it. */
  lemma {:induction false} FieldNotShortYear(n: string, rest: string, pat: string, rep: string)
    requires pat == "{short_year}"
    requires '{' !in n && '}' !in n && n != "short_year"
    ensures Replace(Field(n) + rest, pat, rep) == Field(n) + Replace(rest, pat, rep)
  {
    NotShortYearHere(n, rest, pat);
    FieldSkipped(n, rest, pat, rep);
  }

  /** A field at which a `{`-pattern does not start is copied whole: no occurrence starts inside it. */
  lemma {:induction false} FieldSkipped(n: string, rest: string, pat: string, rep: string)
    requires |pat| > 0 && pat[0] == '{' && '{' !in n
    requires var t := Field(n) + rest; |t| >= |pat| ==> t[..|pat|] != pat
    ensures Replace(Field(n) + rest, pat, rep) == Field(n) + Replace(rest, pat, rep)
  {
    var t := Field(n) + rest;
    ReplaceNoMatchHere(t, pat, rep);
    assert t[1..] == (n + "}") + rest;
    ReplaceSkipPrefix(n + "}", rest, pat, rep);
    assert [t[0]] + ((n + "}") + Replace(rest, pat, rep)) == Field(n) + Replace(rest, pat, rep);
  }

  /** A field other than `{short_year}` does not start with the pattern `{short_year}`. */
  lemma {:induction false} NotShortYearHere(n: string, rest: string, pat: string)
    requires pat == "{short_year}"
    requires '{' !in n && '}' !in n && n != "short_year"
    ensures var t := Field(n) + rest; t[0] == '{' && (|t| >= |pat| ==> t[..|pat|] != pat)
  {
    var t := Field(n) + rest;
    if |t| >= |pat| {
      if |n| < 10 {
        assert t[|n| + 1] == '}';
        assert pat[|n| + 1] in "short_year";
      } else if |n| == 10 {
        assert t[..12][1..11] == n;
        assert pat[1..11] == "short_year";
      } else {
        assert t[11] == n[10];
      }
    }
  }

  /** The prototype's template spells the short year out with a spec, so it is not rewritten. */
  lemma {:induction false} LegacyTemplateUnchanged()
    ensures KeyTemplate(LegacyKeyFormat) == LegacyKeyFormat
  {
    var pat: string, rep: string := "{short_year}", "{short_year:02d}";
    var sn: string, sy: string, sf: string, u: string, ti: string := "surname", "short_year:02", "suffix", "_", "title";
    PlainNames(sn, sy, sf, u, ti);
    LegacyTemplateShape();
    var empty: string := "";
    var t4 := Field(ti) + empty;
    var t3 := u + t4;
    var t2 := Field(sf) + t3;
    var t1 := Field(sy) + t2;
    FieldNotShortYear(ti, empty, pat, rep);
    assert '{' !in u;
    ReplaceSkipPrefix(u, t4, pat, rep);
    FieldNotShortYear(sf, t3, pat, rep);
    assert sy != "short_year" by { assert |sy| != 10; }
    FieldNotShortYear(sy, t2, pat, rep);
    FieldNotShortYear(sn, t1, pat, rep);
    Regroup(Field(sn), Field(sy), Field(sf), u, Field(ti));
  }

  /** A bare `{short_year}` is rewritten to `{short_year:02d}`, and the rewrite goes on after it. */
  lemma {:induction false} KeyTemplateRewrites(x: string, y: string)
    requires '{' !in x
    ensures KeyTemplate(x + "{short_year}" + y) == x + "{short_year:02d}" + KeyTemplate(y)
  {
    assert "{short_year}"[0] == '{';
    ReplaceLeading(x, "{short_year}", y, "{short_year:02d}");
  }

  /** The template with a bare `{short_year}` gets the `02d` spec and nothing else changes. */
  lemma {:induction false} ShortYearTemplateRewritten()
    ensures KeyTemplate(ShortYearKeyFormat) == Field("surname") + Field("short_year:02d") + Field("suffix") + "_" + Field("title")
  {
    var y := Field("suffix") + "_" + Field("title");
    ShortYearTemplateShape();
    RewriteAfterField("surname", "{short_year}", "{short_year:02d}", y);
    TailUnchanged("suffix", "title", "{short_year:02d}");
    PaddedShortYearField();
    RegroupTail(Field("surname"), "{short_year:02d}", Field("suffix"), "_", Field("title"));
  }

  lemma {:induction false} PaddedShortYearField()
    ensures Field("short_year:02d") == "{short_year:02d}"
  {
  }

  /** Behind a field other than `{short_year}`, a leading `{short_year}` is the one rewritten. */
  lemma {:induction false} RewriteAfterField(n: string, pat: string, rep: string, y: string)
    requires pat == "{short_year}" && rep == "{short_year:02d}"
    requires n == "surname"
    ensures Replace(Field(n) + (pat + y), pat, rep) == Field(n) + ("" + rep + Replace(y, pat, rep))
  {
    assert '{' !in n && '}' !in n && n != "short_year" by { assert |n| != 10; }
    FieldNotShortYear(n, pat + y, pat, rep);
    KeyTemplateRewrites("", y);
    assert "" + pat + y == pat + y;
  }

  lemma {:induction false} RegroupTail(p: string, q: string, r: string, u: string, v: string)
    ensures p + ("" + q + (r + u + v)) == p + q + r + u + v
  {
    assert "" + q == q;
  }

  /** `{suffix}_{title}` has no `{short_year}` to rewrite. */
  lemma {:induction false} TailUnchanged(sf: string, ti: string, rep: string)
    requires sf == "suffix" && ti == "title"
    ensures Replace(Field(sf) + "_" + Field(ti), "{short_year}", rep) == Field(sf) + "_" + Field(ti)
  {
    var pat: string := "{short_year}";
    assert pat[2] == 'h';
    assert 'h' !in sf && 'h' !in ti;
    ReplaceMissingChar(Field(sf) + "_" + Field(ti), pat, rep, 'h');
  }

  lemma {:induction false} ShortYearTemplateShape()
    ensures ShortYearKeyFormat == Field("surname") + ("{short_year}" + (Field("suffix") + "_" + Field("title")))
  {
    var a, b, c := Field("surname"), Field("short_year"), Field("suffix") + "_" + Field("title");
    assert ShortYearKeyFormat == "{surname}{short_year}" + "{suffix}_{title}";
    assert "{surname}{short_year}" == a + b;
    LegacyRight();
    assert b == "{short_year}";
    assert a + b + c == a + (b + c);
  }

  /** `{short_year:02d}` pads the short year to two digits. */
  lemma {:induction false} ShortYearDField(sy: string, b: map<string, FormatValue>)
    requires sy == "short_year:02d"
    requires "short_year" in b && b["short_year"].FInt?
    ensures FormatField(sy, b) == Ok(PadInt(b["short_year"].n, 2))
  {
    var d: string := "02d";
    SplitOncePrefix("short_year", ':', d);
    assert "short_year" + ":" + d == sy;
    assert ':' in sy by { assert sy[10] == ':'; }
    assert d[..|d| - 1] == "02" && AllDigits("02");
    assert DigitsValue("02") == 2;
  }

  /** With a bare `{short_year}` the key carries the year modulo 100 in exactly two digits: `smith07a_parsing`. */
  lemma {:induction false} ShortYearKeyShape(e: Entry, cfg: KeyConfig, level: nat)
    requires level <= 26 && cfg.format == ShortYearKeyFormat
    requires KeyBindings(e, cfg, level).Ok?
    ensures var b := KeyBindings(e, cfg, level).value;
      GenerateCustomKey(e, cfg, level) == Ok(b["surname"].s + PadInt(b["short_year"].n, 2) + b["suffix"].s + "_" + b["title"].s)
    ensures var y := KeyBindings(e, cfg, level).value["short_year"].n;
      0 <= y < 100 && |PadInt(y, 2)| == 2 && AllDigits(PadInt(y, 2)) && DigitsValue(PadInt(y, 2)) == y
  {
    var b := KeyBindings(e, cfg, level).value;
    ShortYearTemplateRewritten();
    var sn: string, sy: string, sf: string, u: string, ti: string := "surname", "short_year:02d", "suffix", "_", "title";
    PlainNames(sn, "short_year:02", sf, u, ti);
    assert '{' !in sy && '}' !in sy;
    ShortYearDField(sy, b);
    StringField(sn, b);
    StringField(sf, b);
    StringField(ti, b);
    FieldsTemplate(sn, sy, sf, u, ti, b, b["surname"].s, PadInt(b["short_year"].n, 2), b["suffix"].s, b["title"].s);
    TwoDigits(b["short_year"].n);
  }

  /** The default template has no `{short_year}` to rewrite. */
  lemma {:induction false} DefaultTemplateUnchanged()
    ensures KeyTemplate(DefaultKeyFormat) == DefaultKeyFormat
  {
    assert "{short_year}"[6] == '_';
    ReplaceMissingChar(DefaultKeyFormat, "{short_year}", "{short_year:02d}", '_');
  }
}
