/**
 * `title_case`: BibTeX's `change.case$` with the `t` option. The first character and a
 * character after a colon and white space keep their case, text inside braces keeps its
 * case, and everything else is lower-cased; a brace group opened by `{\` is a "special
 * character" whose known control sequences and plain letters are lower-cased.
 */
module Casing {
  import opened Wrappers
  import opened Strings
  import TeX

  /** BibTeX's `control_seq_ilk`: the control sequences that stand for a letter, with that letter. */
  const ControlSeqs: map<string, char> := map[
    "\\i" := '\U{0131}', "\\j" := '\U{0237}', "\\oe" := '\U{0153}', "\\OE" := '\U{0152}',
    "\\ae" := '\U{00E6}', "\\AE" := '\U{00C6}', "\\aa" := '\U{00E5}', "\\AA" := '\U{00C5}',
    "\\o" := '\U{00F8}', "\\O" := '\U{00D8}', "\\l" := '\U{0142}', "\\L" := '\U{0141}', "\\ss" := '\U{00DF}']

  /** The white space after a colon that lets the next character keep its case. */
  const LineSpace: set<char> := {' ', '\t', '\n'}

  /** `b` is `a` or `a` lower-cased. */
  predicate SameLetter(a: char, b: char) {
    b == a || b == LowerChar(a)
  }

  /** The length of the control sequence `\letters` at the start of `t`, or 0 when there is none. */
  function CsLength(t: string): (n: nat)
    ensures n == 0 || (2 <= n <= |t| && t[0] == '\\')
    ensures n > 0 <==> |t| >= 2 && t[0] == '\\' && IsAsciiLetter(t[1])
  {
    if |t| >= 2 && t[0] == '\\' && IsAsciiLetter(t[1]) then 1 + TeX.LetterRun(t[1..]) else 0
  }

  /** A control sequence in a special character: lower-cased when BibTeX knows it, kept otherwise. */
  function CsText(cs: string): (r: string)
    ensures |r| == |cs| && forall k :: 0 <= k < |cs| ==> SameLetter(cs[k], r[k])
  {
    if cs in ControlSeqs then Lower(cs) else cs
  }

  /**
   * The conversion of `s[pos..]` from the scanner state: brace `level`, whether the
   * last non-blank character was a colon, and whether the scan is inside a special
   * character. The error is BibTeX's `unexpected }`.
   */
  function CaseFrom(s: string, pos: nat, level: nat, prevColon: bool, special: bool): (r: Result<string>)
    requires pos <= |s|
    ensures r.Ok? ==> |r.value| == |s| - pos
    decreases |s| - pos, if special then 1 else 0
  {
    if special then
      if level == 0 || pos == |s| then CaseFrom(s, pos, level, false, false)
      else
        var n := CsLength(s[pos..]);
        if n > 0 then
          Prepend(CsText(s[pos..pos + n]), CaseFrom(s, pos + n, level, prevColon, true))
        else
          var c := s[pos];
          var lv := if c == '{' then level + 1 else if c == '}' then level - 1 else level;
          Prepend([LowerChar(c)], CaseFrom(s, pos + 1, lv, prevColon, true))
    else if pos == |s| then Ok("")
    else
      var keep := pos == 0 || (prevColon && s[pos - 1] in LineSpace);
      if level == 0 && StartsWith(s[pos..], "{\\") && !keep then
        Prepend([s[pos]], CaseFrom(s, pos + 1, 1, prevColon, true))
      else
        var c := s[pos];
        if c == '}' && level == 0 then Err("unexpected }")
        else
          var lv := if c == '{' then level + 1 else if c == '}' then level - 1 else level;
          var colon := if c == ':' then true else if c !in LineSpace then false else prevColon;
          Prepend([if lv > 0 || keep then c else LowerChar(c)], CaseFrom(s, pos + 1, lv, colon, false))
  }

  /** `title_case(string)`. */
  method TitleCase(s: string) returns (r: Result<string>)
    ensures r == CaseFrom(s, 0, 0, false, false)
  {
    var out: string := "";
    PrependNothing(CaseFrom(s, 0, 0, false, false));
    var level: nat, prevColon: bool, pos: nat := 0, false, 0;
    while pos < |s|
      invariant pos <= |s|
      invariant Prepend(out, CaseFrom(s, pos, level, prevColon, false)) == CaseFrom(s, 0, 0, false, false)
      decreases |s| - pos
    {
      var keep := pos == 0 || (prevColon && s[pos - 1] in LineSpace);
      if level == 0 && StartsWith(s[pos..], "{\\") && !keep {
        var text, next, lv := SpecialChar(s, pos + 1, 1, prevColon);
        SpecialStartUnfold(s, pos, prevColon);
        PrependTwice(out, [s[pos]], CaseFrom(s, pos + 1, 1, prevColon, true));
        PrependTwice(out + [s[pos]], text, CaseFrom(s, next, lv, false, false));
        out := out + [s[pos]] + text;
        pos, level, prevColon := next, lv, false;
        continue;
      }
      var c := s[pos];
      var level0, prevColon0 := level, prevColon;
      if c == '{' {
        level := level + 1;
      } else if c == '}' {
        if level == 0 {
          CloseUnfold(s, pos, prevColon);
          return Err("unexpected }");
        }
        level := level - 1;
      }
      if c == ':' {
        prevColon := true;
      } else if c !in LineSpace {
        prevColon := false;
      }
      var emitted := if level > 0 || keep then c else LowerChar(c);
      CharUnfold(s, pos, level0, prevColon0, level, prevColon);
      PrependTwice(out, [emitted], CaseFrom(s, pos + 1, level, prevColon, false));
      out := out + [emitted];
      pos := pos + 1;
    }
    assert out + "" == out;
    r := Ok(out);
  }

  /** A special character starts at `{\\` outside braces, unless the character is kept. */
  lemma {:induction false} SpecialStartUnfold(s: string, pos: nat, prevColon: bool)
    requires pos < |s| && StartsWith(s[pos..], "{\\")
    requires !(pos == 0 || (prevColon && s[pos - 1] in LineSpace))
    ensures CaseFrom(s, pos, 0, prevColon, false) == Prepend([s[pos]], CaseFrom(s, pos + 1, 1, prevColon, true))
  {
  }

  /** A `}` outside braces is BibTeX's error. */
  lemma {:induction false} CloseUnfold(s: string, pos: nat, prevColon: bool)
    requires pos < |s| && s[pos] == '}'
    ensures CaseFrom(s, pos, 0, prevColon, false) == Err("unexpected }")
  {
    assert !StartsWith(s[pos..], "{\\") by { assert s[pos..][0] == '}'; }
  }

  /** Any other character outside a special character moves the level and the colon state. */
  lemma {:induction false} CharUnfold(s: string, pos: nat, level: nat, prevColon: bool, lv: nat, colon: bool)
    requires pos < |s|
    requires var keep := pos == 0 || (prevColon && s[pos - 1] in LineSpace);
      !(level == 0 && StartsWith(s[pos..], "{\\") && !keep)
    requires !(s[pos] == '}' && level == 0)
    requires lv == if s[pos] == '{' then level + 1 else if s[pos] == '}' then level - 1 else level
    requires colon == if s[pos] == ':' then true else if s[pos] !in LineSpace then false else prevColon
    ensures var keep := pos == 0 || (prevColon && s[pos - 1] in LineSpace);
      CaseFrom(s, pos, level, prevColon, false)
      == Prepend([if lv > 0 || keep then s[pos] else LowerChar(s[pos])], CaseFrom(s, pos + 1, lv, colon, false))
  {
  }

  /**
   * The inner loop of `title_case` over a special character: from just after its `{`
   * to the brace that closes it or the end of the string.
   */
  method SpecialChar(s: string, start: nat, level0: nat, prevColon: bool) returns (text: string, pos: nat, level: nat)
    requires start <= |s|
    ensures start <= pos <= |s| && (level == 0 || pos == |s|)
    ensures CaseFrom(s, start, level0, prevColon, true) == Prepend(text, CaseFrom(s, pos, level, false, false))
  {
    text, pos, level := "", start, level0;
    PrependNothing(CaseFrom(s, start, level0, prevColon, true));
    while level > 0 && pos < |s|
      invariant start <= pos <= |s|
      invariant Prepend(text, CaseFrom(s, pos, level, prevColon, true)) == CaseFrom(s, start, level0, prevColon, true)
      decreases |s| - pos
    {
      text, pos, level := SpecialCharStep(s, text, pos, level, prevColon);
    }
    SpecialEnd(s, pos, level, prevColon);
  }

  /** One round of the inner loop: a control sequence, or one character lower-cased. */
  method SpecialCharStep(s: string, text: string, pos: nat, level: nat, prevColon: bool)
      returns (text': string, pos': nat, level': nat)
    requires pos < |s| && level > 0
    ensures pos < pos' <= |s|
    ensures Prepend(text', CaseFrom(s, pos', level', prevColon, true)) == Prepend(text, CaseFrom(s, pos, level, prevColon, true))
  {
    var n := 0;
    if s[pos] == '\\' {
      n := CsLength(s[pos..]);
    }
    if n > 0 {
      pos', level' := pos + n, level;
      text' := text + CsText(s[pos..pos']);
      SpecialCs(s, text, pos, level, prevColon, text', pos');
    } else {
      level' := level;
      if s[pos] == '{' {
        level' := level + 1;
      } else if s[pos] == '}' {
        level' := level - 1;
      }
      text', pos' := text + [LowerChar(s[pos])], pos + 1;
      SpecialLetter(s, text, pos, level, prevColon, text', pos', level');
    }
  }

  /** Inside a special character, a control sequence is emitted by `CsText`. */
  lemma {:induction false} SpecialCs(s: string, text: string, pos: nat, level: nat, prevColon: bool, text': string, next: nat)
    requires pos < |s| && level > 0
    requires next == pos + CsLength(s[pos..]) && next > pos
    requires text' == text + CsText(s[pos..next])
    ensures Prepend(text', CaseFrom(s, next, level, prevColon, true)) == Prepend(text, CaseFrom(s, pos, level, prevColon, true))
  {
    CsUnfold(s, pos, level, prevColon, next);
    PrependTwice(text, CsText(s[pos..next]), CaseFrom(s, next, level, prevColon, true));
  }

  /** One control sequence of a special character. */
  lemma {:induction false} CsUnfold(s: string, pos: nat, level: nat, prevColon: bool, next: nat)
    requires pos < |s| && level > 0
    requires next == pos + CsLength(s[pos..]) && next > pos
    ensures CaseFrom(s, pos, level, prevColon, true) == Prepend(CsText(s[pos..next]), CaseFrom(s, next, level, prevColon, true))
  {
  }

  /** One other character of a special character. */
  lemma {:induction false} LetterUnfold(s: string, pos: nat, level: nat, prevColon: bool, lv: nat)
    requires pos < |s| && level > 0 && CsLength(s[pos..]) == 0
    requires lv == if s[pos] == '{' then level + 1 else if s[pos] == '}' then level - 1 else level
    ensures CaseFrom(s, pos, level, prevColon, true) == Prepend([LowerChar(s[pos])], CaseFrom(s, pos + 1, lv, prevColon, true))
  {
  }

  /** Inside a special character, any other character is lower-cased and braces change the level. */
  lemma {:induction false} SpecialLetter(s: string, text: string, pos: nat, level: nat, prevColon: bool, text': string, next: nat, lv: nat)
    requires pos < |s| && level > 0 && CsLength(s[pos..]) == 0 && next == pos + 1
    requires lv == if s[pos] == '{' then level + 1 else if s[pos] == '}' then level - 1 else level
    requires text' == text + [LowerChar(s[pos])]
    ensures Prepend(text', CaseFrom(s, next, lv, prevColon, true)) == Prepend(text, CaseFrom(s, pos, level, prevColon, true))
  {
    LetterUnfold(s, pos, level, prevColon, lv);
    PrependTwice(text, [LowerChar(s[pos])], CaseFrom(s, pos + 1, lv, prevColon, true));
  }

  /** A special character ends when its braces are closed or the string ends. */
  lemma {:induction false} SpecialEnd(s: string, pos: nat, level: nat, prevColon: bool)
    requires pos <= |s| && (level == 0 || pos == |s|)
    ensures CaseFrom(s, pos, level, prevColon, true) == CaseFrom(s, pos, level, false, false)
  {
  }

  /** The result of `CaseFrom` changes characters only by lower-casing them. */
  predicate CaseOnlyAt(s: string, pos: nat, r: Result<string>)
    requires pos <= |s|
  {
    r.Ok? ==> |r.value| == |s| - pos && forall k :: 0 <= k < |r.value| ==> SameLetter(s[pos + k], r.value[k])
  }

  /** Every output character is the input character at the same position, or its lower case. */
  lemma {:induction false} CaseOnly(s: string, pos: nat, level: nat, prevColon: bool, special: bool)
    requires pos <= |s|
    ensures CaseOnlyAt(s, pos, CaseFrom(s, pos, level, prevColon, special))
    decreases |s| - pos, 3
  {
    if special {
      CaseOnlySpecial(s, pos, level, prevColon);
    } else if pos < |s| {
      CaseOnlyNormal(s, pos, level, prevColon);
    }
  }

  lemma {:induction false} CaseOnlySpecial(s: string, pos: nat, level: nat, prevColon: bool)
    requires pos <= |s|
    ensures CaseOnlyAt(s, pos, CaseFrom(s, pos, level, prevColon, true))
    decreases |s| - pos, 2
  {
    if level == 0 || pos == |s| {
      SpecialEnd(s, pos, level, prevColon);
      if pos < |s| {
        CaseOnlyNormal(s, pos, level, false);
      }
    } else {
      var n := CsLength(s[pos..]);
      if n > 0 {
        CaseOnlyCs(s, pos, level, prevColon, pos + n);
      } else {
        var c := s[pos];
        var lv := if c == '{' then level + 1 else if c == '}' then level - 1 else level;
        CaseOnlyLetter(s, pos, level, prevColon, lv);
      }
    }
  }

  /** A control sequence in a special character changes only letter case, and so does the rest. */
  lemma {:induction false} CaseOnlyCs(s: string, pos: nat, level: nat, prevColon: bool, next: nat)
    requires pos < |s| && level > 0
    requires next == pos + CsLength(s[pos..]) && next > pos
    ensures CaseOnlyAt(s, pos, CaseFrom(s, pos, level, prevColon, true))
    decreases |s| - pos, 1
  {
    CsUnfold(s, pos, level, prevColon, next);
    CaseOnly(s, next, level, prevColon, true);
    CsThen(s, pos, next, CaseFrom(s, next, level, prevColon, true));
  }

  /** Any other character of a special character is lower-cased, and the rest changes only letter case. */
  lemma {:induction false} CaseOnlyLetter(s: string, pos: nat, level: nat, prevColon: bool, lv: nat)
    requires pos < |s| && level > 0 && CsLength(s[pos..]) == 0
    requires lv == if s[pos] == '{' then level + 1 else if s[pos] == '}' then level - 1 else level
    ensures CaseOnlyAt(s, pos, CaseFrom(s, pos, level, prevColon, true))
    decreases |s| - pos, 1
  {
    LetterUnfold(s, pos, level, prevColon, lv);
    CaseOnly(s, pos + 1, lv, prevColon, true);
    TextThen(s, pos, [LowerChar(s[pos])], CaseFrom(s, pos + 1, lv, prevColon, true));
  }

  lemma {:induction false} CaseOnlyNormal(s: string, pos: nat, level: nat, prevColon: bool)
    requires pos < |s|
    ensures CaseOnlyAt(s, pos, CaseFrom(s, pos, level, prevColon, false))
    decreases |s| - pos, 1
  {
    var keep := pos == 0 || (prevColon && s[pos - 1] in LineSpace);
    if level == 0 && StartsWith(s[pos..], "{\\") && !keep {
      SpecialStartUnfold(s, pos, prevColon);
      CaseOnly(s, pos + 1, 1, prevColon, true);
      OneThen(s, pos, s[pos], CaseFrom(s, pos + 1, 1, prevColon, true));
    } else {
      CaseOnlyChar(s, pos, level, prevColon);
    }
  }

  lemma {:induction false} CaseOnlyChar(s: string, pos: nat, level: nat, prevColon: bool)
    requires pos < |s|
    requires var keep := pos == 0 || (prevColon && s[pos - 1] in LineSpace);
      !(level == 0 && StartsWith(s[pos..], "{\\") && !keep)
    ensures CaseOnlyAt(s, pos, CaseFrom(s, pos, level, prevColon, false))
    decreases |s| - pos, 0
  {
    var keep := pos == 0 || (prevColon && s[pos - 1] in LineSpace);
    var c := s[pos];
    if !(c == '}' && level == 0) {
      var lv := if c == '{' then level + 1 else if c == '}' then level - 1 else level;
      var colon := if c == ':' then true else if c !in LineSpace then false else prevColon;
      CharUnfold(s, pos, level, prevColon, lv, colon);
      CaseOnly(s, pos + 1, lv, colon, false);
      OneThen(s, pos, if lv > 0 || keep then c else LowerChar(c), CaseFrom(s, pos + 1, lv, colon, false));
    }
  }

  /** A control sequence's text in front of a rest of the right case. */
  lemma {:induction false} CsThen(s: string, pos: nat, next: nat, rest: Result<string>)
    requires pos <= next <= |s| && CaseOnlyAt(s, next, rest)
    ensures CaseOnlyAt(s, pos, Prepend(CsText(s[pos..next]), rest))
  {
    var cs := s[pos..next];
    var text := CsText(cs);
    forall k | 0 <= k < |text| ensures SameLetter(s[pos + k], text[k]) {
      assert cs[k] == s[pos + k];
    }
    TextThen(s, pos, text, rest);
  }

  /** One character of the right case in front of a rest of the right case. */
  lemma {:induction false} OneThen(s: string, pos: nat, ch: char, rest: Result<string>)
    requires pos < |s| && SameLetter(s[pos], ch) && CaseOnlyAt(s, pos + 1, rest)
    ensures CaseOnlyAt(s, pos, Prepend([ch], rest))
  {
    TextThen(s, pos, [ch], rest);
  }

  /** Text of the right case in front of a rest of the right case. */
  lemma {:induction false} TextThen(s: string, pos: nat, t: string, rest: Result<string>)
    requires pos + |t| <= |s| && forall k :: 0 <= k < |t| ==> SameLetter(s[pos + k], t[k])
    requires CaseOnlyAt(s, pos + |t|, rest)
    ensures CaseOnlyAt(s, pos, Prepend(t, rest))
  {
    var r := Prepend(t, rest);
    if r.Ok? {
      forall k | 0 <= k < |r.value| ensures SameLetter(s[pos + k], r.value[k]) {
        if k >= |t| {
          assert r.value[k] == rest.value[k - |t|] && s[pos + k] == s[pos + |t| + (k - |t|)];
        }
      }
    }
  }

  /** The converted title has the input's length, changes only letter case, and keeps the first character. */
  lemma {:induction false} TitleCaseShape(s: string)
    ensures var r := CaseFrom(s, 0, 0, false, false);
      r.Ok? ==> |r.value| == |s| && (forall k :: 0 <= k < |s| ==> SameLetter(s[k], r.value[k])) && (s != [] ==> r.value[0] == s[0])
  {
    CaseOnly(s, 0, 0, false, false);
    if s != [] && CaseFrom(s, 0, 0, false, false).Ok? {
      var c := s[0];
      var lv := if c == '{' then 1 else 0;
      var colon := if c == ':' then true else if c !in LineSpace then false else false;
      assert CaseFrom(s, 0, 0, false, false) == Prepend([c], CaseFrom(s, 1, lv, colon, false));
    }
  }

  /** Characters the plain-text lemmas exclude: braces and the colon. */
  predicate PlainChar(c: char) {
    c != '{' && c != '}' && c != ':'
  }

  /** Only plain characters between `lo` and `hi`. */
  predicate PlainText(s: string, lo: nat, hi: nat) {
    lo <= hi <= |s| && forall k :: lo <= k < hi ==> PlainChar(s[k])
  }

  /** A stretch of plain text after the first character, outside braces and not after a colon, is lower-cased. */
  lemma {:induction false} PlainRun(s: string, pos: nat, end: nat)
    requires 1 <= pos && PlainText(s, pos, end)
    ensures CaseFrom(s, pos, 0, false, false) == Prepend(Lower(s[pos..end]), CaseFrom(s, end, 0, false, false))
    decreases end - pos
  {
    if pos == end {
      assert Lower(s[pos..end]) == "";
      PrependNothing(CaseFrom(s, end, 0, false, false));
    } else {
      var c := s[pos];
      assert !StartsWith(s[pos..], "{\\");
      assert CaseFrom(s, pos, 0, false, false) == Prepend([LowerChar(c)], CaseFrom(s, pos + 1, 0, false, false));
      PlainRun(s, pos + 1, end);
      PrependTwice([LowerChar(c)], Lower(s[pos + 1..end]), CaseFrom(s, end, 0, false, false));
      assert [LowerChar(c)] + Lower(s[pos + 1..end]) == Lower(s[pos..end]);
    }
  }

  /** A title of plain text keeps its first character and lower-cases the rest: "Deep Learning" gives "Deep learning". */
  lemma {:induction false} PlainTitle(s: string)
    requires s != [] && forall k :: 0 <= k < |s| ==> PlainChar(s[k])
    ensures CaseFrom(s, 0, 0, false, false) == Ok([s[0]] + Lower(s[1..]))
  {
    FirstStep(s);
    PlainTail(s, 1);
  }

  /** Plain text to the end of the string, after the first character and not after a colon, is lower-cased. */
  lemma {:induction false} PlainTail(s: string, pos: nat)
    requires 1 <= pos && PlainText(s, pos, |s|)
    ensures CaseFrom(s, pos, 0, false, false) == Ok(Lower(s[pos..]))
    decreases |s| - pos
  {
    if pos < |s| {
      var c := s[pos];
      assert !StartsWith(s[pos..], "{\\");
      assert CaseFrom(s, pos, 0, false, false) == Prepend([LowerChar(c)], CaseFrom(s, pos + 1, 0, false, false));
      PlainTail(s, pos + 1);
      assert [LowerChar(c)] + Lower(s[pos + 1..]) == Lower(s[pos..]);
    }
  }

  /** The first character, when plain, is emitted unchanged and leaves the scanner in its initial state. */
  lemma {:induction false} FirstStep(s: string)
    requires s != [] && PlainChar(s[0])
    ensures CaseFrom(s, 0, 0, false, false) == Prepend([s[0]], CaseFrom(s, 1, 0, false, false))
  {
  }

  /** After a colon and a space the next character keeps its case, and the state returns to plain text. */
  lemma {:induction false} ColonSpace(s: string, i: nat)
    requires 1 <= i && i + 2 < |s| && s[i] == ':' && s[i + 1] == ' '
    requires PlainChar(s[i + 2]) && s[i + 2] !in LineSpace
    ensures CaseFrom(s, i, 0, false, false) == Prepend([':', ' ', s[i + 2]], CaseFrom(s, i + 3, 0, false, false))
  {
    assert !StartsWith(s[i..], "{\\");
    assert !StartsWith(s[i + 1..], "{\\");
    assert CaseFrom(s, i, 0, false, false) == Prepend([':'], CaseFrom(s, i + 1, 0, true, false));
    assert CaseFrom(s, i + 1, 0, true, false) == Prepend([' '], CaseFrom(s, i + 2, 0, true, false));
    assert CaseFrom(s, i + 2, 0, true, false) == Prepend([s[i + 2]], CaseFrom(s, i + 3, 0, false, false));
    PrependTwice([' '], [s[i + 2]], CaseFrom(s, i + 3, 0, false, false));
    PrependTwice([':'], [' ', s[i + 2]], CaseFrom(s, i + 3, 0, false, false));
    assert [' '] + [s[i + 2]] == [' ', s[i + 2]] && [':'] + [' ', s[i + 2]] == [':', ' ', s[i + 2]];
  }

  /** A subtitle after `: ` starts with its own capital: "Parsing: A Survey" gives "Parsing: A survey". */
  lemma {:induction false} Subtitle(a: string, b: string)
    requires a != [] && b != [] && b[0] !in LineSpace
    requires forall k :: 0 <= k < |a| ==> PlainChar(a[k])
    requires forall k :: 0 <= k < |b| ==> PlainChar(b[k])
    ensures CaseFrom(a + ": " + b, 0, 0, false, false) == Ok([a[0]] + Lower(a[1..]) + ": " + [b[0]] + Lower(b[1..]))
  {
    var s := a + ": " + b;
    var n := |a|;
    SubtitleShape(a, b);
    var r1 := CaseFrom(s, 1, 0, false, false);
    var r2 := CaseFrom(s, n, 0, false, false);
    var r3 := CaseFrom(s, n + 3, 0, false, false);
    FirstStep(s);
    PlainRun(s, 1, n);
    ColonSpace(s, n);
    PlainTail(s, n + 3);
    var t2 := [':', ' ', b[0]] + Lower(b[1..]);
    assert r2 == Ok(t2);
    var t1 := Lower(a[1..]) + t2;
    assert r1 == Ok(t1);
    SubtitleText([a[0]], Lower(a[1..]), [b[0]], Lower(b[1..]));
  }

  lemma {:induction false} SubtitleText(p: string, q: string, u: string, v: string)
    requires |u| == 1
    ensures p + (q + ([':', ' ', u[0]] + v)) == p + q + ": " + u + v
  {
    assert [':', ' ', u[0]] == ": " + u;
  }

  /** The layout of `a + ": " + b` for plain `a` and `b`. */
  lemma {:induction false} SubtitleShape(a: string, b: string)
    requires a != [] && b != [] && b[0] !in LineSpace
    requires forall k :: 0 <= k < |a| ==> PlainChar(a[k])
    requires forall k :: 0 <= k < |b| ==> PlainChar(b[k])
    ensures var s := a + ": " + b; var n := |a|;
      n + 2 < |s| && s[0] == a[0] && s[n] == ':' && s[n + 1] == ' ' && s[n + 2] == b[0]
      && PlainChar(s[0]) && PlainChar(s[n + 2]) && s[n + 2] !in LineSpace
      && PlainText(s, 1, n) && PlainText(s, n + 3, |s|) && s[1..n] == a[1..] && s[n + 3..] == b[1..]
  {
    var s := a + ": " + b;
    var n := |a|;
    assert forall k :: 0 <= k < n ==> s[k] == a[k];
    assert forall k :: n + 2 <= k < |s| ==> s[k] == b[k - n - 2];
    assert s[..n] == a && s[n + 2..] == b;
  }

  /** Inside a brace group without nested braces every character is kept; the closing brace ends the group. */
  lemma {:induction false} GroupRest(s: string, pos: nat, close: nat, prevColon: bool)
    requires pos <= close < |s| && s[close] == '}'
    requires forall k :: pos <= k < close ==> s[k] != '{' && s[k] != '}'
    ensures CaseFrom(s, pos, 1, prevColon, false) == Prepend(s[pos..close + 1], CaseFrom(s, close + 1, 0, false, false))
    decreases close - pos
  {
    var c := s[pos];
    if pos == close {
      assert s[pos..close + 1] == [c];
      assert c !in LineSpace;
      assert CaseFrom(s, pos, 1, prevColon, false) == Prepend([c], CaseFrom(s, pos + 1, 0, false, false));
    } else {
      var colon := if c == ':' then true else if c !in LineSpace then false else prevColon;
      assert CaseFrom(s, pos, 1, prevColon, false) == Prepend([c], CaseFrom(s, pos + 1, 1, colon, false));
      GroupRest(s, pos + 1, close, colon);
      PrependTwice([c], s[pos + 1..close + 1], CaseFrom(s, close + 1, 0, false, false));
      assert [c] + s[pos + 1..close + 1] == s[pos..close + 1];
    }
  }

  /** A brace group that is not a special character keeps its case: `{NLP}` stays `{NLP}`. */
  lemma {:induction false} BracedKept(s: string, pos: nat, close: nat, prevColon: bool)
    requires pos < close < |s| && s[pos] == '{' && s[close] == '}'
    requires s[pos + 1] != '\\'
    requires forall k :: pos < k < close ==> s[k] != '{' && s[k] != '}'
    ensures CaseFrom(s, pos, 0, prevColon, false) == Prepend(s[pos..close + 1], CaseFrom(s, close + 1, 0, false, false))
  {
    assert !StartsWith(s[pos..], "{\\") by {
      assert s[pos..][1] == s[pos + 1];
    }
    assert CaseFrom(s, pos, 0, prevColon, false) == Prepend(['{'], CaseFrom(s, pos + 1, 1, false, false));
    GroupRest(s, pos + 1, close, false);
    PrependTwice(['{'], s[pos + 1..close + 1], CaseFrom(s, close + 1, 0, false, false));
    assert ['{'] + s[pos + 1..close + 1] == s[pos..close + 1];
  }

  /** A `}` with no `{` before it, outside braces, is an error. */
  lemma {:induction false} UnmatchedClose(s: string, pos: nat, prevColon: bool)
    requires pos <= |s| && (exists k :: pos <= k < |s| && s[k] == '}')
    requires forall k :: pos <= k < |s| ==> s[k] != '{'
    ensures CaseFrom(s, pos, 0, prevColon, false).Err?
    decreases |s| - pos
  {
    var c := s[pos];
    assert !StartsWith(s[pos..], "{\\");
    if c != '}' {
      var colon := if c == ':' then true else if c !in LineSpace then false else prevColon;
      var k :| pos <= k < |s| && s[k] == '}';
      assert k > pos;
      UnmatchedClose(s, pos + 1, colon);
    }
  }

  /** The number of `{` in `t` minus the number of `}`. */
  function BraceBalance(t: string): int {
    Count(t, '{') - Count(t, '}')
  }

  /** Reading `s[pos..]` from brace level `level`, some `}` would take the level below 0. */
  predicate Underflows(s: string, pos: nat, level: nat)
    requires pos <= |s|
    decreases |s| - pos
  {
    pos < |s| &&
    if s[pos] == '}' then level == 0 || Underflows(s, pos + 1, level - 1)
    else Underflows(s, pos + 1, if s[pos] == '{' then level + 1 else level)
  }

  /**
   * `title_case` raises exactly when some prefix of the title closes more braces than it
   * opens; every other title converts.
   */
  lemma {:induction false} TitleCaseFails(s: string)
    ensures CaseFrom(s, 0, 0, false, false).Err? <==> exists j :: 0 < j <= |s| && BraceBalance(s[..j]) < 0
  {
    ErrIffUnderflow(s, 0, 0, false, false);
    UnderflowIffBalance(s, 0, 0);
    forall j | 0 < j <= |s| ensures s[0..j] == s[..j] { }
  }

  /** The scanner fails exactly where the brace level would go below 0. */
  lemma {:induction false} ErrIffUnderflow(s: string, pos: nat, level: nat, prevColon: bool, special: bool)
    requires pos <= |s|
    ensures CaseFrom(s, pos, level, prevColon, special).Err? <==> Underflows(s, pos, level)
    decreases |s| - pos, 3
  {
    if special {
      ErrIffSpecial(s, pos, level, prevColon);
    } else if pos < |s| {
      ErrIffNormal(s, pos, level, prevColon);
    }
  }

  lemma {:induction false} ErrIffSpecial(s: string, pos: nat, level: nat, prevColon: bool)
    requires pos <= |s|
    ensures CaseFrom(s, pos, level, prevColon, true).Err? <==> Underflows(s, pos, level)
    decreases |s| - pos, 2
  {
    if level == 0 || pos == |s| {
      SpecialEnd(s, pos, level, prevColon);
      if pos < |s| {
        ErrIffNormal(s, pos, level, false);
      }
    } else {
      var n := CsLength(s[pos..]);
      if n > 0 {
        ErrIffCs(s, pos, level, prevColon, pos + n);
      } else {
        ErrIffLetter(s, pos, level, prevColon);
      }
    }
  }

  lemma {:induction false} ErrIffCs(s: string, pos: nat, level: nat, prevColon: bool, next: nat)
    requires pos < |s| && level > 0
    requires next == pos + CsLength(s[pos..]) && next > pos
    ensures CaseFrom(s, pos, level, prevColon, true).Err? <==> Underflows(s, pos, level)
    decreases |s| - pos, 1
  {
    ErrIffSpecial(s, next, level, prevColon);
    CsErrStep(s, pos, level, prevColon, next);
    CsLevelStep(s, pos, level, next);
  }

  /** A control sequence neither fails nor changes whether the rest fails. */
  lemma {:induction false} CsErrStep(s: string, pos: nat, level: nat, prevColon: bool, next: nat)
    requires pos < |s| && level > 0
    requires next == pos + CsLength(s[pos..]) && next > pos
    ensures CaseFrom(s, pos, level, prevColon, true).Err? == CaseFrom(s, next, level, prevColon, true).Err?
  {
    CsUnfold(s, pos, level, prevColon, next);
  }

  /** A control sequence leaves the brace level where it was. */
  lemma {:induction false} CsLevelStep(s: string, pos: nat, level: nat, next: nat)
    requires pos < |s|
    requires next == pos + CsLength(s[pos..]) && next > pos
    ensures Underflows(s, pos, level) == Underflows(s, next, level)
  {
    CsNoBrace(s, pos, next - pos);
    SkipBraceFree(s, pos, next - pos, level);
  }

  lemma {:induction false} ErrIffLetter(s: string, pos: nat, level: nat, prevColon: bool)
    requires pos < |s| && level > 0
    requires CsLength(s[pos..]) == 0
    ensures CaseFrom(s, pos, level, prevColon, true).Err? <==> Underflows(s, pos, level)
    decreases |s| - pos, 1
  {
    var c := s[pos];
    var lv := if c == '{' then level + 1 else if c == '}' then level - 1 else level;
    LetterUnfold(s, pos, level, prevColon, lv);
    ErrIffSpecial(s, pos + 1, lv, prevColon);
  }

  lemma {:induction false} ErrIffNormal(s: string, pos: nat, level: nat, prevColon: bool)
    requires pos < |s|
    ensures CaseFrom(s, pos, level, prevColon, false).Err? <==> Underflows(s, pos, level)
    decreases |s| - pos, 1
  {
    var keep := pos == 0 || (prevColon && s[pos - 1] in LineSpace);
    if level == 0 && StartsWith(s[pos..], "{\\") && !keep {
      assert s[pos] == '{' by { assert s[pos..][..2][0] == s[pos]; }
      assert CaseFrom(s, pos, level, prevColon, false) == Prepend([s[pos]], CaseFrom(s, pos + 1, 1, prevColon, true));
      ErrIffUnderflow(s, pos + 1, 1, prevColon, true);
    } else {
      ErrIffChar(s, pos, level, prevColon);
    }
  }

  lemma {:induction false} ErrIffChar(s: string, pos: nat, level: nat, prevColon: bool)
    requires pos < |s|
    requires var keep := pos == 0 || (prevColon && s[pos - 1] in LineSpace);
      !(level == 0 && StartsWith(s[pos..], "{\\") && !keep)
    ensures CaseFrom(s, pos, level, prevColon, false).Err? <==> Underflows(s, pos, level)
    decreases |s| - pos, 0
  {
    var c := s[pos];
    if !(c == '}' && level == 0) {
      var lv := if c == '{' then level + 1 else if c == '}' then level - 1 else level;
      var colon := if c == ':' then true else if c !in LineSpace then false else prevColon;
      ErrIffUnderflow(s, pos + 1, lv, colon, false);
    }
  }

  /** A control sequence holds no brace. */
  lemma {:induction false} CsNoBrace(s: string, pos: nat, n: nat)
    requires pos < |s| && n == CsLength(s[pos..]) && n > 0
    ensures forall k :: pos <= k < pos + n ==> s[k] != '{' && s[k] != '}'
  {
    forall k | pos <= k < pos + n ensures s[k] != '{' && s[k] != '}' {
      if k > pos {
        assert s[k] == s[pos..][1..][k - pos - 1];
      }
    }
  }

  /** Text without braces leaves the brace level where it was. */
  lemma {:induction false} SkipBraceFree(s: string, pos: nat, m: nat, level: nat)
    requires pos + m <= |s|
    requires forall k :: pos <= k < pos + m ==> s[k] != '{' && s[k] != '}'
    ensures Underflows(s, pos, level) == Underflows(s, pos + m, level)
    decreases m
  {
    if m > 0 {
      SkipBraceFree(s, pos + 1, m - 1, level);
    }
  }

  /** The level goes below 0 exactly when some prefix of the rest closes more braces than the level and it open. */
  lemma {:induction false} UnderflowIffBalance(s: string, pos: nat, level: nat)
    requires pos <= |s|
    ensures Underflows(s, pos, level) <==> exists j :: pos < j <= |s| && level + BraceBalance(s[pos..j]) < 0
  {
    if Underflows(s, pos, level) {
      var j := UnderflowPrefix(s, pos, level);
    }
    if exists j :: pos < j <= |s| && level + BraceBalance(s[pos..j]) < 0 {
      var j :| pos < j <= |s| && level + BraceBalance(s[pos..j]) < 0;
      PrefixUnderflows(s, pos, level, j);
    }
  }

  /** Where the level goes below 0, the prefix read so far closes too many braces. */
  lemma {:induction false} UnderflowPrefix(s: string, pos: nat, level: nat) returns (j: nat)
    requires pos <= |s| && Underflows(s, pos, level)
    ensures pos < j <= |s| && level + BraceBalance(s[pos..j]) < 0
    decreases |s| - pos
  {
    var c := s[pos];
    if c == '}' && level == 0 {
      j := pos + 1;
      BalanceStep(s, pos, j);
      assert s[pos + 1..j] == [] && BraceBalance([]) == 0;
    } else {
      var lv: nat := if c == '{' then level + 1 else if c == '}' then level - 1 else level;
      j := UnderflowPrefix(s, pos + 1, lv);
      BalanceStep(s, pos, j);
    }
  }

  /** A prefix that closes too many braces makes the level go below 0. */
  lemma {:induction false} PrefixUnderflows(s: string, pos: nat, level: nat, j: nat)
    requires pos < j <= |s| && level + BraceBalance(s[pos..j]) < 0
    ensures Underflows(s, pos, level)
    decreases |s| - pos
  {
    BalanceStep(s, pos, j);
    var c := s[pos];
    if !(c == '}' && level == 0) {
      var lv: nat := if c == '{' then level + 1 else if c == '}' then level - 1 else level;
      assert s[pos + 1..pos + 1] == [] && BraceBalance([]) == 0;
      assert pos + 1 < j;
      PrefixUnderflows(s, pos + 1, lv, j);
    }
  }

  /** The balance of a slice is its first character's part plus the balance of the rest. */
  lemma {:induction false} BalanceStep(s: string, pos: nat, j: nat)
    requires pos < j <= |s|
    ensures BraceBalance(s[pos..j]) == (if s[pos] == '{' then 1 else if s[pos] == '}' then -1 else 0) + BraceBalance(s[pos + 1..j])
  {
    assert s[pos..j][0] == s[pos] && s[pos..j][1..] == s[pos + 1..j];
  }

  /**
   * A special character `{\cs}` outside braces and not at a kept position: the control
   * sequence is lower-cased when BibTeX knows it, and the group is closed by its brace.
   */
  lemma {:induction false} SpecialGroup(s: string, pos: nat, n: nat, prevColon: bool)
    requires pos < |s| && s[pos] == '{' && !(pos == 0 || (prevColon && s[pos - 1] in LineSpace))
    requires n == CsLength(s[pos + 1..]) && n > 0 && pos + 1 + n < |s| && s[pos + 1 + n] == '}'
    ensures CaseFrom(s, pos, 0, prevColon, false) ==
      Prepend(['{'] + CsText(s[pos + 1..pos + 1 + n]) + ['}'], CaseFrom(s, pos + n + 2, 0, false, false))
  {
    var cs := CsText(s[pos + 1..pos + 1 + n]);
    var rest := CaseFrom(s, pos + n + 2, 0, false, false);
    assert StartsWith(s[pos..], "{\\") by {
      assert s[pos..][..2] == [s[pos], s[pos + 1]];
    }
    assert CaseFrom(s, pos, 0, prevColon, false) == Prepend(['{'], CaseFrom(s, pos + 1, 1, prevColon, true));
    assert CaseFrom(s, pos + 1, 1, prevColon, true) == Prepend(cs, CaseFrom(s, pos + 1 + n, 1, prevColon, true));
    assert CsLength(s[pos + 1 + n..]) == 0;
    assert CaseFrom(s, pos + 1 + n, 1, prevColon, true) == Prepend(['}'], CaseFrom(s, pos + n + 2, 0, prevColon, true));
    assert CaseFrom(s, pos + n + 2, 0, prevColon, true) == rest;
    PrependTwice(cs, ['}'], rest);
    PrependTwice(['{'], cs + ['}'], rest);
    assert ['{'] + (cs + ['}']) == ['{'] + cs + ['}'];
  }

  /** `\AE` is a control sequence BibTeX knows: it is lower-cased to `\ae`. */
  lemma {:induction false} KnownSequenceLowered()
    ensures CsText("\\AE") == "\\ae"
  {
    assert "\\AE" in ControlSeqs;
    assert Lower("\\AE") == "\\ae";
  }

  /** An unknown control sequence keeps its case. */
  lemma {:induction false} UnknownSequenceKept()
    ensures CsText("\\TeX") == "\\TeX"
  {
    assert "\\TeX" !in ControlSeqs;
  }
}
