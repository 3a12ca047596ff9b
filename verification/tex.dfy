/**
 * The TeX-to-Unicode converter of bibsearch/bibutils.py: a left-to-right scan that
 * replaces active characters and control sequences found in the table of simple
 * replacements, followed by the dash ligatures and the removal of braces.
 */
module TeX {
  import opened Wrappers
  import opened Strings

  const NoBreakSpace: char := '\U{00A0}'
  const EnDash: char := '\U{2013}'
  const EmDash: char := '\U{2014}'

  /** The characters the scanner treats as active (plain TeX's `~` and form feed, and the specials). */
  const Active: set<char> := {'~', '\U{c}', '$', '&', '#', '^', '_'}

  /** The white space that may follow a control sequence and is swallowed with it. */
  const TexSpace: set<char> := {' ', '\t', '\r', '\n'}

  /** The `_SIMPLE` table: active characters and control sequences with a fixed Unicode text. */
  const SimpleMacros: map<string, string> := map[
    "~" := [NoBreakSpace],
    "\\%" := "%", "\\&" := "&", "\\#" := "#", "\\$" := "$",
    "\\ss" := "\U{00DF}", "\\ae" := "\U{00E6}", "\\oe" := "\U{0153}", "\\o" := "\U{00F8}",
    "\\AE" := "\U{00C6}", "\\OE" := "\U{0152}", "\\O" := "\U{00D8}",
    "\\i" := "\U{0131}", "\\j" := "\U{0237}",
    "\\aa" := "\U{00E5}", "\\AA" := "\U{00C5}", "\\l" := "\U{0142}", "\\L" := "\U{0141}",
    "\\_" := "_", "\\dag" := "\U{2020}", "\\ddag" := "\U{2021}", "\\S" := "\U{00A7}", "\\P" := "\U{00B6}"
  ]

  /** `_expand`: the replacement of a known sequence, `None` for an unknown one. */
  function Expansion(cs: string): (r: Option<string>)
    ensures r.Some? <==> cs in SimpleMacros
    ensures r.Some? ==> r.value == SimpleMacros[cs]
  {
    if cs in SimpleMacros then Some(SimpleMacros[cs]) else None
  }

  /** Length of the leading run of ASCII letters. */
  function LetterRun(t: string): (n: nat)
    ensures n <= |t|
    ensures forall i :: 0 <= i < n ==> IsAsciiLetter(t[i])
    ensures n < |t| ==> !IsAsciiLetter(t[n])
    decreases |t|
  {
    if t != [] && IsAsciiLetter(t[0]) then 1 + LetterRun(t[1..]) else 0
  }

  /** A run of exactly `n` letters. */
  lemma {:induction false} LetterRunOf(t: string, n: nat)
    requires n <= |t| && (forall k :: 0 <= k < n ==> IsAsciiLetter(t[k])) && (n == |t| || !IsAsciiLetter(t[n]))
    ensures LetterRun(t) == n
    decreases n
  {
    if n > 0 {
      LetterRunOf(t[1..], n - 1);
    }
  }

  /** Length of the leading run of TeX white space. */
  function SpaceRun(t: string): (n: nat)
    ensures n <= |t|
    ensures forall i :: 0 <= i < n ==> t[i] in TexSpace
    ensures n < |t| ==> t[n] !in TexSpace
    decreases |t|
  {
    if t != [] && t[0] in TexSpace then 1 + SpaceRun(t[1..]) else 0
  }

  /**
   * The control-sequence pattern anchored at the start of `t`: the length of the whole
   * match and the sequence itself (without the white space swallowed after a letter
   * sequence or a control space).
   */
  function MatchHere(t: string): (m: Option<(nat, string)>)
    ensures m.Some? ==> 1 <= |m.value.1| <= m.value.0 <= |t| && m.value.1 == t[..|m.value.1|]
    ensures m.None? <==> t == [] || (t[0] !in Active && (t[0] != '\\' || |t| == 1))
  {
    if t == [] then None
    else if t[0] in Active then Some((1, [t[0]]))
    else if t[0] == '\\' && |t| >= 2 then
      if IsAsciiLetter(t[1]) then
        var k := 1 + LetterRun(t[1..]);
        Some((k + SpaceRun(t[k..]), t[..k]))
      else if t[1] in TexSpace then
        Some((2 + SpaceRun(t[2..]), t[..2]))
      else
        Some((2, t[..2]))
    else None
  }

  /** What a match becomes: its expansion when known, otherwise the matched text unchanged. */
  function Replacement(cs: string, whole: string): string {
    match Expansion(cs)
    case Some(v) => v
    case None => whole
  }

  /** The result of the macro-expansion scan over `t`. */
  function Expand(t: string): string
    decreases |t|
  {
    if t == [] then []
    else
      var m := MatchHere(t);
      if m.None? then [t[0]] + Expand(t[1..])
      else Replacement(m.value.1, t[..m.value.0]) + Expand(t[m.value.0..])
  }

  /** Where a match starts, the scan emits its replacement and continues after it. */
  lemma {:induction false} ExpandMatch(t: string)
    requires MatchHere(t).Some?
    ensures Expand(t) == Replacement(MatchHere(t).value.1, t[..MatchHere(t).value.0]) + Expand(t[MatchHere(t).value.0..])
  {
  }

  /** A match found by the scan: where it starts and stops, and the control sequence. */
  datatype Hit = Hit(start: nat, stop: nat, cs: string)

  /** `tex_cs_re.search(data, off)`: the leftmost match at or after `off`. */
  function Search(data: string, off: nat): (m: Option<Hit>)
    requires off <= |data|
    ensures m.Some? ==> off <= m.value.start < m.value.stop <= |data|
    ensures m.Some? ==> MatchHere(data[m.value.start..]) == Some((m.value.stop - m.value.start, m.value.cs))
    decreases |data| - off
  {
    if off == |data| then None
    else
      var here := MatchHere(data[off..]);
      if here.Some? then Some(Hit(off, off + here.value.0, here.value.1))
      else Search(data, off + 1)
  }

  /** The scan leaves the text before the leftmost match alone, and everything when nothing matches. */
  lemma {:induction false} SearchSkips(data: string, off: nat)
    requires off <= |data|
    ensures Search(data, off).None? ==> Expand(data[off..]) == data[off..]
    ensures Search(data, off).Some? ==>
      Expand(data[off..]) == data[off..Search(data, off).value.start] + Expand(data[Search(data, off).value.start..])
    decreases |data| - off
  {
    if off < |data| && MatchHere(data[off..]).None? {
      SearchSkips(data, off + 1);
      SkipOne(data, off);
      var m := Search(data, off);
      if m.Some? {
        CopiedBefore(data, off, m.value.start, Expand(data[m.value.start..]));
      } else {
        CopiedBefore(data, off, |data|, []);
        assert data[off..|data|] + [] == data[off..];
      }
    }
  }

  /** A copied character followed by the copied text up to `k` is the text from `off` to `k`. */
  lemma {:induction false} CopiedBefore(data: string, off: nat, k: nat, x: string)
    requires off < k <= |data|
    ensures [data[off]] + (data[off + 1..k] + x) == data[off..k] + x
  {
    ConsSlice(data, off, k);
    ConcatAssoc([data[off]], data[off + 1..k], x);
  }

  /** A character where no match starts is copied, and the search goes on after it. */
  lemma {:induction false} SkipOne(data: string, off: nat)
    requires off < |data| && MatchHere(data[off..]).None?
    ensures Expand(data[off..]) == [data[off]] + Expand(data[off + 1..])
    ensures Search(data, off) == Search(data, off + 1)
  {
    assert data[off..][1..] == data[off + 1..];
  }

  /** The scan of the suffix where the leftmost match starts: the replacement, then the scan after it. */
  lemma {:induction false} ExpandAtHit(data: string, off: nat)
    requires off <= |data| && Search(data, off).Some?
    ensures var h := Search(data, off).value;
      Expand(data[h.start..]) == Replacement(h.cs, data[h.start..h.stop]) + Expand(data[h.stop..])
  {
    var h := Search(data, off).value;
    var rest := data[h.start..];
    var n := h.stop - h.start;
    ExpandMatch(rest);
    assert rest[..n] == data[h.start..h.stop];
    assert rest[n..] == data[h.stop..];
  }

  /** Where the leftmost match starts, the scan output is the replacement followed by the scan of what follows. */
  lemma {:induction false} SearchStep(data: string, off: nat)
    requires off <= |data| && Search(data, off).Some?
    ensures var h := Search(data, off).value;
      Expand(data[off..]) == data[off..h.start] + Replacement(h.cs, data[h.start..h.stop]) + Expand(data[h.stop..])
  {
    var h := Search(data, off).value;
    SearchSkips(data, off);
    ExpandAtHit(data, off);
    ConcatAssoc(data[off..h.start], Replacement(h.cs, data[h.start..h.stop]), Expand(data[h.stop..]));
  }

  /** Moving the offset past an unchanged stretch regroups the output without changing it. */
  lemma {:induction false} KeepShift(data: string, off: nat, start: nat, stop: nat, e: string)
    requires off <= start <= stop <= |data|
    ensures data[..off] + (data[off..start] + data[start..stop] + e) == data[..stop] + e
  {
    assert data[..stop] == data[..off] + data[off..start] + data[start..stop];
  }

  /** Splicing a replacement in for a match regroups the output without changing it. */
  lemma {:induction false} SpliceShift(data: string, off: nat, start: nat, stop: nat, nval: string, e: string)
    requires off <= start <= stop <= |data|
    ensures var spliced := data[..start] + nval + data[stop..];
      start + |nval| <= |spliced| &&
      spliced[start + |nval|..] == data[stop..] &&
      spliced[..start + |nval|] + e == data[..off] + (data[off..start] + nval + e)
  {
    var spliced := data[..start] + nval + data[stop..];
    assert spliced[start + |nval|..] == data[stop..];
    assert spliced[..start + |nval|] == data[..off] + data[off..start] + nval;
  }

  /** `TeXProcessor.process`: the splice-and-continue loop over the data and the scan offset. */
  method ExpandMacros(s: string) returns (r: string)
    ensures r == Expand(s)
  {
    var data: string, off: nat := s, 0;
    assert data[..off] == [] && data[off..] == s;
    while Search(data, off).Some?
      invariant off <= |data|
      invariant data[..off] + Expand(data[off..]) == Expand(s)
      decreases |data| - off
    {
      data, off := ReplaceHit(data, off);
    }
    NoMoreHits(data, off);
    r := data;
  }

  /** When no match is left, the rest of the data is the scan's output. */
  lemma {:induction false} NoMoreHits(data: string, off: nat)
    requires off <= |data| && Search(data, off).None?
    ensures data[..off] + Expand(data[off..]) == data
  {
    SearchSkips(data, off);
    assert data[..off] + data[off..] == data;
  }

  /**
   * One round of the loop: a known sequence is spliced out for its expansion and the
   * scan resumes after the inserted text; an unknown one is stepped over.
   */
  method ReplaceHit(data: string, off: nat) returns (data': string, off': nat)
    requires off <= |data| && Search(data, off).Some?
    ensures off' <= |data'| && |data'| - off' < |data| - off
    ensures data'[..off'] + Expand(data'[off'..]) == data[..off] + Expand(data[off..])
  {
    var h := Search(data, off).value;
    var nval := Expansion(h.cs);
    SearchStep(data, off);
    if nval.None? {
      KeepShift(data, off, h.start, h.stop, Expand(data[h.stop..]));
      data', off' := data, h.stop;
    } else {
      SpliceShift(data, off, h.start, h.stop, nval.value, Expand(data[h.stop..]));
      data' := data[..h.start] + nval.value + data[h.stop..];
      off' := h.start + |nval.value|;
    }
  }

  /** The TeX ligatures: `---` to an em dash, then `--` to an en dash. */
  function Ligatures(s: string): (r: string)
    ensures |r| <= |s|
  {
    ReplaceNotLonger(s, "---", [EmDash]);
    ReplaceNotLonger(Replace(s, "---", [EmDash]), "--", [EnDash]);
    Replace(Replace(s, "---", [EmDash]), "--", [EnDash])
  }

  /** `TeXToUnicode.process`: macro expansion, then ligatures, then brace removal. */
  function TexToUnicode(s: string): (r: string)
    ensures forall i :: 0 <= i < |r| ==> r[i] != '{' && r[i] != '}'
  {
    Delete(Ligatures(Expand(s)), {'{', '}'})
  }

  /** The converter as the source runs it: the scan loop followed by the post-processing. */
  method Process(s: string) returns (r: string)
    ensures r == TexToUnicode(s)
    ensures forall i :: 0 <= i < |r| ==> r[i] != '{' && r[i] != '}'
  {
    var expanded := ExpandMacros(s);
    r := Delete(Ligatures(expanded), {'{', '}'});
  }

  /** After the en-dash step no two hyphens are adjacent. */
  lemma {:induction false} NoDoubleHyphen(s: string)
    ensures forall i :: 0 <= i < |Replace(s, "--", [EnDash])| - 1 ==>
      !(Replace(s, "--", [EnDash])[i] == '-' && Replace(s, "--", [EnDash])[i + 1] == '-')
    decreases |s|
  {
    var r := Replace(s, "--", [EnDash]);
    if |s| < 2 {
    } else if s[..2] == "--" {
      NoDoubleHyphen(s[2..]);
      assert r == [EnDash] + Replace(s[2..], "--", [EnDash]);
    } else {
      NoDoubleHyphen(s[1..]);
      var tail := Replace(s[1..], "--", [EnDash]);
      assert r == [s[0]] + tail;
      if s[0] == '-' && |tail| > 0 {
        assert s[1] != '-';
        FirstAfterReplace(s[1..]);
      }
    }
  }

  /** A string not starting with a hyphen keeps a non-hyphen first character through the en-dash step. */
  lemma {:induction false} FirstAfterReplace(s: string)
    requires s != [] && s[0] != '-'
    ensures Replace(s, "--", [EnDash]) != [] && Replace(s, "--", [EnDash])[0] == s[0]
  {
    if |s| >= 2 {
      assert s[..2] != "--";
    }
  }

  /** The ligature step leaves no `--` behind. */
  lemma {:induction false} LigaturesNoDoubleHyphen(s: string)
    ensures forall i :: 0 <= i < |Ligatures(s)| - 1 ==> !(Ligatures(s)[i] == '-' && Ligatures(s)[i + 1] == '-')
  {
    NoDoubleHyphen(Replace(s, "---", [EmDash]));
  }

  /** Text with no backslash and no active character passes the scan unchanged. */
  lemma {:induction false} ExpandPlain(t: string)
    requires forall i :: 0 <= i < |t| ==> t[i] != '\\' && t[i] !in Active
    ensures Expand(t) == t
    decreases |t|
  {
    if t != [] {
      ExpandPlain(t[1..]);
      assert [t[0]] + t[1..] == t;
    }
  }

  /** A letter alone passes the scan unchanged. */
  lemma {:induction false} ExpandLetter(c: char)
    requires IsAsciiLetter(c)
    ensures Expand([c]) == [c]
  {
    assert MatchHere([c]).None?;
    assert [c][1..] == [];
  }

  /** Braces inhibit ligatures: `-{}-` becomes two hyphens, not an en dash. */
  lemma {:induction false} BracesInhibitLigature()
    ensures TexToUnicode("-{}-") == "--"
  {
    ExpandPlain("-{}-");
    assert Replace("-{}-", "---", [EmDash]) == "-{}-";
    assert Replace("-{}-", "--", [EnDash]) == "-{}-";
  }

  /** Three hyphens become one em dash. */
  lemma {:induction false} TripleHyphen()
    ensures TexToUnicode("---") == [EmDash]
  {
    ExpandPlain("---");
    assert Replace("---", "---", [EmDash]) == [EmDash];
    assert Replace([EmDash], "--", [EnDash]) == [EmDash];
  }

  /**
   * A backslash, the letters up to `k` and one space, with no further white space: the
   * match is the whole stretch and the sequence is the backslash and the letters.
   */
  lemma {:induction false} LetterSequenceMatch(t: string, k: nat)
    requires 2 <= k < |t| && t[0] == '\\' && t[k] == ' ' && (k + 1 == |t| || t[k + 1] !in TexSpace)
    requires forall i :: 1 <= i < k ==> IsAsciiLetter(t[i])
    ensures MatchHere(t) == Some((k + 1, t[..k]))
  {
    LetterRunOf(t[1..], k - 1);
    var u := t[k..];
    assert u[0] == ' ' && u[1..] == t[k + 1..];
    assert SpaceRun(u[1..]) == 0;
    assert SpaceRun(u) == 1;
  }

  /** A known letter macro swallows the white space after it: `\ss x` becomes `ßx`. */
  lemma {:induction false} LetterMacroSwallowsSpace()
    ensures Expand("\\ss x") == "\U{00DF}x"
  {
    var t := "\\ss x";
    LetterSequenceMatch(t, 3);
    assert t[..3] == "\\ss" && t[..4] == "\\ss " && t[4..] == "x";
    ExpandMatch(t);
    ExpandLetter('x');
  }

  /** `\foo` is not in the table. */
  lemma {:induction false} FooUnknown()
    ensures Expansion("\\foo") == None
  {
  }

  /** An unknown control sequence is kept with the white space after it. */
  lemma {:induction false} UnknownMacroKept()
    ensures Expand("\\foo x") == "\\foo x"
  {
    var t := "\\foo x";
    LetterSequenceMatch(t, 4);
    assert t[..4] == "\\foo" && t[..5] == "\\foo " && t[5..] == "x";
    FooUnknown();
    ExpandMatch(t);
    ExpandLetter('x');
  }
}
