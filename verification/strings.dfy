/**
 * Text helpers with the semantics of the Python string methods the source relies on
 * (`lower`, `startswith`, `endswith`, `strip`, `split`, `replace`, `translate`, `join`,
 * `int` and `format` of integers). Character classes are ASCII and Latin-1.
 */
module Strings {
  import opened Wrappers

  /** The characters of ASCII and Latin-1 that `str.strip()` and `str.split()` treat as white space. */
  const Whitespace: set<char> := set c: char | '\t' <= c <= '\r' || '\U{1c}' <= c <= ' ' || c == '\U{85}' || c == '\U{a0}'

  /** The capitals `str.lower()` maps 32 code points down: ASCII and Latin-1 (`À`..`Þ` but `×`). */
  predicate IsUpper(c: char) {
    'A' <= c <= 'Z' || ('\U{00C0}' <= c <= '\U{00DE}' && c != '\U{00D7}')
  }

  function LowerChar(c: char): (r: char)
    ensures 'A' <= c <= 'Z' ==> 'a' <= r <= 'z' && r as int == c as int + 32
    ensures IsUpper(c) ==> r as int == c as int + 32 && !IsUpper(r)
    ensures !IsUpper(c) ==> r == c
  {
    if IsUpper(c) then (c as int + 32) as char else c
  }

  /** `str.lower()` on ASCII and Latin-1; other characters are kept. */
  function Lower(s: string): (r: string)
    ensures |r| == |s|
    ensures forall i :: 0 <= i < |s| ==> r[i] == LowerChar(s[i])
  {
    if s == [] then [] else [LowerChar(s[0])] + Lower(s[1..])
  }

  predicate IsAsciiLetter(c: char) {
    'a' <= c <= 'z' || 'A' <= c <= 'Z'
  }

  predicate IsDigit(c: char) {
    '0' <= c <= '9'
  }

  predicate AllDigits(s: string) {
    forall i :: 0 <= i < |s| ==> IsDigit(s[i])
  }

  predicate StartsWith(s: string, p: string) {
    |p| <= |s| && s[..|p|] == p
  }

  predicate EndsWith(s: string, p: string) {
    |p| <= |s| && s[|s| - |p|..] == p
  }

  /** `sep.join(parts)`. */
  function Join(sep: string, parts: seq<string>): string
    decreases |parts|
  {
    if |parts| == 0 then ""
    else if |parts| == 1 then parts[0]
    else parts[0] + sep + Join(sep, parts[1..])
  }

  /** `''.join(parts)`. */
  function Concat(parts: seq<string>): string
    decreases |parts|
  {
    if |parts| == 0 then "" else parts[0] + Concat(parts[1..])
  }

  /** Text emitted in front of the rest of a computation that may fail. */
  function Prepend(p: string, r: Result<string>): (q: Result<string>)
    ensures q.Ok? <==> r.Ok?
    ensures q.Ok? ==> q.value == p + r.value
  {
    match r
    case Ok(s) => Ok(p + s)
    case Err(e) => Err(e)
  }

  lemma {:induction false} ConcatAssoc(a: string, b: string, c: string)
    ensures a + (b + c) == a + b + c
  {
  }

  /** A non-empty slice is its first character followed by the rest. */
  lemma {:induction false} ConsSlice(s: string, i: nat, j: nat)
    requires i < j <= |s|
    ensures s[i..j] == [s[i]] + s[i + 1..j]
  {
  }

  /** Emitting nothing leaves the result as it is. */
  lemma {:induction false} PrependNothing(r: Result<string>)
    ensures Prepend("", r) == r
  {
    if r.Ok? {
      assert "" + r.value == r.value;
    }
  }

  /** Emitting `p` and then `q` is emitting `p + q`. */
  lemma {:induction false} PrependTwice(p: string, q: string, r: Result<string>)
    ensures Prepend(p, Prepend(q, r)) == Prepend(p + q, r)
  {
    if r.Ok? {
      assert p + (q + r.value) == (p + q) + r.value;
    }
  }

  /** Number of occurrences of `c` in `s`. */
  function Count(s: string, c: char): nat
    decreases |s|
  {
    if s == [] then 0 else (if s[0] == c then 1 else 0) + Count(s[1..], c)
  }

  lemma {:induction false} CountAppend(a: string, b: string, c: char)
    ensures Count(a + b, c) == Count(a, c) + Count(b, c)
    decreases |a|
  {
    if a != [] {
      assert (a + b)[0] == a[0];
      assert (a + b)[1..] == a[1..] + b;
      CountAppend(a[1..], b, c);
      assert Count(a + b, c) == (if a[0] == c then 1 else 0) + Count(a[1..] + b, c);
      assert Count(a, c) == (if a[0] == c then 1 else 0) + Count(a[1..], c);
    } else {
      assert a + b == b;
    }
  }

  /** `s.replace(pat, rep)`: non-overlapping occurrences, left to right. */
  function Replace(s: string, pat: string, rep: string): string
    requires |pat| > 0
    decreases |s|
  {
    if |s| < |pat| then s
    else if s[..|pat|] == pat then rep + Replace(s[|pat|..], pat, rep)
    else [s[0]] + Replace(s[1..], pat, rep)
  }

  /** Where the pattern does not start, the first character is copied. */
  lemma {:induction false} ReplaceNoMatchHere(s: string, pat: string, rep: string)
    requires |pat| > 0 && s != [] && (|s| >= |pat| ==> s[..|pat|] != pat)
    ensures Replace(s, pat, rep) == [s[0]] + Replace(s[1..], pat, rep)
  {
  }

  /** A string in which the first character of the pattern never occurs is left unchanged. */
  lemma {:induction false} ReplaceAbsent(s: string, pat: string, rep: string)
    requires |pat| > 0
    requires forall i :: 0 <= i < |s| ==> s[i] != pat[0]
    ensures Replace(s, pat, rep) == s
    decreases |s|
  {
    if |s| >= |pat| {
      assert s[..|pat|][0] == s[0] != pat[0];
      ReplaceAbsent(s[1..], pat, rep);
      assert [s[0]] + s[1..] == s;
    }
  }

  /** A pattern holding a character the string lacks never matches, so nothing is replaced. */
  lemma {:induction false} ReplaceMissingChar(s: string, pat: string, rep: string, c: char)
    requires |pat| > 0 && c in pat && c !in s
    ensures Replace(s, pat, rep) == s
    decreases |s|
  {
    if |s| >= |pat| {
      var k :| 0 <= k < |pat| && pat[k] == c;
      assert s[..|pat|][k] == s[k] != c;
      ReplaceMissingChar(s[1..], pat, rep, c);
      assert [s[0]] + s[1..] == s;
    }
  }

  /** `pat` occurs in `s` at index `i`. */
  predicate OccursAt(s: string, pat: string, i: nat) {
    i + |pat| <= |s| && s[i..i + |pat|] == pat
  }

  /** No occurrence can start inside a prefix that lacks the pattern's first character. */
  lemma {:induction false} ReplaceSkipPrefix(x: string, y: string, pat: string, rep: string)
    requires |pat| > 0 && pat[0] !in x
    ensures Replace(x + y, pat, rep) == x + Replace(y, pat, rep)
    decreases |x|
  {
    if x != [] {
      var s := x + y;
      assert s[0] == x[0] && s[1..] == x[1..] + y;
      if |s| >= |pat| {
        assert s[..|pat|][0] != pat[0];
      }
      ReplaceSkipPrefix(x[1..], y, pat, rep);
      assert [x[0]] + x[1..] == x;
    } else {
      assert x + y == y;
    }
  }

  /** An occurrence after a prefix that lacks the pattern's first character is the first one replaced. */
  lemma {:induction false} ReplaceLeading(x: string, pat: string, rest: string, rep: string)
    requires |pat| > 0 && pat[0] !in x
    ensures Replace(x + pat + rest, pat, rep) == x + rep + Replace(rest, pat, rep)
  {
    ReplaceSkipPrefix(x, pat + rest, pat, rep);
    assert (pat + rest)[..|pat|] == pat && (pat + rest)[|pat|..] == rest;
    assert x + pat + rest == x + (pat + rest);
  }

  /** A string in which the pattern occurs nowhere is left unchanged. */
  lemma {:induction false} ReplaceNoMatch(s: string, pat: string, rep: string)
    requires |pat| > 0
    requires forall i: nat :: i <= |s| ==> !OccursAt(s, pat, i)
    ensures Replace(s, pat, rep) == s
    decreases |s|
  {
    if |s| >= |pat| {
      assert !OccursAt(s, pat, 0);
      assert s[0..|pat|] == s[..|pat|];
      forall i: nat | i <= |s[1..]| ensures !OccursAt(s[1..], pat, i) {
        assert !OccursAt(s, pat, i + 1);
        if i + |pat| <= |s[1..]| {
          assert s[1..][i..i + |pat|] == s[i + 1..i + 1 + |pat|];
        }
      }
      ReplaceNoMatch(s[1..], pat, rep);
      assert [s[0]] + s[1..] == s;
    }
  }

  /** A replacement no longer than the pattern never lengthens the text. */
  lemma {:induction false} ReplaceNotLonger(s: string, pat: string, rep: string)
    requires |pat| > 0 && |rep| <= |pat|
    ensures |Replace(s, pat, rep)| <= |s|
    decreases |s|
  {
    if |s| >= |pat| {
      if s[..|pat|] == pat {
        ReplaceNotLonger(s[|pat|..], pat, rep);
      } else {
        ReplaceNotLonger(s[1..], pat, rep);
      }
    }
  }

  /** Replacing a pattern that occurs nowhere changes nothing. */
  lemma {:induction false} ReplaceWhenAbsent(s: string, pat: string, rep: string)
    requires |pat| > 0
    ensures (forall i: nat :: i <= |s| ==> !OccursAt(s, pat, i)) ==> Replace(s, pat, rep) == s
  {
    if forall i: nat :: i <= |s| ==> !OccursAt(s, pat, i) {
      ReplaceNoMatch(s, pat, rep);
    }
  }

  /** `s.translate(str.maketrans("", "", chars))`: every character of `chars` deleted. */
  function Delete(s: string, chars: set<char>): (r: string)
    ensures |r| <= |s|
    ensures forall i :: 0 <= i < |r| ==> r[i] !in chars && r[i] in s
    decreases |s|
  {
    if s == [] then [] else (if s[0] in chars then [] else [s[0]]) + Delete(s[1..], chars)
  }

  /** Deleting from a concatenation deletes from each part, keeping the order. */
  lemma {:induction false} DeleteConcat(a: string, b: string, chars: set<char>)
    ensures Delete(a + b, chars) == Delete(a, chars) + Delete(b, chars)
    decreases |a|
  {
    if a == [] {
      assert a + b == b;
    } else {
      assert (a + b)[0] == a[0] && (a + b)[1..] == a[1..] + b;
      DeleteConcat(a[1..], b, chars);
    }
  }

  /** A single character is kept exactly when it is not to be deleted. */
  lemma {:induction false} DeleteOne(c: char, chars: set<char>)
    ensures Delete([c], chars) == if c in chars then [] else [c]
  {
    assert [c][1..] == [];
  }

  /** Every character not to be deleted keeps its number of occurrences. */
  lemma {:induction false} DeleteKeeps(s: string, chars: set<char>)
    ensures forall c :: c !in chars ==> multiset(Delete(s, chars))[c] == multiset(s)[c]
    decreases |s|
  {
    if s != [] {
      DeleteKeeps(s[1..], chars);
      assert s == [s[0]] + s[1..];
      assert multiset(s) == multiset([s[0]]) + multiset(s[1..]);
    }
  }

  /** `s.translate(str.maketrans(from, to))` for a single character. */
  function Translate(s: string, from: char, to: char): (r: string)
    ensures |r| == |s|
    ensures forall i :: 0 <= i < |s| ==> r[i] == if s[i] == from then to else s[i]
  {
    seq(|s|, i requires 0 <= i < |s| => if s[i] == from then to else s[i])
  }

  /** `s.lstrip(chars)`. */
  function LStrip(s: string, chars: set<char>): (r: string)
    ensures |r| <= |s| && r == s[|s| - |r|..]
    ensures r != [] ==> r[0] !in chars
    decreases |s|
  {
    if s != [] && s[0] in chars then LStrip(s[1..], chars) else s
  }

  /** `lstrip` removes only characters of `chars`. */
  lemma {:induction false} LStripRemovesOnly(s: string, chars: set<char>)
    ensures forall i :: 0 <= i < |s| - |LStrip(s, chars)| ==> s[i] in chars
    decreases |s|
  {
    if s != [] && s[0] in chars {
      LStripRemovesOnly(s[1..], chars);
      assert forall i :: 1 <= i < |s| ==> s[i] == s[1..][i - 1];
    }
  }

  /** `s.rstrip(chars)`. */
  function RStrip(s: string, chars: set<char>): (r: string)
    ensures |r| <= |s| && r == s[..|r|]
    ensures r != [] ==> r[|r| - 1] !in chars
    decreases |s|
  {
    if s != [] && s[|s| - 1] in chars then RStrip(s[..|s| - 1], chars) else s
  }

  /** `rstrip` removes only characters of `chars`. */
  lemma {:induction false} RStripRemovesOnly(s: string, chars: set<char>)
    ensures forall i :: |RStrip(s, chars)| <= i < |s| ==> s[i] in chars
    decreases |s|
  {
    if s != [] && s[|s| - 1] in chars {
      RStripRemovesOnly(s[..|s| - 1], chars);
      assert forall i :: 0 <= i < |s| - 1 ==> s[i] == s[..|s| - 1][i];
    }
  }

  /** A string whose ends are not among the stripped characters is left as it is. */
  lemma {:induction false} Unstripped(s: string, chars: set<char>)
    requires s != [] && s[0] !in chars && s[|s| - 1] !in chars
    ensures LStrip(s, chars) == s && RStrip(s, chars) == s
  {
  }

  /** Stripping a string that starts with a non-space keeps its first character. */
  lemma {:induction false} StripKeepsFirst(t: string)
    requires t != [] && t[0] !in Whitespace && Strip(t) != []
    ensures Strip(t)[0] == t[0]
  {
    assert LStrip(t, Whitespace) == t;
    assert Strip(t) == t[..|Strip(t)|];
  }

  /** `s.strip()`. */
  function Strip(s: string): string {
    RStrip(LStrip(s, Whitespace), Whitespace)
  }

  /** The first index of `c` in `s`. */
  function IndexOf(s: string, c: char): (r: Option<nat>)
    ensures r.Some? ==> r.value < |s| && s[r.value] == c && forall j :: 0 <= j < r.value ==> s[j] != c
    ensures r.None? ==> forall j :: 0 <= j < |s| ==> s[j] != c
    decreases |s|
  {
    if s == [] then None
    else if s[0] == c then Some(0)
    else match IndexOf(s[1..], c)
      case None => None
      case Some(k) => Some(k + 1)
  }

  /** `s.split(c, 1)` when it yields two parts; `None` when `c` does not occur. */
  function SplitOnce(s: string, c: char): (r: Option<(string, string)>)
    ensures r.None? <==> c !in s
    ensures r.Some? ==> s == r.value.0 + [c] + r.value.1 && c !in r.value.0
  {
    match IndexOf(s, c)
    case None => None
    case Some(i) =>
      assert s == s[..i] + [c] + s[i + 1..];
      Some((s[..i], s[i + 1..]))
  }

  /** A string that starts with a separator-free prefix followed by the separator splits there. */
  lemma {:induction false} SplitOncePrefix(p: string, c: char, rest: string)
    requires c !in p
    ensures SplitOnce(p + [c] + rest, c) == Some((p, rest))
  {
    var s := p + [c] + rest;
    assert forall k :: 0 <= k < |p| ==> s[k] == p[k];
    assert s[|p|] == c;
    assert s[..|p|] == p && s[|p| + 1..] == rest;
  }

  /** `s.split(c)`. */
  function Split(s: string, c: char): (r: seq<string>)
    ensures |r| >= 1
    decreases |s|
  {
    match IndexOf(s, c)
    case None => [s]
    case Some(i) => [s[..i]] + Split(s[i + 1..], c)
  }

  /** The first separator at `k` closes the first part. */
  lemma {:induction false} SplitAtIndex(s: string, c: char, k: nat)
    requires IndexOf(s, c) == Some(k)
    ensures Split(s, c) == [s[..k]] + Split(s[k + 1..], c)
  {
  }

  /** A string without the separator is its own only part. */
  lemma {:induction false} SplitAbsent(s: string, c: char)
    requires c !in s
    ensures Split(s, c) == [s]
  {
  }

  /** A separator-free prefix followed by the separator is the first part. */
  lemma {:induction false} SplitAtFirst(p: string, c: char, rest: string)
    requires c !in p
    ensures Split(p + [c] + rest, c) == [p] + Split(rest, c)
  {
    var s := p + [c] + rest;
    assert forall k :: 0 <= k < |p| ==> s[k] == p[k];
    assert s[|p|] == c;
    assert s[..|p|] == p && s[|p| + 1..] == rest;
  }

  /** Length of the leading run of non-white-space characters. */
  function WordLength(t: string): (n: nat)
    ensures n <= |t|
    ensures t != [] && t[0] !in Whitespace ==> n >= 1
    decreases |t|
  {
    if t == [] || t[0] in Whitespace then 0 else 1 + WordLength(t[1..])
  }

  /** `s.split()`: the maximal runs of non-white-space characters, in order. */
  function Words(s: string): seq<string>
    decreases |s|
  {
    var t := LStrip(s, Whitespace);
    if t == [] then [] else
      var n := WordLength(t);
      [t[..n]] + Words(t[n..])
  }

  function DigitChar(d: nat): (c: char)
    requires d < 10
    ensures IsDigit(c) && c as int - '0' as int == d
  {
    ('0' as int + d) as char
  }

  /** `str(n)` for a natural number. */
  function NatToString(n: nat): (r: string)
    ensures |r| >= 1 && AllDigits(r)
    decreases n
  {
    if n < 10 then [DigitChar(n)] else NatToString(n / 10) + [DigitChar(n % 10)]
  }

  /** `str(n)` for an integer. */
  function IntToString(n: int): string {
    if n < 0 then "-" + NatToString(-n) else NatToString(n)
  }

  /** The value of a string of decimal digits. */
  function DigitsValue(s: string): nat
    requires AllDigits(s)
    decreases |s|
  {
    if s == [] then 0 else DigitsValue(s[..|s| - 1]) * 10 + (s[|s| - 1] as int - '0' as int)
  }

  /** `int(s)` for base-10 text: optional surrounding white space, an optional sign, then digits. */
  function ParseInt(s: string): (r: Option<int>)
    ensures r.Some? ==> Strip(s) != []
  {
    ParseSigned(Strip(s))
  }

  /** An optional sign followed by at least one digit. */
  function ParseSigned(t: string): Option<int> {
    if t != [] && (t[0] == '-' || t[0] == '+') then
      match ParseDigits(t[1..])
      case None => None
      case Some(v) => Some(if t[0] == '-' then -(v as int) else v)
    else ParseDigits(t)
  }

  /** At least one digit and nothing else. */
  function ParseDigits(d: string): (r: Option<nat>)
    ensures r.Some? <==> d != [] && AllDigits(d)
  {
    if d != [] && AllDigits(d) then Some(DigitsValue(d)) else None
  }

  lemma {:induction false} DigitsValueOfNat(n: nat)
    ensures DigitsValue(NatToString(n)) == n
    decreases n
  {
    if n >= 10 {
      var s := NatToString(n);
      assert s[..|s| - 1] == NatToString(n / 10);
      DigitsValueOfNat(n / 10);
    }
  }

  lemma {:induction false} StripDigits(s: string)
    requires s != [] && s[0] !in Whitespace && s[|s| - 1] !in Whitespace
    ensures Strip(s) == s
  {
    assert LStrip(s, Whitespace) == s;
  }

  /** Printing an integer and reading it back with `int` gives the integer again. */
  lemma {:induction false} ParseIntRoundTrip(n: int)
    ensures ParseInt(IntToString(n)) == Some(n)
  {
    IntToStringStripped(n);
    SignedRoundTrip(n);
  }

  /** `str(n)` has no white space around it. */
  lemma {:induction false} IntToStringStripped(n: int)
    ensures Strip(IntToString(n)) == IntToString(n)
  {
    var s := IntToString(n);
    var d := NatToString(if n < 0 then -n else n);
    assert s[|s| - 1] == d[|d| - 1] && IsDigit(d[|d| - 1]);
    assert s[0] == '-' || s[0] == d[0];
    StripDigits(s);
  }

  /** The sign and digits of `str(n)` read back as `n`. */
  lemma {:induction false} SignedRoundTrip(n: int)
    ensures ParseSigned(IntToString(n)) == Some(n)
  {
    if n < 0 {
      NegativeDigits(-n);
    } else {
      UnsignedDigits(n);
    }
  }

  lemma {:induction false} NaturalRoundTrip(n: nat)
    ensures ParseInt(NatToString(n)) == Some(n)
  {
    var s := NatToString(n);
    assert IsDigit(s[0]) && IsDigit(s[|s| - 1]);
    StripDigits(s);
    UnsignedDigits(n);
  }

  lemma {:induction false} UnsignedDigits(n: nat)
    ensures ParseSigned(NatToString(n)) == Some(n)
  {
    var s := NatToString(n);
    assert IsDigit(s[0]);
    DigitsValueOfNat(n);
  }

  lemma {:induction false} NegativeDigits(m: nat)
    ensures ParseSigned("-" + NatToString(m)) == Some(-(m as int))
  {
    var d := NatToString(m);
    assert ("-" + d)[1..] == d;
    DigitsValueOfNat(m);
  }

  /** Left-pads `s` with zeros to `width` characters. */
  function ZeroPad(s: string, width: nat): (r: string)
    ensures |r| == if |s| >= width then |s| else width
    ensures AllDigits(s) ==> AllDigits(r)
    decreases width - |s|
  {
    if |s| >= width then s else ZeroPad("0" + s, width)
  }

  /** `format(n, '0<width>d')`: the sign first, then the digits zero-padded to fill `width`. */
  function PadInt(n: int, width: nat): string {
    if n < 0 then "-" + ZeroPad(NatToString(-n), if width > 0 then width - 1 else 0)
    else ZeroPad(NatToString(n), width)
  }

  lemma {:induction false} ZeroPadValue(s: string, width: nat)
    requires AllDigits(s)
    ensures DigitsValue(ZeroPad(s, width)) == DigitsValue(s)
    decreases width - |s|
  {
    if |s| < width {
      LeadingZero(s);
      ZeroPadValue("0" + s, width);
    }
  }

  lemma {:induction false} LeadingZero(s: string)
    requires AllDigits(s)
    ensures AllDigits("0" + s) && DigitsValue("0" + s) == DigitsValue(s)
    decreases |s|
  {
    if s != [] {
      var t := "0" + s;
      assert t[..|t| - 1] == "0" + s[..|s| - 1];
      LeadingZero(s[..|s| - 1]);
    }
  }

  /** A number below 100 zero-padded to width two is exactly two digits with that value. */
  lemma {:induction false} TwoDigits(n: nat)
    requires n < 100
    ensures |PadInt(n, 2)| == 2 && AllDigits(PadInt(n, 2)) && DigitsValue(PadInt(n, 2)) == n
  {
    DigitsValueOfNat(n);
    ZeroPadValue(NatToString(n), 2);
    assert n >= 10 ==> NatToString(n) == NatToString(n / 10) + [DigitChar(n % 10)];
  }
}
