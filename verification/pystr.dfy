/**
 * The Python `str` built-ins the launcher relies on, written over `seq<char>`:
 * whitespace trimming, slicing with clamped bounds, searching, splitting on one
 * character or on whitespace runs, and the `int()` / `'%d'` conversions.
 */
module PyStr {
  import opened Wrappers

  /** `c.isspace()` for a Python `str` character. */
  predicate IsSpace(c: char) {
    || c == ' ' || ('\t' <= c <= '\r') || ('\U{1C}' <= c <= '\U{1F}')
    || c == '\U{85}' || c == '\U{A0}' || c == '\U{1680}' || ('\U{2000}' <= c <= '\U{200A}')
    || c == '\U{2028}' || c == '\U{2029}' || c == '\U{202F}' || c == '\U{205F}' || c == '\U{3000}'
  }

  /** The ASCII whitespace that `bytes.lstrip()` removes. */
  predicate IsAsciiSpace(c: char) {
    c == ' ' || ('\t' <= c <= '\r')
  }

  predicate AllSpace(s: string) {
    forall i :: 0 <= i < |s| ==> IsSpace(s[i])
  }

  /** Neither end of `s` is whitespace, i.e. `s.strip() == s`. */
  predicate NoOuterSpace(s: string) {
    s == [] || (!IsSpace(s[0]) && !IsSpace(s[|s| - 1]))
  }

  /** `s.lstrip()`: the longest suffix of `s` that does not start with whitespace. */
  function LStrip(s: string): (r: string)
    ensures |r| <= |s|
    ensures r == [] || !IsSpace(r[0])
  {
    if |s| > 0 && IsSpace(s[0]) then LStrip(s[1..]) else s
  }

  /** What `lstrip` removes is whitespace, and what it keeps is the rest of the text. */
  lemma {:induction false} LStripRemovesSpace(s: string)
    ensures var r := LStrip(s); r == s[|s| - |r|..] && AllSpace(s[..|s| - |r|])
    decreases |s|
  {
    if |s| > 0 && IsSpace(s[0]) {
      LStripRemovesSpace(s[1..]);
      var r := LStrip(s);
      assert s[1..][|s| - 1 - |r|..] == s[|s| - |r|..];
      forall i | 0 <= i < |s| - |r| ensures IsSpace(s[i]) {
        if i > 0 {
          assert s[i] == s[1..][..|s| - 1 - |r|][i - 1];
        }
      }
    }
  }

  /** `s.rstrip()`: the longest prefix of `s` that does not end with whitespace. */
  function RStrip(s: string): (r: string)
    ensures |r| <= |s|
    ensures r == [] || !IsSpace(r[|r| - 1])
  {
    if |s| > 0 && IsSpace(s[|s| - 1]) then RStrip(s[..|s| - 1]) else s
  }

  /** What `rstrip` removes is whitespace, and what it keeps is the start of the text. */
  lemma {:induction false} RStripRemovesSpace(s: string)
    ensures var r := RStrip(s); r == s[..|r|] && AllSpace(s[|r|..])
    decreases |s|
  {
    if |s| > 0 && IsSpace(s[|s| - 1]) {
      RStripRemovesSpace(s[..|s| - 1]);
      var r := RStrip(s);
      assert s[..|s| - 1][..|r|] == s[..|r|];
      forall i | |r| <= i < |s| ensures IsSpace(s[i]) {
        if i < |s| - 1 {
          assert s[i] == s[..|s| - 1][|r|..][i - |r|];
        }
      }
    }
  }

  /** `s.strip()`. */
  function Strip(s: string): (r: string)
    ensures |r| <= |s|
    ensures NoOuterSpace(r)
    ensures NoOuterSpace(s) ==> r == s
  {
    RStripRemovesSpace(LStrip(s));
    RStrip(LStrip(s))
  }

  /** `s` is `core` with nothing but whitespace added at its two ends. */
  ghost predicate Padded(s: string, core: string) {
    exists a, b :: AllSpace(a) && AllSpace(b) && s == a + core + b
  }

  /** What `strip` removes is whitespace at the two ends, and what it keeps is the middle. */
  lemma StripRemovesSpace(s: string)
    ensures Padded(s, Strip(s))
  {
    var t := LStrip(s);
    LStripRemovesSpace(s);
    RStripRemovesSpace(t);
    var a, u := s[..|s| - |t|], RStrip(t);
    var b := t[|u|..];
    assert s == a + t && t == u + b;
    assert s == a + u + b;
  }

  /** `b.lstrip()` on a line of bytes, over its decoded characters: leading ASCII whitespace removed. */
  function LStripAscii(s: string): (r: string)
    ensures |r| <= |s| && r == s[|s| - |r|..]
    ensures forall i :: 0 <= i < |s| - |r| ==> IsAsciiSpace(s[i])
    ensures r == [] || !IsAsciiSpace(r[0])
  {
    if |s| > 0 && IsAsciiSpace(s[0]) then LStripAscii(s[1..]) else s
  }

  lemma {:induction false} LStripAsciiPrefix(a: string, b: string)
    requires forall i :: 0 <= i < |a| ==> IsAsciiSpace(a[i])
    requires b == [] || !IsAsciiSpace(b[0])
    ensures LStripAscii(a + b) == b
    decreases |a|
  {
    if |a| > 0 {
      assert (a + b)[1..] == a[1..] + b;
      LStripAsciiPrefix(a[1..], b);
    } else {
      assert a + b == b;
    }
  }

  lemma {:induction false} LStripSpacePrefix(a: string, b: string)
    requires AllSpace(a)
    requires b == [] || !IsSpace(b[0])
    ensures LStrip(a + b) == b
    decreases |a|
  {
    if |a| > 0 {
      assert (a + b)[1..] == a[1..] + b;
      LStripSpacePrefix(a[1..], b);
    } else {
      assert a + b == b;
    }
  }

  lemma {:induction false} RStripSpaceSuffix(b: string, c: string)
    requires AllSpace(c)
    requires b == [] || !IsSpace(b[|b| - 1])
    ensures RStrip(b + c) == b
    decreases |c|
  {
    if |c| > 0 {
      assert (b + c)[..|b + c| - 1] == b + c[..|c| - 1];
      RStripSpaceSuffix(b, c[..|c| - 1]);
    } else {
      assert b + c == b;
    }
  }

  /** Stripping removes exactly the whitespace padding around a text with no outer whitespace. */
  lemma StripPadded(a: string, b: string, c: string)
    requires AllSpace(a) && AllSpace(c) && NoOuterSpace(b)
    ensures Strip(a + b + c) == b
  {
    if b == [] {
      assert a + b + c == a + c;
      LStripSpacePrefix(a + c, []);
      assert a + c + [] == a + c;
    } else {
      assert a + b + c == a + (b + c);
      LStripSpacePrefix(a, b + c);
      RStripSpaceSuffix(b, c);
    }
  }

  /** `s[:n]` for `n >= 0` (Python clamps the bound to the length). */
  function Take(s: string, n: nat): string {
    if n <= |s| then s[..n] else s
  }

  /** `s[n:]` for `n >= 0` (Python clamps the bound to the length). */
  function Drop(s: string, n: nat): string {
    if n <= |s| then s[n..] else []
  }

  /** `s[1:-1]`: the text strictly between the first and the last character. */
  function Interior(s: string): string {
    if |s| >= 2 then s[1..|s| - 1] else []
  }

  /** `s.startswith(p)`. */
  predicate StartsWith(s: string, p: string) {
    |p| <= |s| && s[..|p|] == p
  }

  /** `pat` occurs in `s` at index `i`. */
  predicate OccursAt(s: string, pat: string, i: nat) {
    i + |pat| <= |s| && s[i..i + |pat|] == pat
  }

  /** `needle in hay` for two strings. */
  predicate Contains(hay: string, needle: string) {
    exists i: nat | i <= |hay| :: OccursAt(hay, needle, i)
  }

  /** `s.find(pat)`: the first index where `pat` occurs, or -1. */
  function Find(s: string, pat: string): (r: int)
    ensures r == -1 || (0 <= r && OccursAt(s, pat, r))
    ensures r == -1 <==> !Contains(s, pat)
    ensures r >= 0 ==> forall i: nat :: i < r ==> !OccursAt(s, pat, i)
  {
    FindFrom(s, pat, 0)
  }

  function FindFrom(s: string, pat: string, from: nat): (r: int)
    requires forall i: nat :: i < from ==> !OccursAt(s, pat, i)
    ensures r == -1 || (from <= r && OccursAt(s, pat, r))
    ensures r == -1 ==> !Contains(s, pat)
    ensures r >= 0 ==> forall i: nat :: i < r ==> !OccursAt(s, pat, i)
    decreases |s| - from
  {
    if from + |pat| > |s| then -1
    else if s[from..from + |pat|] == pat then from
    else FindFrom(s, pat, from + 1)
  }

  /** The first index of `c` in `s`. */
  function IndexOf(s: string, c: char): (r: nat)
    requires c in s
    ensures r < |s| && s[r] == c && c !in s[..r]
  {
    if s[0] == c then 0 else 1 + IndexOf(s[1..], c)
  }

  /** The last index of `c` in `s`. */
  function LastIndexOf(s: string, c: char): (r: nat)
    requires c in s
    ensures r < |s| && s[r] == c && c !in s[r + 1..]
  {
    if s[|s| - 1] == c then |s| - 1 else LastIndexOf(s[..|s| - 1], c)
  }

  /** The first `c` is the one placed right after a `c`-free prefix. */
  lemma IndexOfAfter(a: string, c: char, rest: string)
    requires c !in a
    ensures IndexOf(a + [c] + rest, c) == |a|
  {
    var s := a + [c] + rest;
    assert s[..|a|] == a && s[|a|] == c;
  }

  /** The last `c` is the one placed right before a `c`-free suffix. */
  lemma LastIndexOfBefore(rest: string, c: char, tail: string)
    requires c !in tail
    ensures LastIndexOf(rest + [c] + tail, c) == |rest|
  {
    var s := rest + [c] + tail;
    assert s[|rest|] == c && s[|rest| + 1..] == tail;
  }

  /** `sep.join(parts)` for a one-character separator. */
  function Join(parts: seq<string>, sep: char): string
    decreases |parts|
  {
    if |parts| == 0 then []
    else if |parts| == 1 then parts[0]
    else parts[0] + [sep] + Join(parts[1..], sep)
  }

  /** `s.split(sep)` for a one-character separator: never empty, and joining the parts gives `s` back. */
  function Split(s: string, sep: char): (parts: seq<string>)
    ensures |parts| >= 1
    ensures forall k :: 0 <= k < |parts| ==> sep !in parts[k]
    ensures Join(parts, sep) == s
    decreases |s|
  {
    if sep in s then
      var i := IndexOf(s, sep);
      var rest := Split(s[i + 1..], sep);
      assert ([s[..i]] + rest)[1..] == rest;
      assert s == s[..i] + [sep] + s[i + 1..];
      [s[..i]] + rest
    else
      [s]
  }

  /** Splitting undoes joining when no part contains the separator. */
  lemma {:induction false} SplitJoin(parts: seq<string>, sep: char)
    requires |parts| >= 1
    requires forall k :: 0 <= k < |parts| ==> sep !in parts[k]
    ensures Split(Join(parts, sep), sep) == parts
    decreases |parts|
  {
    if |parts| > 1 {
      var s := Join(parts, sep);
      assert s == parts[0] + [sep] + Join(parts[1..], sep);
      assert sep in s by { assert s[|parts[0]|] == sep; }
      var i := IndexOf(s, sep);
      assert s[..|parts[0]|] == parts[0];
      assert i == |parts[0]|;
      assert s[..i] == parts[0];
      assert s[i + 1..] == Join(parts[1..], sep);
      SplitJoin(parts[1..], sep);
    }
  }

  /** A text splits into one part exactly when the separator does not occur in it. */
  lemma SplitSingle(s: string, sep: char)
    ensures |Split(s, sep)| == 1 <==> sep !in s
  {
    var parts := Split(s, sep);
    if |parts| > 1 {
      assert s == parts[0] + [sep] + Join(parts[1..], sep);
      assert s[|parts[0]|] == sep;
    }
  }

  /** `s` begins with `a`, `sep`, `b`, and then ends or has another `sep`. */
  predicate OpensWithFields(s: string, a: string, b: string, sep: char) {
    var n := |a| + 1 + |b|;
    && n <= |s| && s[..n] == a + [sep] + b
    && (n == |s| || s[n] == sep)
  }

  /** The joined text begins with the first part, followed by its end or the separator. */
  lemma JoinOpens(parts: seq<string>, sep: char)
    requires |parts| >= 1
    ensures var s := Join(parts, sep);
            && |parts[0]| <= |s| && s[..|parts[0]|] == parts[0]
            && (|parts| == 1 <==> |s| == |parts[0]|)
            && (|parts| > 1 ==> s[|parts[0]|] == sep)
  {
    if |parts| > 1 {
      assert Join(parts, sep) == parts[0] + [sep] + Join(parts[1..], sep);
    }
  }

  /** The first two parts of a split, with the separator between them, open the text. */
  lemma SplitFirstTwo(s: string, sep: char)
    requires |Split(s, sep)| >= 2
    ensures OpensWithFields(s, Split(s, sep)[0], Split(s, sep)[1], sep)
  {
    var p := Split(s, sep);
    var a, b, tail := p[0], p[1], Join(p[1..], sep);
    assert s == a + [sep] + tail;
    JoinOpens(p[1..], sep);
    assert tail[..|b|] == b;
    var n := |a| + 1 + |b|;
    assert s[..n] == a + [sep] + tail[..|b|];
    assert n < |s| ==> s[n] == tail[|b|];
  }

  /** The length of the leading run of non-whitespace characters of `t`. */
  function WordEnd(t: string): (k: nat)
    ensures k <= |t|
    ensures forall i :: 0 <= i < k ==> !IsSpace(t[i])
    ensures k < |t| ==> IsSpace(t[k])
  {
    if |t| == 0 || IsSpace(t[0]) then 0 else 1 + WordEnd(t[1..])
  }

  /** A non-empty run of non-whitespace characters. */
  predicate IsWord(w: string) {
    |w| > 0 && forall i :: 0 <= i < |w| ==> !IsSpace(w[i])
  }

  /** The leading word of a text that starts with a non-whitespace character, and what follows it. */
  function LeadingWord(t: string): (r: (string, string))
    requires t != [] && !IsSpace(t[0])
    ensures IsWord(r.0) && r.0 + r.1 == t
    ensures r.1 == [] || IsSpace(r.1[0])
  {
    var k := WordEnd(t);
    assert t[..k] + t[k..] == t;
    (t[..k], t[k..])
  }

  /** `s.split()`: the maximal runs of non-whitespace characters, in order. */
  function SplitWhitespace(s: string): (words: seq<string>)
    ensures forall k :: 0 <= k < |words| ==> IsWord(words[k])
    decreases |s|
  {
    var t := LStrip(s);
    if t == [] then []
    else
      var p := LeadingWord(t);
      assert |p.1| < |s| by { assert |p.0| + |p.1| == |t|; }
      [p.0] + SplitWhitespace(p.1)
  }

  /** The first whitespace-separated word of `w + rest` is `w` when `w` is a word and `rest` starts a new one. */
  lemma FirstWord(w: string, rest: string)
    requires IsWord(w)
    requires rest == [] || IsSpace(rest[0])
    ensures |SplitWhitespace(w + rest)| > 0 && SplitWhitespace(w + rest)[0] == w
  {
    var s := w + rest;
    assert LStrip(s) == s;
    assert WordEnd(s) == |w| by { WordEndPrefix(w, rest); }
    assert s[..|w|] == w;
  }

  lemma {:induction false} WordEndPrefix(w: string, rest: string)
    requires forall i :: 0 <= i < |w| ==> !IsSpace(w[i])
    requires rest == [] || IsSpace(rest[0])
    ensures WordEnd(w + rest) == |w|
    decreases |w|
  {
    if |w| > 0 {
      assert (w + rest)[1..] == w[1..] + rest;
      WordEndPrefix(w[1..], rest);
    } else {
      assert w + rest == rest;
    }
  }

  predicate IsDigit(c: char) {
    '0' <= c <= '9'
  }

  function DigitChar(d: nat): (c: char)
    requires d < 10
    ensures IsDigit(c)
  {
    ('0' as int + d) as char
  }

  /** The decimal value of the digits in `s`, skipping everything else (in a numeral, the `_` separators). */
  function DigitsValue(s: string): nat {
    if |s| == 0 then 0
    else if IsDigit(s[|s| - 1]) then 10 * DigitsValue(s[..|s| - 1]) + DigitValue(s[|s| - 1])
    else DigitsValue(s[..|s| - 1])
  }

  function DigitValue(c: char): (d: nat)
    requires IsDigit(c)
    ensures d < 10
  {
    c as int - '0' as int
  }

  /** A decimal literal body `int()` accepts: digits, with single `_` allowed only between digits. */
  predicate IsNumeral(s: string) {
    && |s| > 0
    && IsDigit(s[0])
    && IsDigit(s[|s| - 1])
    && (forall i :: 0 <= i < |s| ==> IsDigit(s[i]) || s[i] == '_')
    && (forall i, j :: 0 <= i < |s| && 0 <= j < |s| && j == i + 1 ==> s[i] != '_' || s[j] != '_')
  }

  /** `int(s)` for a `str` argument in base 10; `None` stands for the raised `ValueError`. */
  function ParseInt(s: string): Option<int> {
    var t := Strip(s);
    if |t| > 0 && (t[0] == '+' || t[0] == '-') then
      if IsNumeral(t[1..]) then
        Some(if t[0] == '-' then 0 - DigitsValue(t[1..]) else DigitsValue(t[1..]))
      else None
    else if IsNumeral(t) then Some(DigitsValue(t))
    else None
  }

  /** The shortest decimal text of `n`. */
  function NatToText(n: nat): (s: string)
    ensures |s| > 0 && forall i :: 0 <= i < |s| ==> IsDigit(s[i])
    ensures DigitsValue(s) == n
    decreases n
  {
    if n < 10 then [DigitChar(n)]
    else
      var s := NatToText(n / 10) + [DigitChar(n % 10)];
      assert s[..|s| - 1] == NatToText(n / 10);
      s
  }

  lemma DigitsAreNotSpace(d: string)
    requires forall i :: 0 <= i < |d| ==> IsDigit(d[i])
    ensures forall i :: 0 <= i < |d| ==> !IsSpace(d[i]) && d[i] != '.'
  {}

  /** A numeral reads back as its value. */
  lemma NumeralParses(d: string)
    requires IsNumeral(d)
    ensures ParseInt(d) == Some(DigitsValue(d) as int)
  {
    assert Strip(d) == d by {
      DigitsAreNotSpace([d[0]]);
      DigitsAreNotSpace([d[|d| - 1]]);
    }
    assert d[0] != '+' && d[0] != '-';
  }

  /** A text made of a minus sign and a numeral reads back as the negated value. */
  lemma MinusNumeralParses(m: string)
    requires |m| > 0 && m[0] == '-' && IsNumeral(m[1..])
    ensures ParseInt(m) == Some(0 - DigitsValue(m[1..]))
  {
    assert Strip(m) == m by {
      assert m[|m| - 1] == m[1..][|m| - 2];
    }
  }

  /** A numeral after a minus sign reads back as its negated value. */
  lemma NegatedNumeralParses(d: string)
    requires IsNumeral(d)
    ensures ParseInt("-" + d) == Some(0 - DigitsValue(d))
  {
    var m := "-" + d;
    assert m[1..] == d;
    MinusNumeralParses(m);
  }

  /** The digits of `|n|`, after a minus sign when `n` is negative. */
  function SignedText(n: int): string {
    if n < 0 then "-" + NatToText(0 - n) else NatToText(n)
  }

  lemma SignedTextParses(n: int)
    ensures ParseInt(SignedText(n)) == Some(n)
  {
    if n < 0 {
      NegatedNumeralParses(NatToText(0 - n));
    } else {
      NumeralParses(NatToText(n));
    }
  }

  lemma SignedTextIsToken(n: int)
    ensures |SignedText(n)| > 0
    ensures forall i :: 0 <= i < |SignedText(n)| ==> !IsSpace(SignedText(n)[i]) && SignedText(n)[i] != '.'
  {
    if n < 0 {
      var d := NatToText(0 - n);
      DigitsAreNotSpace(d);
      var s := "-" + d;
      assert forall i :: 1 <= i < |s| ==> s[i] == d[i - 1];
    } else {
      DigitsAreNotSpace(NatToText(n));
    }
  }

  /** `'%d' % n`: a non-empty text with no whitespace and no `.` in it. */
  function FormatInt(n: int): (s: string)
    ensures |s| > 0 && forall i :: 0 <= i < |s| ==> !IsSpace(s[i]) && s[i] != '.'
  {
    SignedTextIsToken(n);
    SignedText(n)
  }

  /** `int()` reads `'%d' % n` back as `n`. */
  lemma FormatIntParses(n: int)
    ensures ParseInt(FormatInt(n)) == Some(n)
  {
    SignedTextParses(n);
  }
}
