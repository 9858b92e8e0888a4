/**
 * Release versions as the launcher handles them: lists of integers read from a dotted
 * token with `int()`, written back with `'%d.%d.%d'`, compared with Python's list
 * ordering, and pulled out of the validator's `--help` text.
 */
module Versions {
  import opened Wrappers
  import opened PyStr

  /** `[int(p) for p in parts]`; `None` stands for the `ValueError` of the first bad part. */
  function ParseInts(parts: seq<string>): (r: Option<seq<int>>)
    ensures r.Some? <==> forall k :: 0 <= k < |parts| ==> ParseInt(parts[k]).Some?
    ensures r.Some? ==> |r.value| == |parts| && forall k :: 0 <= k < |parts| ==> r.value[k] == ParseInt(parts[k]).value
  {
    MapAll(parts, ParseInt)
  }

  /** A dotted token read as a version: split on `.` and convert every part. */
  function ParseVersion(token: string): Option<seq<int>> {
    ParseInts(Split(token, '.'))
  }

  /** The components of `v` each written with `'%d'`. */
  function Components(v: seq<int>): (r: seq<string>)
    ensures |r| == |v|
    ensures forall k :: 0 <= k < |v| ==> r[k] == FormatInt(v[k])
  {
    seq(|v|, k requires 0 <= k < |v| => FormatInt(v[k]))
  }

  /** The dotted text of a version: its components written with `'%d'` and joined on `.`. */
  function VersionText(v: seq<int>): string {
    Join(Components(v), '.')
  }

  /** A joined text of whitespace-free parts is a word when there is at least one non-empty part. */
  lemma {:induction false} JoinIsWord(parts: seq<string>, sep: char)
    requires |parts| > 0 && |parts[0]| > 0
    requires !IsSpace(sep)
    requires forall k :: 0 <= k < |parts| ==> forall i :: 0 <= i < |parts[k]| ==> !IsSpace(parts[k][i])
    ensures IsWord(Join(parts, sep))
    decreases |parts|
  {
    if |parts| > 1 {
      var tail := parts[1..];
      assert forall k :: 0 <= k < |tail| ==> tail[k] == parts[k + 1];
      if |tail[0]| > 0 {
        JoinIsWord(tail, sep);
      } else {
        JoinNoSpace(tail, sep);
      }
    }
  }

  lemma {:induction false} JoinNoSpace(parts: seq<string>, sep: char)
    requires |parts| > 0
    requires !IsSpace(sep)
    requires forall k :: 0 <= k < |parts| ==> forall i :: 0 <= i < |parts[k]| ==> !IsSpace(parts[k][i])
    ensures forall i :: 0 <= i < |Join(parts, sep)| ==> !IsSpace(Join(parts, sep)[i])
    decreases |parts|
  {
    if |parts| > 1 {
      var tail := parts[1..];
      assert forall k :: 0 <= k < |tail| ==> tail[k] == parts[k + 1];
      JoinNoSpace(tail, sep);
      var s := Join(parts, sep);
      assert s == parts[0] + [sep] + Join(tail, sep);
      assert forall i :: |parts[0]| < i < |s| ==> s[i] == Join(tail, sep)[i - |parts[0]| - 1];
    }
  }

  /** The dotted text of a non-empty version is a single whitespace-free word. */
  lemma VersionTextIsWord(v: seq<int>)
    requires |v| > 0
    ensures IsWord(VersionText(v))
  {
    JoinIsWord(Components(v), '.');
  }

  /** Reading the dotted text of a non-empty version gives the version back. */
  lemma VersionRoundTrip(v: seq<int>)
    requires |v| > 0
    ensures ParseVersion(VersionText(v)) == Some(v)
  {
    var parts := Components(v);
    SplitJoin(parts, '.');
    forall k | 0 <= k < |v| ensures ParseInt(parts[k]) == Some(v[k]) {
      FormatIntParses(v[k]);
    }
    var r := ParseInts(parts);
    assert r.Some?;
    assert r.value == v;
  }

  /** `'%d.%d.%d' % (v[0], v[1], v[2])`: `IndexError` for fewer than three components, extra ones ignored. */
  function TripleText(v: seq<int>): (r: Result<string, Exception>)
    ensures r.Failure? <==> |v| < 3
    ensures r.Failure? ==> r.error == IndexError
  {
    if |v| < 3 then Failure(IndexError) else Success(VersionText(v[..3]))
  }

  /** Reading the `'%d.%d.%d'` text back gives the first three components. */
  lemma TripleTextRoundTrip(v: seq<int>)
    requires |v| >= 3
    ensures ParseVersion(TripleText(v).value) == Some(v[..3])
  {
    VersionRoundTrip(v[..3]);
  }

  /** Three parts joined on a separator. */
  lemma JoinThree(x: string, y: string, z: string, sep: char)
    ensures Join([x, y, z], sep) == x + [sep] + y + [sep] + z
  {
    assert [x, y, z][1..] == [y, z];
    assert [y, z][1..] == [z];
    assert Join([y, z], sep) == y + [sep] + z;
  }

  /** The three components separated by dots. */
  lemma TripleTextLayout(a: int, b: int, c: int)
    ensures TripleText([a, b, c]) == Success(FormatInt(a) + "." + FormatInt(b) + "." + FormatInt(c))
  {
    assert [a, b, c][..3] == [a, b, c];
    TripleVersionText(a, b, c);
  }

  lemma TripleVersionText(a: int, b: int, c: int)
    ensures VersionText([a, b, c]) == FormatInt(a) + "." + FormatInt(b) + "." + FormatInt(c)
  {
    ThreeComponents(a, b, c);
    JoinThree(FormatInt(a), FormatInt(b), FormatInt(c), '.');
  }

  lemma ThreeComponents(a: int, b: int, c: int)
    ensures Components([a, b, c]) == [FormatInt(a), FormatInt(b), FormatInt(c)]
  {
  }

  /** Python's `<` on lists of integers: the first differing component decides, and a proper prefix is smaller. */
  predicate LexLess(a: seq<int>, b: seq<int>)
    decreases |a|
  {
    if |a| == 0 then |b| > 0
    else if |b| == 0 then false
    else if a[0] != b[0] then a[0] < b[0]
    else LexLess(a[1..], b[1..])
  }

  /** The same order stated directly: after a common prefix, either `a` ends first or it has the smaller component. */
  predicate LexLessAt(a: seq<int>, b: seq<int>, k: nat) {
    && k <= |a| && k <= |b| && a[..k] == b[..k]
    && ((k == |a| && k < |b|) || (k < |a| && k < |b| && a[k] < b[k]))
  }

  /** Lexicographic `<` holds exactly when some common prefix is followed by a smaller position. */
  lemma {:induction false} LexLessIff(a: seq<int>, b: seq<int>)
    ensures LexLess(a, b) <==> exists k: nat :: LexLessAt(a, b, k)
    decreases |a|
  {
    if |a| == 0 || |b| == 0 {
      if LexLess(a, b) {
        assert LexLessAt(a, b, 0);
      }
      if exists k: nat :: LexLessAt(a, b, k) {
        var k: nat :| LexLessAt(a, b, k);
        assert k == 0;
      }
    } else if a[0] != b[0] {
      if LexLess(a, b) {
        assert LexLessAt(a, b, 0);
      }
      if exists k: nat :: LexLessAt(a, b, k) {
        var k: nat :| LexLessAt(a, b, k);
      }
    } else {
      LexLessIff(a[1..], b[1..]);
      if LexLess(a, b) {
        var k: nat :| LexLessAt(a[1..], b[1..], k);
        assert a[..k + 1] == [a[0]] + a[1..][..k];
        assert b[..k + 1] == [b[0]] + b[1..][..k];
        assert LexLessAt(a, b, k + 1);
      }
      if exists k: nat :: LexLessAt(a, b, k) {
        var k: nat :| LexLessAt(a, b, k);
        assert k > 0;
        assert a[1..][..k - 1] == a[..k][1..];
        assert b[1..][..k - 1] == b[..k][1..];
        assert LexLessAt(a[1..], b[1..], k - 1);
      }
    }
  }

  /** Exactly one of `a < b`, `a == b`, `b < a` holds. */
  lemma {:induction false} LexTrichotomy(a: seq<int>, b: seq<int>)
    ensures LexLess(a, b) || a == b || LexLess(b, a)
    ensures !(LexLess(a, b) && LexLess(b, a))
    ensures !(LexLess(a, b) && a == b)
    decreases |a|
  {
    if |a| > 0 && |b| > 0 && a[0] == b[0] {
      LexTrichotomy(a[1..], b[1..]);
      if a[1..] == b[1..] {
        assert a == [a[0]] + a[1..] && b == [b[0]] + b[1..];
      }
    }
  }

  /** Lexicographic `<` is transitive. */
  lemma {:induction false} LexTransitive(a: seq<int>, b: seq<int>, c: seq<int>)
    requires LexLess(a, b) && LexLess(b, c)
    ensures LexLess(a, c)
    decreases |a|
  {
    if |a| > 0 && a[0] == b[0] && b[0] == c[0] {
      LexTransitive(a[1..], b[1..], c[1..]);
    }
  }

  /** What the update check printed, and the exception that ended it, if any. */
  datatype UpdateReport = UpdateReport(printed: seq<string>, raised: Option<Exception>)

  const NewerHint: string := "You can download it using '--download latest' command line option"
  const LatestNote: string := "Your version is the latest one"

  /**
   * The script's update check: print the local version, then announce a newer release when
   * the local version is smaller, or say it is the latest when they are equal. Printing the
   * local version needs three components; comparing with a missing latest version raises
   * `TypeError`; printing a newer version needs three of its components.
   */
  function UpdateCheck(current: seq<int>, latest: Option<seq<int>>): (r: UpdateReport)
    ensures r.raised == Some(IndexError) <==> |current| < 3 || (latest.Some? && LexLess(current, latest.value) && |latest.value| < 3)
    ensures r.raised == Some(TypeError) <==> |current| >= 3 && latest.None?
    ensures r.raised.None? || r.raised == Some(IndexError) || r.raised == Some(TypeError)
    ensures |current| >= 3 ==> |r.printed| > 0 && r.printed[0] == "Your version is: " + TripleText(current).value
  {
    if |current| < 3 then UpdateReport([], Some(IndexError))
    else
      var yours := ["Your version is: " + TripleText(current).value];
      if latest.None? then UpdateReport(yours, Some(TypeError))
      else
        var l := latest.value;
        if LexLess(current, l) then
          if |l| < 3 then UpdateReport(yours, Some(IndexError))
          else UpdateReport(yours + ["A new version is available: " + TripleText(l).value, NewerHint], None)
        else if current == l then UpdateReport(yours + [LatestNote], None)
        else UpdateReport(yours, None)
  }

  /** The first printed line is never the "latest" note: they differ at index 15. */
  lemma YoursIsNotLatest(x: string)
    ensures "Your version is: " + x != LatestNote
  {
    var yours := "Your version is: ";
    assert yours[15] == ':';
    assert (yours + x)[15] == ':';
    assert LatestNote[15] == ' ';
  }

  /** The download hint is not the "latest" note either. */
  lemma HintIsNotLatest()
    ensures NewerHint != LatestNote
  {
    assert |LatestNote| == 30;
    assert |NewerHint| > 30;
  }

  /**
   * When the check runs to completion, it announces a newer release exactly when the local
   * version is lexicographically smaller, says "latest" exactly when they are equal, and
   * otherwise prints only the local version.
   */
  lemma UpdateCheckVerdict(current: seq<int>, latest: seq<int>)
    requires UpdateCheck(current, Some(latest)).raised.None?
    ensures var p := UpdateCheck(current, Some(latest)).printed;
            && (|p| == 3 <==> LexLess(current, latest))
            && (|p| == 3 ==> p[1] == "A new version is available: " + TripleText(latest).value && p[2] == NewerHint)
            && (p[|p| - 1] == LatestNote <==> current == latest)
            && (|p| == 1 <==> LexLess(latest, current))
  {
    LexTrichotomy(current, latest);
    var p := UpdateCheck(current, Some(latest)).printed;
    var yours := "Your version is: " + TripleText(current).value;
    YoursIsNotLatest(TripleText(current).value);
    HintIsNotLatest();
    if LexLess(current, latest) {
      assert p == [yours, "A new version is available: " + TripleText(latest).value, NewerHint];
    } else if current == latest {
      assert p == [yours, LatestNote];
    } else {
      assert p == [yours];
    }
  }

  /** The marker that precedes the version number in the banner line of the help text. */
  const VersionMarker: string := "version: "

  /**
   * The version on the help text's banner line: the text after the first "version: " (from
   * index 8 when the marker is missing, since `find` gives -1), its first whitespace-separated
   * token, read as a version. An empty remainder raises `IndexError`; a non-numeric part
   * raises `ValueError`.
   */
  function VersionFromLine(line: string): (r: Result<seq<int>, Exception>)
    ensures r.Failure? ==> r.error == IndexError || r.error == ValueError
    ensures r.Failure? && r.error == IndexError <==> AllSpace(Drop(line, (Find(line, VersionMarker) + |VersionMarker|) as nat))
  {
    LeadingVersion(Drop(line, (Find(line, VersionMarker) + |VersionMarker|) as nat))
  }

  /**
   * `[int(p) for p in text.split()[0].split('.')]`: the first whitespace-separated token of
   * `text` read as a version. No token raises `IndexError`; a non-numeric part raises `ValueError`.
   */
  function LeadingVersion(text: string): (r: Result<seq<int>, Exception>)
    ensures r.Failure? ==> r.error == IndexError || r.error == ValueError
    ensures r.Failure? && r.error == IndexError <==> AllSpace(text)
    ensures r.Success? ==> |r.value| > 0
  {
    var words := SplitWhitespace(text);
    assert |words| == 0 <==> AllSpace(text) by {
      NoWordsIffSpace(text);
    }
    if |words| == 0 then Failure(IndexError)
    else
      match ParseVersion(words[0])
      case None => Failure(ValueError)
      case Some(v) => Success(v)
  }

  /** A text opening with the dotted text of `v`, then nothing or whitespace, reads as `v`. */
  lemma LeadingVersionOf(v: seq<int>, tail: string)
    requires |v| > 0
    requires tail == [] || IsSpace(tail[0])
    ensures LeadingVersion(VersionText(v) + tail) == Success(v)
  {
    VersionTextIsWord(v);
    FirstWord(VersionText(v), tail);
    VersionRoundTrip(v);
  }

  /** `s.split()` is empty exactly when `s` is all whitespace. */
  lemma NoWordsIffSpace(s: string)
    ensures |SplitWhitespace(s)| == 0 <==> AllSpace(s)
  {
    var t := LStrip(s);
    LStripRemovesSpace(s);
    if t == [] {
      assert s[..|s|] == s;
    } else {
      assert !IsSpace(s[|s| - |t|]);
    }
  }

  /**
   * `get_current_version` on the validator's `--help` text (both revisions): line 16 of the
   * text is the banner line, and a text with 16 lines or fewer raises `IndexError`.
   */
  function VersionFromHelp(help: string): (r: Result<seq<int>, Exception>)
    ensures r.Failure? ==> r.error == IndexError || r.error == ValueError
    ensures |Split(help, '\n')| <= 16 ==> r == Failure(IndexError)
  {
    var lines := Split(help, '\n');
    if |lines| <= 16 then Failure(IndexError) else VersionFromLine(lines[16])
  }

  /** The marker occurs at `|lead|` in `lead + marker + ...` and nowhere earlier, so `find` returns `|lead|`. */
  lemma FindMarker(line: string, lead: string, after: string)
    requires line == lead + VersionMarker + after
    requires forall i: nat :: i < |lead| ==> !OccursAt(line, VersionMarker, i)
    ensures Find(line, VersionMarker) == |lead|
    ensures Drop(line, |lead| + |VersionMarker|) == after
  {
    assert OccursAt(line, VersionMarker, |lead|) by {
      assert line[|lead|..|lead| + |VersionMarker|] == VersionMarker;
    }
    assert line[|lead| + |VersionMarker|..] == after;
  }

  /**
   * A banner line holding "version: " and then the dotted text of `v`, followed by nothing
   * or by whitespace, reads back as `v` when the marker does not occur earlier on the line.
   */
  lemma VersionFromLineRoundTrip(lead: string, v: seq<int>, tail: string)
    requires |v| > 0
    requires tail == [] || IsSpace(tail[0])
    requires forall i: nat :: i < |lead| ==> !OccursAt(lead + VersionMarker + VersionText(v) + tail, VersionMarker, i)
    ensures VersionFromLine(lead + VersionMarker + VersionText(v) + tail) == Success(v)
  {
    var text := VersionText(v);
    var line := lead + VersionMarker + text + tail;
    assert line == lead + VersionMarker + (text + tail);
    FindMarker(line, lead, text + tail);
    LeadingVersionOf(v, tail);
  }

  /** The help text's line 16 is the seventeenth of its newline-free lines. */
  lemma HelpLine(before: seq<string>, line: string, after: seq<string>)
    requires |before| == 16
    requires forall k :: 0 <= k < |before| ==> '\n' !in before[k]
    requires '\n' !in line
    requires forall k :: 0 <= k < |after| ==> '\n' !in after[k]
    ensures var lines := Split(Join(before + [line] + after, '\n'), '\n');
            |lines| > 16 && lines[16] == line
  {
    var lines := before + [line] + after;
    forall k | 0 <= k < |lines| ensures '\n' !in lines[k] {
      if k > 16 {
        assert lines[k] == after[k - 17];
      }
    }
    SplitJoin(lines, '\n');
  }

  /**
   * A help text whose line 16 carries "version: " followed by the dotted text of `v` and
   * then nothing or whitespace reads back as `v`, provided the marker does not occur
   * earlier on that line.
   */
  lemma VersionFromHelpRoundTrip(before: seq<string>, lead: string, v: seq<int>, tail: string, after: seq<string>)
    requires |before| == 16 && |v| > 0
    requires forall k :: 0 <= k < 16 ==> '\n' !in before[k]
    requires '\n' !in lead && '\n' !in tail && (tail == [] || IsSpace(tail[0]))
    requires forall k :: 0 <= k < |after| ==> '\n' !in after[k]
    requires forall i: nat :: i < |lead| ==> !OccursAt(lead + VersionMarker + VersionText(v) + tail, VersionMarker, i)
    ensures VersionFromHelp(Join(before + [lead + VersionMarker + VersionText(v) + tail] + after, '\n')) == Success(v)
  {
    var text := VersionText(v);
    VersionTextIsWord(v);
    assert '\n' !in text by {
      assert IsSpace('\n');
    }
    HelpLine(before, lead + VersionMarker + text + tail, after);
    VersionFromLineRoundTrip(lead, v, tail);
  }
}
