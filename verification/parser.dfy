/**
 * The diagnostic-line parser (`RiseClipseParser`). A line is cut up by deleting two
 * regular-expression spans and slicing what is left at fixed positions:
 *  - the locator `\((\w|\W)*\)`, which reaches from the first `(` to the last `)`;
 *    its interior split on `:` gives the file name (part 0) and the line (part 1);
 *  - the category `\[(\w|\W)*\]` in the remaining text, from the first `[` to the last `]`;
 *  - the severity is the first 8 characters of what is left, trimmed, and the data is
 *    everything from index 9 on, trimmed.
 */
module Parser {
  import opened Wrappers
  import opened PyStr

  /**
   * One parsed line. The Python record is a dict with the keys message, category, line,
   * data, filename and severity, inserted in that order; `message` is the line verbatim.
   */
  datatype Message = Message(
    message: string,
    category: string,
    line: string,
    data: string,
    filename: string,
    severity: string)

  /** Why `parse_message` raises instead of returning a record. */
  datatype ParseError =
    | MissingLocator    // no `(` before a `)`: the search gives None and `None[0]` raises TypeError
    | MissingLineField  // no `:` in the locator: `split(":")[1]` raises IndexError
    | MissingCategory   // no `[` before a `]` once the locator is gone: TypeError

  /** Some `open` character comes before some `close` character in `s`. */
  predicate HasPair(s: string, open: char, close: char) {
    exists i, j :: 0 <= i < j < |s| && s[i] == open && s[j] == close
  }

  /**
   * `[i, j]` is the leftmost-longest match of `\<open>(\w|\W)*\<close>`: it starts at the
   * first `open` of `s` and ends at the last `close`, which comes after it.
   */
  predicate GreedySpan(s: string, open: char, close: char, i: nat, j: nat) {
    i < j < |s| && s[i] == open && s[j] == close && open !in s[..i] && close !in s[j + 1..]
  }

  /** `re.search` for the bracketed span: the indices of its delimiters, if there is a match. */
  function SearchSpan(s: string, open: char, close: char): (r: Option<(nat, nat)>)
    ensures r.Some? ==> GreedySpan(s, open, close, r.value.0, r.value.1)
    ensures r.None? <==> !HasPair(s, open, close)
  {
    if open in s && close in s && IndexOf(s, open) < LastIndexOf(s, close) then
      Some((IndexOf(s, open), LastIndexOf(s, close)))
    else
      None
  }

  /**
   * `re.sub(<span pattern>, '', s)`: deletes every non-overlapping match, left to right.
   * Because the first match already ends at the last `close`, exactly one span goes.
   */
  function RemoveSpans(s: string, open: char, close: char): (r: string)
    decreases |s|
  {
    match SearchSpan(s, open, close)
    case None => s
    case Some((i, j)) => s[..i] + RemoveSpans(s[j + 1..], open, close)
  }

  /** Deleting every span deletes exactly the one the search finds, or nothing if it finds none. */
  lemma RemoveSpansOnce(s: string, open: char, close: char)
    ensures SearchSpan(s, open, close).None? ==> RemoveSpans(s, open, close) == s
    ensures SearchSpan(s, open, close).Some? ==>
              var (i, j) := SearchSpan(s, open, close).value;
              RemoveSpans(s, open, close) == s[..i] + s[j + 1..]
  {
    match SearchSpan(s, open, close)
    case None =>
    case Some((i, j)) =>
      assert close !in s[j + 1..];
      assert SearchSpan(s[j + 1..], open, close).None?;
  }

  /**
   * The interior of a matched span, between its two delimiters. The Python code computes it
   * as `match[0].strip()[1:-1]`; since neither delimiter is whitespace the strip removes
   * nothing, which `MatchInteriorStripped` proves.
   */
  function MatchInterior(s: string, i: nat, j: nat): string
    requires i < j < |s|
  {
    s[i + 1..j]
  }

  /** Stripping the matched span and dropping its first and last characters gives its interior. */
  lemma MatchInteriorStripped(s: string, i: nat, j: nat)
    requires i < j < |s|
    requires !IsSpace(s[i]) && !IsSpace(s[j])
    ensures Interior(Strip(s[i..j + 1])) == MatchInterior(s, i, j)
  {
    var m := s[i..j + 1];
    assert NoOuterSpace(m) by { assert m[0] == s[i] && m[|m| - 1] == s[j]; }
    assert |m| == j - i + 1 >= 2;
    assert forall t :: 0 <= t < |m| ==> m[t] == s[i + t];
    assert m[1..|m| - 1] == s[i + 1..j];
  }

  /** The locator's interior, `match[0].strip()[1:-1]`; empty when there is no locator. */
  function Locator(text: string): (r: string)
    ensures HasPair(text, '(', ')') ==>
              r == text[SearchSpan(text, '(', ')').value.0 + 1..SearchSpan(text, '(', ')').value.1]
  {
    match SearchSpan(text, '(', ')')
    case None => []
    case Some((i, j)) => MatchInterior(text, i, j)
  }

  /** What is left of the line once the locator span is deleted. */
  function WithoutLocator(text: string): string {
    RemoveSpans(text, '(', ')')
  }

  /** What is left once the locator and then the category span are deleted. */
  function WithoutSpans(text: string): string {
    RemoveSpans(WithoutLocator(text), '[', ']')
  }

  /**
   * The `filename` and `line` fields: parts 0 and 1 of the locator's interior split on
   * `:`, so `filename:line` opens the locator and is followed by its end or another `:`.
   */
  function LocatorFields(text: string): (r: Result<(string, string), ParseError>)
    ensures r.Failure? ==> r.error != MissingCategory
    ensures r.Success? ==> ':' !in r.value.0 && ':' !in r.value.1
  {
    if SearchSpan(text, '(', ')').None? then
      Failure(MissingLocator)
    else
      var fields := Split(Locator(text), ':');
      if |fields| < 2 then Failure(MissingLineField) else Success((fields[0], fields[1]))
  }

  /** Each of the two ways to fail has exactly one cause. */
  lemma LocatorFieldsFailure(text: string)
    ensures LocatorFields(text) == Failure(MissingLocator) <==> !HasPair(text, '(', ')')
    ensures LocatorFields(text) == Failure(MissingLineField) <==> HasPair(text, '(', ')') && ':' !in Locator(text)
  {
    if HasPair(text, '(', ')') {
      SplitSingle(Locator(text), ':');
    }
  }

  /** On success, `filename:line` opens the locator and is followed by its end or another `:`. */
  lemma LocatorFieldsOpenLocator(text: string)
    requires LocatorFields(text).Success?
    ensures OpensWithFields(Locator(text), LocatorFields(text).value.0, LocatorFields(text).value.1, ':')
  {
    SplitFirstTwo(Locator(text), ':');
  }

  /** The `category` field: the untrimmed interior of the first-`[`-to-last-`]` span. */
  function CategoryField(rest: string): (r: Option<string>)
    ensures r.None? <==> !HasPair(rest, '[', ']')
    ensures r.Some? ==> exists k: nat, l: nat :: GreedySpan(rest, '[', ']', k, l) && r.value == rest[k + 1..l]
  {
    match SearchSpan(rest, '[', ']')
    case None => None
    case Some((k, l)) =>
      assert GreedySpan(rest, '[', ']', k, l);
      Some(MatchInterior(rest, k, l))
  }

  /**
   * The `severity` and `data` fields: `remainder[:8]` and `remainder[9:]`, trimmed; the
   * character at index 8 goes to neither. Nothing checks the severity against the known
   * names, so any text of at most 8 characters can come out. Stripping `data` twice, as
   * the code does, changes nothing after the first time.
   */
  function SeverityAndData(remainder: string): (r: (string, string))
    ensures |r.0| <= 8 && NoOuterSpace(r.0) && NoOuterSpace(r.1)
    ensures Padded(Take(remainder, 8), r.0) && Padded(Drop(remainder, 9), r.1)
    ensures |remainder| <= 9 ==> r.1 == []
    ensures |r.0| + |r.1| <= |remainder|
  {
    StripRemovesSpace(Take(remainder, 8));
    StripRemovesSpace(Drop(remainder, 9));
    (Strip(Take(remainder, 8)), Strip(Strip(Drop(remainder, 9))))
  }

  /** `parse_message`: one line to one record, or the reason the Python code raises. */
  function ParseMessage(text: string): (r: Result<Message, ParseError>)
    ensures r.Success? ==> r.value.message == text
  {
    match LocatorFields(text)
    case Failure(e) => Failure(e)
    case Success((filename, line)) =>
      var rest := WithoutLocator(text);
      match CategoryField(rest)
      case None => Failure(MissingCategory)
      case Some(category) =>
        var (severity, data) := SeverityAndData(RemoveSpans(rest, '[', ']'));
        Success(Message(text, category, line, data, filename, severity))
  }

  /** A record's fields are exactly what the three field extractors give. */
  lemma ParseMessageFields(text: string)
    requires ParseMessage(text).Success?
    ensures var m := ParseMessage(text).value;
            && LocatorFields(text) == Success((m.filename, m.line))
            && CategoryField(WithoutLocator(text)) == Some(m.category)
            && (m.severity, m.data) == SeverityAndData(WithoutSpans(text))
  {
  }

  /** Each of the three exceptions has exactly one cause, checked in this order. */
  lemma ParseMessageFailure(text: string)
    ensures ParseMessage(text) == Failure(MissingLocator) <==> !HasPair(text, '(', ')')
    ensures ParseMessage(text) == Failure(MissingLineField) <==> HasPair(text, '(', ')') && ':' !in Locator(text)
    ensures ParseMessage(text) == Failure(MissingCategory) <==>
              HasPair(text, '(', ')') && ':' in Locator(text) && !HasPair(WithoutLocator(text), '[', ']')
  {
    LocatorFieldsFailure(text);
  }

  /** The lines the batch parses: the non-empty ones, in order. */
  function NonEmptyLines(lines: seq<string>): (r: seq<string>)
    ensures forall k :: 0 <= k < |r| ==> |r[k]| > 0
    ensures forall x :: x in r <==> x in lines && |x| > 0
  {
    if |lines| == 0 then []
    else
      assert lines == [lines[0]] + lines[1..];
      (if |lines[0]| > 0 then [lines[0]] else []) + NonEmptyLines(lines[1..])
  }

  /** Skipping empty lines keeps the order: it distributes over concatenation. */
  lemma {:induction false} NonEmptyLinesAppend(a: seq<string>, b: seq<string>)
    ensures NonEmptyLines(a + b) == NonEmptyLines(a) + NonEmptyLines(b)
    decreases |a|
  {
    if |a| > 0 {
      assert (a + b)[1..] == a[1..] + b;
      NonEmptyLinesAppend(a[1..], b);
    } else {
      assert a + b == b;
    }
  }

  /**
   * Runs a sequence of steps that may raise, in order: all the values if none raises,
   * otherwise the error of the first one that does.
   */
  function Collect<T(==), E(==)>(rs: seq<Result<T, E>>): (r: Result<seq<T>, E>)
    ensures r.Success? <==> forall k :: 0 <= k < |rs| ==> rs[k].Success?
    ensures r.Success? ==> |r.value| == |rs| && forall k :: 0 <= k < |rs| ==> rs[k] == Success(r.value[k])
    ensures r.Failure? ==>
              exists k :: 0 <= k < |rs| && rs[k] == Failure(r.error) && forall p :: 0 <= p < k ==> rs[p].Success?
  {
    if |rs| == 0 then Success([])
    else
      match rs[0]
      case Failure(e) => Failure(e)
      case Success(v) =>
        var rest := Collect(rs[1..]);
        assert forall k :: 1 <= k < |rs| ==> rs[k] == rs[1..][k - 1];
        match rest
        case Failure(e) =>
          var k :| 0 <= k < |rs[1..]| && rs[1..][k] == Failure(e) && forall p :: 0 <= p < k ==> rs[1..][p].Success?;
          assert rs[k + 1] == Failure(e) && forall p :: 0 <= p < k + 1 ==> rs[p].Success?;
          Failure(e)
        case Success(vs) =>
          Success([v] + vs)
  }

  /** Applies `f` to every element; the first failure aborts the batch with its error. */
  function CollectAll<X, T(==), E(==)>(xs: seq<X>, f: X -> Result<T, E>): (r: Result<seq<T>, E>)
    ensures r.Success? <==> forall k :: 0 <= k < |xs| ==> f(xs[k]).Success?
    ensures r.Success? ==> |r.value| == |xs| && forall k :: 0 <= k < |xs| ==> f(xs[k]) == Success(r.value[k])
    ensures r.Failure? ==>
              exists k :: 0 <= k < |xs| && f(xs[k]) == Failure(r.error) && forall p :: 0 <= p < k ==> f(xs[p]).Success?
  {
    var steps := seq(|xs|, k requires 0 <= k < |xs| => f(xs[k]));
    assert forall k :: 0 <= k < |xs| ==> steps[k] == f(xs[k]);
    var r := Collect(steps);
    if r.Failure? then
      var k :| 0 <= k < |steps| && steps[k] == Failure(r.error) && forall p :: 0 <= p < k ==> steps[p].Success?;
      assert f(xs[k]) == Failure(r.error) && forall p :: 0 <= p < k ==> f(xs[p]).Success?;
      r
    else r
  }

  /** Applying `f` to the non-empty lines succeeds exactly when it succeeds on every non-empty line. */
  lemma CollectNonEmpty<T, E>(lines: seq<string>, f: string -> Result<T, E>)
    ensures var r := CollectAll(NonEmptyLines(lines), f);
            && (r.Success? <==> forall k :: 0 <= k < |lines| && |lines[k]| > 0 ==> f(lines[k]).Success?)
            && (r.Failure? ==> exists x :: x in lines && |x| > 0 && f(x) == Failure(r.error))
  {
    var kept := NonEmptyLines(lines);
    var r := CollectAll(kept, f);
    if r.Success? {
      forall k | 0 <= k < |lines| && |lines[k]| > 0 ensures f(lines[k]).Success? {
        var x := lines[k];
        assert x in kept;
        var i :| 0 <= i < |kept| && kept[i] == x;
      }
    } else {
      var i :| 0 <= i < |kept| && f(kept[i]) == Failure(r.error);
      assert kept[i] in kept;
    }
  }

  /**
   * `parse_messages`: one record per non-empty line, in input order; empty lines are
   * skipped, and the first malformed line raises, which aborts the whole batch.
   */
  function ParseLines(lines: seq<string>): (r: Result<seq<Message>, ParseError>)
    ensures r.Success? <==> forall k :: 0 <= k < |lines| && |lines[k]| > 0 ==> ParseMessage(lines[k]).Success?
    ensures r.Success? ==> |r.value| == |NonEmptyLines(lines)|
    ensures r.Success? ==> forall k :: 0 <= k < |r.value| ==> ParseMessage(NonEmptyLines(lines)[k]) == Success(r.value[k])
    ensures r.Success? ==> forall k :: 0 <= k < |r.value| ==> r.value[k].message == NonEmptyLines(lines)[k]
    ensures r.Failure? ==> exists x :: x in lines && |x| > 0 && ParseMessage(x) == Failure(r.error)
    ensures r.Failure? ==>
              exists k :: && 0 <= k < |NonEmptyLines(lines)|
                          && ParseMessage(NonEmptyLines(lines)[k]) == Failure(r.error)
                          && forall p :: 0 <= p < k ==> ParseMessage(NonEmptyLines(lines)[p]).Success?
  {
    CollectNonEmpty(lines, ParseMessage);
    CollectAll(NonEmptyLines(lines), ParseMessage)
  }

  /**
   * The parser constructor: a missing (None) or empty list gives no records; any other
   * list is parsed line by line.
   */
  function ParsedMessages(list: Option<seq<string>>): (r: Result<seq<Message>, ParseError>)
    ensures list.None? || list == Some([]) ==> r == Success([])
    ensures list.Some? ==> r == ParseLines(list.value)
  {
    if list.Some? && |list.value| > 0 then ParseLines(list.value) else Success([])
  }

  /** Java's `%-<width>s`: `s` followed by spaces up to `width` columns. */
  function PadRight(s: string, width: nat): (r: string)
    ensures |r| == if |s| < width then width else |s|
    ensures r[..|s|] == s && AllSpace(r[|s|..])
  {
    if |s| < width then s + seq(width - |s|, _ => ' ') else s
  }

  /** What precedes the locator in a rendered line: `SEVERITY [category] data `. */
  function Remainder(severity: string, category: string, data: string): string {
    PadRight(severity, 7) + " [" + category + "] " + data + " "
  }

  /**
   * A diagnostic line in the layout the parser's fixed positions are built for:
   * `SEVERITY [category] data (filename:line)`, the severity left-aligned in 7 columns.
   */
  function Render(severity: string, category: string, data: string, filename: string, line: string): string {
    Remainder(severity, category, data) + "(" + filename + ":" + line + ")"
  }

  /**
   * The fields `Render` can lay out so that they read back unchanged: the severity fits its
   * column, no `(` comes before the locator, no `[` before the category's and no `]` after
   * it, `:` only between file name and line, and the trimmed fields have no outer whitespace.
   */
  predicate Renderable(severity: string, category: string, data: string, filename: string, line: string) {
    && |severity| <= 7 && NoOuterSpace(severity) && '(' !in severity && '[' !in severity
    && '(' !in category
    && NoOuterSpace(data) && '(' !in data && ']' !in data
    && ':' !in filename && ':' !in line
  }

  /** `s` is `a`, `open`, `b`, `close`, `c` laid end to end. */
  predicate Framed(s: string, a: string, b: string, c: string, open: char, close: char) {
    && |s| == |a| + |b| + |c| + 2
    && s[..|a|] == a && s[|a|] == open && s[|a| + 1..|a| + 1 + |b|] == b
    && s[|a| + 1 + |b|] == close && s[|a| + |b| + 2..] == c
  }

  lemma FramedConcat(a: string, b: string, c: string, open: char, close: char)
    ensures Framed(a + [open] + b + [close] + c, a, b, c, open, close)
  {
    var s := a + [open] + b + [close] + c;
    assert s[..|a|] == a;
    assert s[|a| + 1..|a| + 1 + |b|] == b;
    assert s[|a| + |b| + 2..] == c;
  }

  /** The span search finds the delimiters around `b` when `a` has no opener and `c` no closer. */
  lemma SearchSpanFramed(s: string, a: string, b: string, c: string, open: char, close: char)
    requires Framed(s, a, b, c, open, close) && open !in a && close !in c
    ensures SearchSpan(s, open, close) == Some((|a|, |a| + 1 + |b|))
  {
    var l := |a| + 1 + |b|;
    assert open in s by { assert s[|a|] == open; }
    assert close in s by { assert s[l] == close; }
  }

  lemma RemoveSpansAt(s: string, open: char, close: char, i: nat, j: nat)
    requires SearchSpan(s, open, close) == Some((i, j))
    ensures j < |s| && RemoveSpans(s, open, close) == s[..i] + s[j + 1..]
  {
    RemoveSpansOnce(s, open, close);
  }

  lemma CategoryFieldAt(rest: string, k: nat, l: nat)
    requires SearchSpan(rest, '[', ']') == Some((k, l))
    ensures l <= |rest| && CategoryField(rest) == Some(rest[k + 1..l])
  {
  }

  lemma LocatorAt(text: string, i: nat, j: nat)
    requires SearchSpan(text, '(', ')') == Some((i, j))
    ensures i + 1 <= j <= |text| && Locator(text) == text[i + 1..j]
  {
  }

  /** A locator `filename:line` with no other `:` gives exactly those two fields. */
  lemma LocatorFieldsOf(text: string, filename: string, line: string)
    requires SearchSpan(text, '(', ')').Some?
    requires Locator(text) == filename + ":" + line
    requires ':' !in filename && ':' !in line
    ensures LocatorFields(text) == Success((filename, line))
  {
    assert Join([filename, line], ':') == filename + ":" + line;
    SplitJoin([filename, line], ':');
  }

  /** The locator of a rendered line yields its file name and line. */
  lemma RenderLocator(head: string, filename: string, line: string)
    requires '(' !in head && ':' !in filename && ':' !in line
    ensures var text := head + "(" + filename + ":" + line + ")";
            && LocatorFields(text) == Success((filename, line))
            && WithoutLocator(text) == head
  {
    var loc := filename + ":" + line;
    var text := head + "(" + filename + ":" + line + ")";
    var j := |head| + 1 + |loc|;
    assert Framed(text, head, loc, [], '(', ')') by {
      assert text == head + ['('] + loc + [')'] + [];
      FramedConcat(head, loc, [], '(', ')');
    }
    SearchSpanFramed(text, head, loc, [], '(', ')');
    LocatorAt(text, |head|, j);
    LocatorFieldsOf(text, filename, line);
    RemoveSpansAt(text, '(', ')', |head|, j);
    assert text[..|head|] + text[j + 1..] == head + [];
  }

  /** The category span of a framed text, and what its removal leaves. */
  lemma CategoryFramed(rest: string, a: string, b: string, c: string)
    requires Framed(rest, a, b, c, '[', ']') && '[' !in a && ']' !in c
    ensures CategoryField(rest) == Some(b)
    ensures RemoveSpans(rest, '[', ']') == a + c
  {
    var l := |a| + 1 + |b|;
    SearchSpanFramed(rest, a, b, c, '[', ']');
    CategoryFieldAt(rest, |a|, l);
    RemoveSpansAt(rest, '[', ']', |a|, l);
  }

  /** The category span between delimiters placed around `b`, and what its removal leaves. */
  lemma CategoryAround(a: string, b: string, c: string)
    requires '[' !in a && ']' !in c
    ensures var rest := a + ['['] + b + [']'] + c;
            && CategoryField(rest) == Some(b)
            && RemoveSpans(rest, '[', ']') == a + c
  {
    FramedConcat(a, b, c, '[', ']');
    CategoryFramed(a + ['['] + b + [']'] + c, a, b, c);
  }

  /** The category span of a rendered line's remainder, and what its removal leaves. */
  lemma RenderCategory(pad: string, category: string, data: string)
    requires '[' !in pad && ']' !in data
    ensures var rest := pad + " [" + category + "] " + data + " ";
            && CategoryField(rest) == Some(category)
            && RemoveSpans(rest, '[', ']') == pad + "  " + data + " "
  {
    var c := " " + data + " ";
    assert pad + " [" + category + "] " + data + " " == (pad + " ") + ['['] + category + [']'] + c;
    assert (pad + " ") + c == pad + "  " + data + " ";
    assert forall t :: 1 <= t < |c| - 1 ==> c[t] == data[t - 1];
    CategoryAround(pad + " ", category, c);
  }

  /** Padding adds only spaces. */
  lemma PadRightAddsSpaces(s: string, width: nat, c: char)
    requires c != ' ' && c !in s
    ensures c !in PadRight(s, width)
  {
    var pad := PadRight(s, width);
    assert forall t :: |s| <= t < |pad| ==> pad[t] == ' ';
    assert pad == pad[..|s|] + pad[|s|..];
  }

  /** No `(` occurs before the locator of a renderable line. */
  lemma RemainderHasNoParen(severity: string, category: string, data: string)
    requires '(' !in severity && '(' !in category && '(' !in data
    ensures '(' !in Remainder(severity, category, data)
  {
    PadRightAddsSpaces(severity, 7, '(');
  }

  /** The first eight characters of a rendered line's final remainder strip to the severity. */
  lemma RenderSeverity(severity: string, data: string)
    requires |severity| <= 7 && NoOuterSpace(severity)
    ensures Strip(Take(PadRight(severity, 7) + "  " + data + " ", 8)) == severity
  {
    var pad := PadRight(severity, 7);
    var spaces := pad[|severity|..] + " ";
    assert AllSpace(spaces) by {
      assert forall t :: 0 <= t < |spaces| - 1 ==> spaces[t] == pad[|severity|..][t];
    }
    assert Take(pad + "  " + data + " ", 8) == severity + spaces by {
      var rem := pad + "  " + data + " ";
      assert rem[..8] == pad + " ";
      assert pad == severity + pad[|severity|..];
    }
    StripPadded([], severity, spaces);
    assert [] + severity + spaces == severity + spaces;
  }

  /** From index 9 on, a rendered line's final remainder strips to the data. */
  lemma RenderData(severity: string, data: string)
    requires |severity| <= 7 && NoOuterSpace(data)
    ensures Strip(Strip(Drop(PadRight(severity, 7) + "  " + data + " ", 9))) == data
  {
    var rem := PadRight(severity, 7) + "  " + data + " ";
    assert Drop(rem, 9) == data + " " by {
      assert |PadRight(severity, 7)| == 7;
      assert rem[9..] == data + " ";
    }
    StripPadded([], data, " ");
    assert [] + data + " " == data + " ";
  }

  /** The fixed-position cut of a rendered line's final remainder. */
  lemma RenderSeverityAndData(severity: string, data: string)
    requires |severity| <= 7 && NoOuterSpace(severity) && NoOuterSpace(data)
    ensures SeverityAndData(PadRight(severity, 7) + "  " + data + " ") == (severity, data)
  {
    RenderSeverity(severity, data);
    RenderData(severity, data);
  }

  /** `parse_message` assembles the record from the three field extractors. */
  lemma ParseMessageOf(text: string, category: string, line: string, data: string, filename: string, severity: string)
    requires LocatorFields(text) == Success((filename, line))
    requires CategoryField(WithoutLocator(text)) == Some(category)
    requires SeverityAndData(WithoutSpans(text)) == (severity, data)
    ensures ParseMessage(text) == Success(Message(text, category, line, data, filename, severity))
  {
  }

  /** A rendered line parses back to exactly the fields it was rendered from. */
  lemma ParseRender(severity: string, category: string, data: string, filename: string, line: string)
    requires Renderable(severity, category, data, filename, line)
    ensures var text := Render(severity, category, data, filename, line);
            ParseMessage(text) == Success(Message(text, category, line, data, filename, severity))
  {
    var pad := PadRight(severity, 7);
    var head := Remainder(severity, category, data);
    var text := Render(severity, category, data, filename, line);
    RemainderHasNoParen(severity, category, data);
    RenderLocator(head, filename, line);
    PadRightAddsSpaces(severity, 7, '[');
    RenderCategory(pad, category, data);
    RenderSeverityAndData(severity, data);
    ParseMessageOf(text, category, line, data, filename, severity);
  }

  /**
   * The layout `%1$-7s: [%2$s] %4$s (%5$s:%3$d)` that the SCL validator's documentation
   * gives as its format setting, without the colour codes: the severity left-aligned in 7
   * columns and followed by a colon.
   */
  function DocumentedRender(severity: string, category: string, data: string, filename: string, line: string): string {
    PadRight(severity, 7) + ": [" + category + "] " + data + " (" + filename + ":" + line + ")"
  }

  /** An eight-character severity followed by two spaces and the data is cut back into both. */
  lemma WideSeverityAndData(severity: string, data: string)
    requires |severity| == 8 && NoOuterSpace(severity) && NoOuterSpace(data)
    ensures SeverityAndData(severity + "  " + data + " ") == (severity, data)
  {
    var rem := severity + "  " + data + " ";
    assert Take(rem, 8) == severity;
    assert Drop(rem, 9) == " " + data + " ";
    StripPadded(" ", data, " ");
  }

  /**
   * In the documented layout the colon falls within the first eight characters, so the
   * parsed severity keeps it: `WARNING:` or `INFO   :` rather than a bare level name. The
   * other fields read back as in `ParseRender`.
   */
  lemma DocumentedRenderKeepsColon(severity: string, category: string, data: string, filename: string, line: string)
    requires Renderable(severity, category, data, filename, line) && |severity| > 0
    ensures var text := DocumentedRender(severity, category, data, filename, line);
            ParseMessage(text) == Success(Message(text, category, line, data, filename, PadRight(severity, 7) + ":"))
  {
    var pad := PadRight(severity, 7);
    var wide := pad + ":";
    var text := DocumentedRender(severity, category, data, filename, line);
    assert PadRight(wide, 7) == wide;
    assert text == Render(wide, category, data, filename, line);
    assert NoOuterSpace(wide) by {
      assert wide[0] == severity[0];
    }
    PadRightAddsSpaces(severity, 7, '(');
    PadRightAddsSpaces(severity, 7, '[');
    var head := Remainder(wide, category, data);
    RemainderHasNoParen(wide, category, data);
    RenderLocator(head, filename, line);
    RenderCategory(wide, category, data);
    WideSeverityAndData(wide, data);
    ParseMessageOf(text, category, line, data, filename, wide);
  }
}
