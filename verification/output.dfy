/**
 * The message store (`RiseClipseOutput`): the parsed records of one validator run, the
 * seven severity views with their lazily filled caches, the field filters, the conjunctive
 * dictionary filter, and the CSV and JSON renderings.
 */
module Output {
  import opened Wrappers
  import opened PyStr
  import opened Parser

  /** The seven severity getters, one per cache attribute of the store. */
  datatype View = Errors | Warnings | Notices | Infos | OnlyWarnings | OnlyNotices | OnlyInfos

  /** The severities a view keeps; "DEBUG" and any other text are in none of them. */
  function Severities(v: View): set<string> {
    match v
    case Errors => {"ERROR"}
    case Warnings => {"WARNING", "ERROR"}
    case Notices => {"WARNING", "ERROR", "NOTICE"}
    case Infos => {"WARNING", "ERROR", "INFO", "NOTICE"}
    case OnlyWarnings => {"WARNING"}
    case OnlyNotices => {"NOTICE"}
    case OnlyInfos => {"INFO"}
  }

  predicate InView(v: View, m: Message) {
    m.severity in Severities(v)
  }

  /** The records that satisfy `keep`, in their original order (a list comprehension with a condition). */
  function Keep(ms: seq<Message>, keep: Message -> bool): (r: seq<Message>)
    ensures |r| <= |ms|
    ensures forall k :: 0 <= k < |r| ==> keep(r[k])
    ensures forall m :: m in r <==> m in ms && keep(m)
  {
    if |ms| == 0 then []
    else (if keep(ms[0]) then [ms[0]] else []) + Keep(ms[1..], keep)
  }

  /** Filtering runs left to right: it distributes over concatenation, so order is kept. */
  lemma {:induction false} KeepAppend(a: seq<Message>, b: seq<Message>, keep: Message -> bool)
    ensures Keep(a + b, keep) == Keep(a, keep) + Keep(b, keep)
    decreases |a|
  {
    if |a| == 0 {
      assert a + b == b;
    } else {
      assert (a + b)[1..] == a[1..] + b;
      KeepAppend(a[1..], b, keep);
    }
  }

  /** Filtering keeps every copy of a record that passes and no copy of one that does not. */
  lemma {:induction false} KeepCounts(ms: seq<Message>, keep: Message -> bool)
    ensures forall m :: multiset(Keep(ms, keep))[m] == if keep(m) then multiset(ms)[m] else 0
    decreases |ms|
  {
    if |ms| > 0 {
      KeepCounts(ms[1..], keep);
      assert ms == [ms[0]] + ms[1..];
    }
  }

  /** A filter every record passes keeps the whole list. */
  lemma {:induction false} KeepAll(ms: seq<Message>, keep: Message -> bool)
    requires forall k :: 0 <= k < |ms| ==> keep(ms[k])
    ensures Keep(ms, keep) == ms
    decreases |ms|
  {
    if |ms| > 0 {
      KeepAll(ms[1..], keep);
      assert [ms[0]] + ms[1..] == ms;
    }
  }

  /** Filtering with a stronger condition after a weaker one is filtering with the stronger one. */
  lemma {:induction false} KeepNested(ms: seq<Message>, outer: Message -> bool, inner: Message -> bool)
    requires forall m :: inner(m) ==> outer(m)
    ensures Keep(Keep(ms, outer), inner) == Keep(ms, inner)
    decreases |ms|
  {
    if |ms| > 0 {
      var head := if outer(ms[0]) then [ms[0]] else [];
      KeepAppend(head, Keep(ms[1..], outer), inner);
      KeepNested(ms[1..], outer, inner);
      if outer(ms[0]) {
        assert head[1..] == [];
      }
    }
  }

  /** What one severity getter collects from the parsed records. */
  function Select(ms: seq<Message>, v: View): (r: seq<Message>)
    ensures forall k :: 0 <= k < |r| ==> r[k].severity in Severities(v)
    ensures forall m :: m in r <==> m in ms && m.severity in Severities(v)
  {
    Keep(ms, (m: Message) => InView(v, m))
  }

  /** A getter collects every copy of each record in its view, in order, and nothing else. */
  lemma SelectCounts(ms: seq<Message>, v: View, more: seq<Message>)
    ensures forall m :: multiset(Select(ms, v))[m] == if m.severity in Severities(v) then multiset(ms)[m] else 0
    ensures Select(ms + more, v) == Select(ms, v) + Select(more, v)
  {
    KeepCounts(ms, (m: Message) => InView(v, m));
    KeepAppend(ms, more, (m: Message) => InView(v, m));
  }

  /**
   * A line in the documented SCL layout is in no severity view: its parsed severity ends
   * with a colon, which none of the level names has.
   */
  lemma DocumentedRenderUnselected(severity: string, category: string, data: string, filename: string, line: string, v: View)
    requires Renderable(severity, category, data, filename, line) && |severity| > 0
    ensures var text := DocumentedRender(severity, category, data, filename, line);
            ParseMessage(text).Success? && Select([ParseMessage(text).value], v) == []
  {
    var text := DocumentedRender(severity, category, data, filename, line);
    DocumentedRenderKeepsColon(severity, category, data, filename, line);
    var m := ParseMessage(text).value;
    assert ':' in m.severity by {
      assert m.severity[|m.severity| - 1] == ':';
    }
    ColonIsNoLevel(m.severity, v);
  }

  /** No level name of any view contains a colon. */
  lemma ColonIsNoLevel(s: string, v: View)
    requires ':' in s
    ensures s !in Severities(v)
  {
  }

  /** The tiers nest: errors within warnings within notices within infos, and each "only" view within its tier. */
  lemma TiersNest()
    ensures Severities(Errors) < Severities(Warnings) < Severities(Notices) < Severities(Infos)
    ensures Severities(OnlyWarnings) <= Severities(Warnings)
    ensures Severities(OnlyNotices) <= Severities(Notices) && Severities(OnlyInfos) <= Severities(Infos)
    ensures forall v: View :: "DEBUG" !in Severities(v)
  {
    assert "WARNING" !in Severities(Errors);
    assert "NOTICE" !in Severities(Warnings);
    assert "INFO" !in Severities(Notices);
  }

  /** A narrower view selected from a wider view's result is the narrower view itself. */
  lemma SelectNested(ms: seq<Message>, narrow: View, wide: View)
    requires Severities(narrow) <= Severities(wide)
    ensures Select(Select(ms, wide), narrow) == Select(ms, narrow)
  {
    KeepNested(ms, (m: Message) => InView(wide, m), (m: Message) => InView(narrow, m));
  }

  /**
   * The store: the parsed records and the seven cache attributes, each empty until its
   * getter first finds something.
   */
  datatype Store = Store(
    parsed: seq<Message>,
    errors: seq<Message>,
    warnings: seq<Message>,
    notices: seq<Message>,
    infos: seq<Message>,
    onlyWarnings: seq<Message>,
    onlyNotices: seq<Message>,
    onlyInfos: seq<Message>)

  /** The cache attribute a getter fills. */
  function Cache(st: Store, v: View): seq<Message> {
    match v
    case Errors => st.errors
    case Warnings => st.warnings
    case Notices => st.notices
    case Infos => st.infos
    case OnlyWarnings => st.onlyWarnings
    case OnlyNotices => st.onlyNotices
    case OnlyInfos => st.onlyInfos
  }

  /** The store with one cache attribute replaced. */
  function WithCache(st: Store, v: View, c: seq<Message>): (r: Store)
    ensures r.parsed == st.parsed && Cache(r, v) == c
    ensures forall w :: w != v ==> Cache(r, w) == Cache(st, w)
  {
    match v
    case Errors => st.(errors := c)
    case Warnings => st.(warnings := c)
    case Notices => st.(notices := c)
    case Infos => st.(infos := c)
    case OnlyWarnings => st.(onlyWarnings := c)
    case OnlyNotices => st.(onlyNotices := c)
    case OnlyInfos => st.(onlyInfos := c)
  }

  /** Every cache is either still empty or holds exactly what its getter selects. */
  predicate Coherent(st: Store) {
    forall v :: Cache(st, v) == [] || Cache(st, v) == Select(st.parsed, v)
  }

  /** A store over `ms` with nothing cached yet. */
  function Fresh(ms: seq<Message>): (st: Store)
    ensures st.parsed == ms && Coherent(st)
    ensures forall v :: Cache(st, v) == []
  {
    Store(ms, [], [], [], [], [], [], [])
  }

  /** The constructor: the parser's records (or its exception) and seven empty caches. */
  function NewStore(lines: Option<seq<string>>): (r: Result<Store, ParseError>)
    ensures r.Success? <==> ParsedMessages(lines).Success?
    ensures r.Success? ==> r.value == Fresh(ParsedMessages(lines).value)
    ensures r.Failure? ==> r.error == ParsedMessages(lines).error
  {
    match ParsedMessages(lines)
    case Failure(e) => Failure(e)
    case Success(ms) => Success(Fresh(ms))
  }

  /**
   * A severity getter: the cache it returns when that is non-empty, otherwise the cache
   * after appending the selected records. `guard` is the cache whose emptiness is checked.
   */
  function GetGuarded(st: Store, v: View, guard: View): (Store, seq<Message>) {
    if |Cache(st, guard)| > 0 then (st, Cache(st, v))
    else
      var c := Cache(st, v) + Select(st.parsed, v);
      (WithCache(st, v, c), c)
  }

  /** The getter each view is meant to have: it tests its own cache. */
  function Get(st: Store, v: View): (r: (Store, seq<Message>))
    ensures Coherent(st) ==> r.1 == Select(st.parsed, v) && Coherent(r.0)
    ensures r.0.parsed == st.parsed
    ensures forall w :: w != v ==> Cache(r.0, w) == Cache(st, w)
  {
    GetGuarded(st, v, v)
  }

  /** The cache each getter tests as written: `get_only_notices` tests `notices`, not its own. */
  function GuardAsWritten(v: View): View {
    if v == OnlyNotices then Notices else v
  }

  /** The severity getters as written. */
  function GetAsWritten(st: Store, v: View): (r: (Store, seq<Message>))
    ensures v != OnlyNotices ==> r == Get(st, v)
    ensures r.0.parsed == st.parsed
    ensures forall w :: w != v ==> Cache(r.0, w) == Cache(st, w)
  {
    GetGuarded(st, v, GuardAsWritten(v))
  }

  /** Asking again returns the same list and leaves the store as it was: no duplicates accumulate. */
  lemma GetIdempotent(st: Store, v: View)
    requires Coherent(st)
    ensures Get(Get(st, v).0, v) == Get(st, v)
  {
  }

  /** The getters answer the same whatever was asked before. */
  lemma GetIndependent(st: Store, v: View, w: View)
    requires Coherent(st)
    ensures Get(Get(st, w).0, v).1 == Get(st, v).1
  {
  }

  /** A store holding one NOTICE record and nothing cached. */
  function OneNotice(): Store {
    var m := Message("NOTICE [Schema] note (a.scd:1)", "Schema", "1", "note", "a.scd", "NOTICE");
    Store([m], [], [], [], [], [], [], [])
  }

  /**
   * As written, `get_only_notices` called twice on a store whose `notices` is empty appends
   * the NOTICE records twice.
   */
  lemma OnlyNoticesAccumulates()
    ensures var st := OneNotice();
            var first := GetAsWritten(st, OnlyNotices);
            && first.1 == st.parsed
            && GetAsWritten(first.0, OnlyNotices).1 == st.parsed + st.parsed
  {
    var st := OneNotice();
    assert InView(OnlyNotices, st.parsed[0]);
    assert Select(st.parsed, OnlyNotices) == st.parsed by {
      KeepAll(st.parsed, (m: Message) => InView(OnlyNotices, m));
    }
  }

  /**
   * As written, once `get_notices` has found something, `get_only_notices` returns its own
   * cache untouched: empty here, although the store holds a NOTICE record.
   */
  lemma OnlyNoticesStale()
    ensures var st := OneNotice();
            var afterNotices := GetAsWritten(st, Notices).0;
            && GetAsWritten(afterNotices, OnlyNotices).1 == []
            && Select(st.parsed, OnlyNotices) == st.parsed != []
  {
    var st := OneNotice();
    assert InView(Notices, st.parsed[0]) && InView(OnlyNotices, st.parsed[0]);
    KeepAll(st.parsed, (m: Message) => InView(Notices, m));
    KeepAll(st.parsed, (m: Message) => InView(OnlyNotices, m));
  }

  /** `category in message["category"]` and its sibling for `data`: substring tests. */
  function ByCategory(ms: seq<Message>, category: string): (r: seq<Message>)
    ensures forall m :: m in r <==> m in ms && Contains(m.category, category)
  {
    Keep(ms, (m: Message) => Contains(m.category, category))
  }

  function ByData(ms: seq<Message>, data: string): (r: seq<Message>)
    ensures forall m :: m in r <==> m in ms && Contains(m.data, data)
  {
    Keep(ms, (m: Message) => Contains(m.data, data))
  }

  function ByFilename(ms: seq<Message>, filename: string): (r: seq<Message>)
    ensures forall m :: m in r <==> m in ms && m.filename == filename
  {
    Keep(ms, (m: Message) => m.filename == filename)
  }

  /** A filter value: Python lets callers pass any object; text and integers are the ones that matter. */
  datatype Value = Text(s: string) | Int(n: int)

  /** `message["line"] == line`: an integer never equals the stored text. */
  function ByLine(ms: seq<Message>, line: Value): (r: seq<Message>)
    ensures forall m :: m in r <==> m in ms && line == Text(m.line)
    ensures line.Int? ==> r == []
  {
    var r := Keep(ms, (m: Message) => line == Text(m.line));
    assert |r| > 0 ==> r[0] in r;
    r
  }

  /** The empty text occurs in every text, so an empty category or data filter keeps everything. */
  lemma EmptySubstringKeepsAll(ms: seq<Message>)
    ensures ByCategory(ms, "") == ms && ByData(ms, "") == ms
  {
    forall m: Message ensures Contains(m.category, "") && Contains(m.data, "") {
      assert OccursAt(m.category, "", 0) && OccursAt(m.data, "", 0);
    }
    KeepAll(ms, (m: Message) => Contains(m.category, ""));
    KeepAll(ms, (m: Message) => Contains(m.data, ""));
  }

  /** `message[key]`: one of the six record keys, or `None` for the `KeyError`. */
  function Field(m: Message, key: string): (r: Option<string>)
    ensures r.None? <==> key !in {"message", "category", "line", "data", "filename", "severity"}
  {
    if key == "message" then Some(m.message)
    else if key == "category" then Some(m.category)
    else if key == "line" then Some(m.line)
    else if key == "data" then Some(m.data)
    else if key == "filename" then Some(m.filename)
    else if key == "severity" then Some(m.severity)
    else None
  }

  /**
   * One step `b and (...)` of the filter loop: substring for category and data (a non-text
   * value there raises TypeError), equality for any other key (an unknown key raises KeyError).
   */
  function MatchEntry(m: Message, key: string, value: Value): Result<bool, Exception> {
    if key == "category" || key == "data" then
      if value.Int? then Failure(TypeError) else Success(Contains(Field(m, key).value, value.s))
    else
      match Field(m, key)
      case None => Failure(KeyError(key))
      case Some(f) => Success(value == Text(f))
  }

  /**
   * The inner loop over the filter's entries, in insertion order. `b and X` does not evaluate
   * `X` once `b` is false, so the entries after the first mismatch can no longer raise.
   */
  function MatchAll(m: Message, filter: seq<(string, Value)>): (r: Result<bool, Exception>)
    ensures r == Success(true) <==> forall k :: 0 <= k < |filter| ==> MatchEntry(m, filter[k].0, filter[k].1) == Success(true)
  {
    if |filter| == 0 then Success(true)
    else
      match MatchEntry(m, filter[0].0, filter[0].1)
      case Failure(e) => Failure(e)
      case Success(b) =>
        if !b then Success(false)
        else
          var rest := MatchAll(m, filter[1..]);
          assert forall k :: 1 <= k < |filter| ==> filter[k] == filter[1..][k - 1];
          rest
  }

  /** `get_messages_with_filter`: the records every entry accepts, or the first exception raised. */
  function WithFilter(ms: seq<Message>, filter: seq<(string, Value)>): (r: Result<seq<Message>, Exception>)
    ensures r.Success? ==> r.value == Keep(ms, (m: Message) => MatchAll(m, filter) == Success(true))
    ensures r.Failure? ==> exists k :: 0 <= k < |ms| && MatchAll(ms[k], filter) == Failure(r.error)
    ensures (forall k :: 0 <= k < |ms| ==> MatchAll(ms[k], filter).Success?) ==> r.Success?
  {
    if |ms| == 0 then Success([])
    else
      match MatchAll(ms[0], filter)
      case Failure(e) => Failure(e)
      case Success(b) =>
        match WithFilter(ms[1..], filter)
        case Failure(e) =>
          var k :| 0 <= k < |ms[1..]| && MatchAll(ms[1..][k], filter) == Failure(e);
          assert ms[k + 1] == ms[1..][k];
          Failure(e)
        case Success(rest) =>
          assert forall k :: 1 <= k < |ms| ==> ms[k] == ms[1..][k - 1];
          Success((if b then [ms[0]] else []) + rest)
  }

  /** An empty filter keeps every record. */
  lemma EmptyFilterKeepsAll(ms: seq<Message>)
    ensures WithFilter(ms, []) == Success(ms)
  {
    KeepAll(ms, (m: Message) => MatchAll(m, []) == Success(true));
  }

  /** A filter whose keys are all record keys and whose substring entries carry text never raises. */
  predicate WellFormedFilter(filter: seq<(string, Value)>) {
    forall k :: 0 <= k < |filter| ==>
      && filter[k].0 in {"message", "category", "line", "data", "filename", "severity"}
      && (filter[k].0 in {"category", "data"} ==> filter[k].1.Text?)
  }

  /** A well-formed filter keeps exactly the records that every entry accepts. */
  lemma WellFormedFilterSucceeds(ms: seq<Message>, filter: seq<(string, Value)>)
    requires WellFormedFilter(filter)
    ensures WithFilter(ms, filter).Success?
    ensures forall m :: m in WithFilter(ms, filter).value <==>
              m in ms && forall k :: 0 <= k < |filter| ==> MatchEntry(m, filter[k].0, filter[k].1) == Success(true)
  {
    forall m: Message ensures MatchAll(m, filter).Success? {
      MatchAllWellFormed(m, filter);
    }
  }

  lemma {:induction false} MatchAllWellFormed(m: Message, filter: seq<(string, Value)>)
    requires WellFormedFilter(filter)
    ensures MatchAll(m, filter).Success?
    decreases |filter|
  {
    if |filter| > 0 {
      assert WellFormedFilter(filter[1..]) by {
        assert forall k :: 1 <= k < |filter| ==> filter[k] == filter[1..][k - 1];
      }
      MatchAllWellFormed(m, filter[1..]);
    }
  }

  /** An unknown key raises KeyError as soon as there is a record to test it on. */
  lemma UnknownKeyRaises(ms: seq<Message>, key: string, value: Value, rest: seq<(string, Value)>)
    requires |ms| > 0
    requires key !in {"message", "category", "line", "data", "filename", "severity"}
    ensures WithFilter(ms, [(key, value)] + rest) == Failure(KeyError(key))
  {
  }

  /** A one-entry filter on category is `get_messages_by_category`. */
  lemma CategoryEntryFilter(ms: seq<Message>, text: string)
    ensures WithFilter(ms, [("category", Text(text))]) == Success(ByCategory(ms, text))
  {
    SameKeep(ms, (m: Message) => MatchAll(m, [("category", Text(text))]) == Success(true), (m: Message) => Contains(m.category, text));
  }

  /** A one-entry filter on data is `get_messages_by_specific_message`. */
  lemma DataEntryFilter(ms: seq<Message>, text: string)
    ensures WithFilter(ms, [("data", Text(text))]) == Success(ByData(ms, text))
  {
    SameKeep(ms, (m: Message) => MatchAll(m, [("data", Text(text))]) == Success(true), (m: Message) => Contains(m.data, text));
  }

  /** A one-entry filter on the file name is `get_messages_by_filename`. */
  lemma FilenameEntryFilter(ms: seq<Message>, text: string)
    ensures WithFilter(ms, [("filename", Text(text))]) == Success(ByFilename(ms, text))
  {
    SameKeep(ms, (m: Message) => MatchAll(m, [("filename", Text(text))]) == Success(true), (m: Message) => m.filename == text);
  }

  /** A one-entry filter on the line is `get_messages_by_line`, integers included. */
  lemma LineEntryFilter(ms: seq<Message>, line: Value)
    ensures WithFilter(ms, [("line", line)]) == Success(ByLine(ms, line))
  {
    SameKeep(ms, (m: Message) => MatchAll(m, [("line", line)]) == Success(true), (m: Message) => line == Text(m.line));
  }

  /** Two conditions that agree on every record keep the same records. */
  lemma {:induction false} SameKeep(ms: seq<Message>, p: Message -> bool, q: Message -> bool)
    requires forall m :: p(m) == q(m)
    ensures Keep(ms, p) == Keep(ms, q)
    decreases |ms|
  {
    if |ms| > 0 {
      SameKeep(ms[1..], p, q);
    }
  }
}
