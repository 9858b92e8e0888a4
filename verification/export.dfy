/**
 * The store's two renderings: `to_csv`, which writes one line per record with the fields
 * joined by a separator and no quoting, and `to_json`, which binds each record to its index.
 * The file writes themselves are not modelled; only the returned text or dictionary is.
 */
module Export {
  import opened Wrappers
  import opened PyStr
  import opened Parser

  /** The record keys in insertion order with `message` moved last: the CSV column order. */
  const Columns: seq<string> := ["category", "line", "data", "filename", "severity", "message"]

  /** A record's values in CSV column order. */
  function Fields(m: Message): (r: seq<string>)
    ensures |r| == |Columns|
  {
    [m.category, m.line, m.data, m.filename, m.severity, m.message]
  }

  /** One CSV line: every field but the last followed by the separator, the last by a newline. */
  function CsvLine(fields: seq<string>, sep: string): string
    requires |fields| > 0
  {
    if |fields| == 1 then fields[0] + "\n" else fields[0] + sep + CsvLine(fields[1..], sep)
  }

  /** The data lines, one per record, in order. */
  function CsvRows(ms: seq<Message>, sep: string): string {
    if |ms| == 0 then [] else CsvLine(Fields(ms[0]), sep) + CsvRows(ms[1..], sep)
  }

  /** `to_csv`: nothing at all for no records, otherwise the header line and then the data lines. */
  function ToCsv(ms: seq<Message>, sep: string): (r: string)
    ensures r == [] <==> |ms| == 0
  {
    if |ms| == 0 then [] else CsvLine(Columns, sep) + CsvRows(ms, sep)
  }

  /** With a one-character separator a CSV line is the fields joined on it, then a newline. */
  lemma {:induction false} CsvLineIsJoin(fields: seq<string>, sep: char)
    requires |fields| > 0
    ensures CsvLine(fields, [sep]) == Join(fields, sep) + "\n"
    decreases |fields|
  {
    if |fields| > 1 {
      CsvLineIsJoin(fields[1..], sep);
    }
  }

  /** Joining texts that avoid `x` on a separator other than `x` gives a text that avoids `x`. */
  lemma {:induction false} JoinAvoids(parts: seq<string>, sep: char, x: char)
    requires x != sep
    requires forall k :: 0 <= k < |parts| ==> x !in parts[k]
    ensures x !in Join(parts, sep)
    decreases |parts|
  {
    if |parts| > 1 {
      JoinAvoids(parts[1..], sep, x);
    }
  }

  /** Lines each followed by a newline. */
  function Terminated(lines: seq<string>): string {
    if |lines| == 0 then [] else lines[0] + "\n" + Terminated(lines[1..])
  }

  /** Newline-terminated lines are the lines and a final empty one joined on newlines. */
  lemma {:induction false} TerminatedIsJoin(lines: seq<string>)
    ensures Terminated(lines) == Join(lines + [[]], '\n')
    decreases |lines|
  {
    if |lines| > 0 {
      TerminatedIsJoin(lines[1..]);
      assert (lines + [[]])[1..] == lines[1..] + [[]];
    }
  }

  /** The data lines of the records, without their newlines, for a one-character separator. */
  function RowTexts(ms: seq<Message>, sep: char): (r: seq<string>)
    ensures |r| == |ms|
    ensures forall k :: 0 <= k < |ms| ==> r[k] == Join(Fields(ms[k]), sep)
  {
    if |ms| == 0 then []
    else
      var rest := RowTexts(ms[1..], sep);
      assert forall k :: 1 <= k < |ms| ==> ms[k] == ms[1..][k - 1];
      [Join(Fields(ms[0]), sep)] + rest
  }

  lemma {:induction false} CsvRowsTerminated(ms: seq<Message>, sep: char)
    ensures CsvRows(ms, [sep]) == Terminated(RowTexts(ms, sep))
    decreases |ms|
  {
    if |ms| > 0 {
      CsvLineIsJoin(Fields(ms[0]), sep);
      CsvRowsTerminated(ms[1..], sep);
      assert RowTexts(ms, sep)[1..] == RowTexts(ms[1..], sep);
    }
  }

  /** One data line back to a record, if it has exactly six fields. */
  function DecodeRow(row: string, sep: char): Option<Message> {
    var f := Split(row, sep);
    if |f| != |Columns| then None else Some(Message(f[5], f[0], f[1], f[2], f[3], f[4]))
  }

  function DecodeRows(rows: seq<string>, sep: char): Option<seq<Message>> {
    MapAll(rows, (row: string) => DecodeRow(row, sep))
  }

  /**
   * Reading a CSV text back: the empty text is no records; otherwise the header must be the
   * column names, the text must end with a newline and every data line must have six fields.
   */
  function FromCsv(text: string, sep: char): Option<seq<Message>> {
    if text == [] then Some([])
    else
      var lines := Split(text, '\n');
      if |lines| < 2 || lines[|lines| - 1] != [] || Split(lines[0], sep) != Columns then None
      else DecodeRows(lines[1..|lines| - 1], sep)
  }

  /** No field of `m` contains the separator or a newline. */
  predicate FieldsSafe(m: Message, sep: char) {
    forall k :: 0 <= k < |Columns| ==> sep !in Fields(m)[k] && '\n' !in Fields(m)[k]
  }

  /** No column name and no field of any record contains the separator, and no field a newline. */
  predicate CsvSafe(ms: seq<Message>, sep: char) {
    && sep != '\n'
    && (forall k :: 0 <= k < |Columns| ==> sep !in Columns[k])
    && forall i :: 0 <= i < |ms| ==> FieldsSafe(ms[i], sep)
  }

  lemma DecodeJoinedRow(m: Message, sep: char)
    requires FieldsSafe(m, sep)
    ensures DecodeRow(Join(Fields(m), sep), sep) == Some(m)
  {
    SplitJoin(Fields(m), sep);
  }

  lemma DecodeJoinedRows(ms: seq<Message>, sep: char)
    requires forall i :: 0 <= i < |ms| ==> FieldsSafe(ms[i], sep)
    ensures DecodeRows(RowTexts(ms, sep), sep) == Some(ms)
  {
    var rows := RowTexts(ms, sep);
    forall k | 0 <= k < |ms| ensures DecodeRow(rows[k], sep) == Some(ms[k]) {
      DecodeJoinedRow(ms[k], sep);
    }
    assert DecodeRows(rows, sep).value == ms;
  }

  /** The header and data lines of a CSV text, without their newlines. */
  lemma CsvLines(ms: seq<Message>, sep: char)
    requires |ms| > 0
    ensures ToCsv(ms, [sep]) == Join([Join(Columns, sep)] + RowTexts(ms, sep) + [[]], '\n')
  {
    CsvLineIsJoin(Columns, sep);
    CsvRowsTerminated(ms, sep);
    TerminatedIsJoin([Join(Columns, sep)] + RowTexts(ms, sep));
    assert Terminated([Join(Columns, sep)] + RowTexts(ms, sep))
        == Join(Columns, sep) + "\n" + Terminated(RowTexts(ms, sep)) by {
      assert ([Join(Columns, sep)] + RowTexts(ms, sep))[1..] == RowTexts(ms, sep);
    }
  }

  /** None of the header and data lines contains a newline. */
  lemma CsvLinesAvoidNewline(ms: seq<Message>, sep: char)
    requires CsvSafe(ms, sep)
    ensures '\n' !in Join(Columns, sep)
    ensures forall k :: 0 <= k < |ms| ==> '\n' !in RowTexts(ms, sep)[k]
  {
    var rows := RowTexts(ms, sep);
    JoinAvoids(Columns, sep, '\n');
    forall k | 0 <= k < |rows| ensures '\n' !in rows[k] {
      JoinAvoids(Fields(ms[k]), sep, '\n');
    }
  }

  /** Lines free of newlines, at least two of them, join into a nonempty text that splits back into them. */
  lemma SplitJoinedLines(lines: seq<string>)
    requires |lines| >= 2
    requires forall k :: 0 <= k < |lines| ==> '\n' !in lines[k]
    ensures |Join(lines, '\n')| > 0 && Split(Join(lines, '\n'), '\n') == lines
  {
    SplitJoin(lines, '\n');
    assert Join(lines, '\n') == lines[0] + ['\n'] + Join(lines[1..], '\n');
  }

  /** A text made of the header line, newline-free data lines and a final newline reads back line by line. */
  lemma FromCsvLines(header: string, rows: seq<string>, sep: char)
    requires Split(header, sep) == Columns
    requires '\n' !in header && forall k :: 0 <= k < |rows| ==> '\n' !in rows[k]
    ensures FromCsv(Join([header] + rows + [[]], '\n'), sep) == DecodeRows(rows, sep)
  {
    var lines := [header] + rows + [[]];
    forall k | 0 <= k < |lines| ensures '\n' !in lines[k] {
      if 1 <= k < |lines| - 1 {
        assert lines[k] == rows[k - 1];
      }
    }
    SplitJoinedLines(lines);
    assert lines[1..|lines| - 1] == rows;
  }

  /**
   * With a one-character separator that neither the column names nor any field contains,
   * and no newline inside a field, the CSV text reads back as exactly the records: one
   * header line, one line per record, in order.
   */
  lemma CsvRoundTrip(ms: seq<Message>, sep: char)
    requires CsvSafe(ms, sep)
    ensures FromCsv(ToCsv(ms, [sep]), sep) == Some(ms)
  {
    if |ms| > 0 {
      CsvLines(ms, sep);
      CsvLinesAvoidNewline(ms, sep);
      SplitJoin(Columns, sep);
      FromCsvLines(Join(Columns, sep), RowTexts(ms, sep), sep);
      DecodeJoinedRows(ms, sep);
    }
  }

  /** `to_json`: the dictionary binding each index to the record at that index. */
  method ToJson(ms: seq<Message>) returns (dump: map<int, Message>)
    ensures forall i :: i in dump <==> 0 <= i < |ms|
    ensures forall i :: 0 <= i < |ms| ==> dump[i] == ms[i]
    ensures FromJson(dump) == ms
  {
    dump := map[];
    var i := 0;
    while i < |ms|
      invariant 0 <= i <= |ms|
      invariant forall k :: k in dump <==> 0 <= k < i
      invariant forall k :: 0 <= k < i ==> dump[k] == ms[k]
      invariant |dump| == i
    {
      dump := dump[i := ms[i]];
      i := i + 1;
    }
    ReadFromHeld(dump, ms, 0);
  }

  /** Reading the records back from a dictionary keyed by index, in index order. */
  function FromJson(dump: map<int, Message>): seq<Message> {
    ReadFrom(dump, 0, |dump|)
  }

  function ReadFrom(dump: map<int, Message>, i: nat, n: nat): seq<Message>
    decreases n - i
  {
    if i < n && i in dump then [dump[i]] + ReadFrom(dump, i + 1, n) else []
  }

  /** Reading from index `i` on gives the records from `i` on when the dictionary holds them. */
  lemma {:induction false} ReadFromHeld(dump: map<int, Message>, ms: seq<Message>, i: nat)
    requires i <= |ms|
    requires forall k :: 0 <= k < |ms| ==> k in dump && dump[k] == ms[k]
    ensures ReadFrom(dump, i, |ms|) == ms[i..]
    decreases |ms| - i
  {
    if i < |ms| {
      ReadFromHeld(dump, ms, i + 1);
      assert ms[i..] == [ms[i]] + ms[i + 1..];
    }
  }

  /**
   * `to_csv` accepts a separator of any length, and with more than one character the text
   * can be ambiguous even though no field holds the separator or a newline: on `aa`, the
   * fields `xa`, `y` and the fields `x`, `ay` both give `xaaay`.
   */
  lemma WideSeparatorAmbiguous()
    ensures var a := Message("", "xa", "y", "", "", "");
            var b := Message("", "x", "ay", "", "", "");
            && a != b
            && (forall k :: 0 <= k < |Columns| ==> !Contains(Fields(a)[k], "aa") && '\n' !in Fields(a)[k])
            && (forall k :: 0 <= k < |Columns| ==> !Contains(Fields(b)[k], "aa") && '\n' !in Fields(b)[k])
            && ToCsv([a], "aa") == ToCsv([b], "aa")
  {
    var a := Message("", "xa", "y", "", "", "");
    var b := Message("", "x", "ay", "", "", "");
    assert CsvRows([a], "aa") == "xa" + "aa" + "y" + "aa" + CsvLine(Fields(a)[2..], "aa");
    assert CsvRows([b], "aa") == "x" + "aa" + "ay" + "aa" + CsvLine(Fields(b)[2..], "aa");
    assert Fields(a)[2..] == Fields(b)[2..];
    assert "xa" + "aa" + "y" == "x" + "aa" + "ay";
    forall k | 0 <= k < |Columns| ensures !Contains(Fields(a)[k], "aa") && !Contains(Fields(b)[k], "aa") {
      ShortNotDoubled(Fields(a)[k]);
      ShortNotDoubled(Fields(b)[k]);
    }
  }

  /** A text of at most two characters other than `aa` does not contain `aa`. */
  lemma ShortNotDoubled(s: string)
    requires |s| <= 2 && s != "aa"
    ensures !Contains(s, "aa")
  {
  }
}
