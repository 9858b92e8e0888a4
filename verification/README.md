# RiseClipse Python launcher — a Dafny model

The RiseClipse Python launcher drives the RiseClipse Java validators from Python. It builds the
command line for a validator jar, runs it, and reads back the diagnostic lines the jar prints. The
repository holds two revisions of each launcher file: an older one at the top level and a package
revision under `riseclipse/`. This project models the text-processing core of both revisions as
pure Dafny functions and proves what they compute:

- **Parser** (`riseclipse_parser.py`, both copies are identical). A diagnostic line such as
  `WARNING [Schema] text (file.scd:12)` becomes a record with the fields message, category, line,
  data, filename and severity. The parser deletes the greedy `(…)` span, whose interior split on
  `:` gives the file name and line, then the greedy `[…]` span, whose interior is the category. It
  then slices the rest at fixed positions: the first 8 characters are the severity and everything
  from index 9 on is the data. The model shows that a well-formed line always parses, and that each
  of the three ways of raising happens exactly when its condition holds. It also shows that
  fields laid out as `SEVERITY [category] data (file:line)`, the severity left-aligned in 7
  columns (the layout the parser's fixed positions are built for), parse back into the same
  fields. Under the layout the SCL validator's documentation gives as its format setting,
  `%1$-7s: [%2$s] %4$s (%5$s:%3$d)`, the colon falls within the first eight characters: the
  parsed severity is `WARNING:` or `INFO   :`, and no severity getter selects the record.
- **Output store** (`riseclipse_output.py`). This is a parsed list plus seven caches, one for each
  severity getter. It also provides the category, data, file-name and line queries, the dictionary
  filter, and the CSV and JSON exports. The CSV export is proved to read back into the same records
  for a one-character separator that is not a newline and does not occur in the column names,
  when no field contains the separator or a newline. `to_csv` accepts a separator of any length,
  and a longer one can make the text ambiguous even under those conditions.
- **Validator** (`riseclipse_validator.py`). This holds the settings (level, format string, colour,
  option list, files), the option-list edits `add_option` and `remove_option`, the copyright
  switch, and `compute_arguments`. The two revisions are kept apart because they differ: the older
  one stores the level with its `--` prefix and puts the copyright-suppression flag right after the
  level without touching the option list. The package revision appends that flag to the option
  list itself, so the suppression outlives the call.
- **SCL validator** (`riseclipse_validator_scl.py`). This covers the four valueless switches, the
  `--xml-schema` option, and the version check of its command-line entry point.
- **Version and download text** (`get_current_version`, `riseclipse_download.py`). This covers
  finding the version in the jar's help text, the release title of the GitHub page, and the
  download URL.

Python exceptions are values: `Result<T, Exception>` with `Failure(IndexError)`,
`Failure(NameError("level"))` and so on. A parse failure is a `Parser.ParseError` that names the
missing piece. Lists are `seq`, strings are `seq<char>`, and a dict of parsed fields is the
`Parser.Message` datatype. `str.strip`, `str.split`, `str.find`, `int()` and `'%d'` are modelled in
module `PyStr`, each with the properties the launcher relies on.

Where the package revision cannot run as written, the model keeps both versions. The as-written
member reproduces the exception, and a corrected member is what the rest of the model uses (see
"## Findings").

The category is the raw text between the brackets, not trimmed: `[ Schema ]` gives ` Schema `,
while the severity and the data are trimmed. Where the documentation and the code disagree, the
model follows the code: the SCL constructor's documentation lists a `--format-string` setting as
part of the initial state, but the format string stays empty (`Scl.PackageDefaults`). Lines in
that documented layout would keep the colon in their severity (`Parser.DocumentedRenderKeepsColon`);
with the empty format string the jar prints in its own default layout, which is not part of this
model.

Files: `wrappers.dfy` (Option, Result, the exceptions), `pystr.dfy`, `parser.dfy`, `output.dfy`,
`export.dfy`, `options.dfy`, `validator.dfy`, `validator_legacy.dfy`, `scl.dfy`, `versions.dfy`,
`download.dfy`.

## Model

Paths are relative to the repository; `riseclipse/…` is the package revision and the file names
without that directory are the older revision.

| member | source | states |
|---|---|---|
| PyStr.Strip | fr.centralesupelec.edf.riseclipse.python.launcher/riseclipse/riseclipse_parser.py:127-129 | `strip()` leaves no whitespace at either end, and a text with no outer whitespace is returned unchanged |
| PyStr.LStripRemovesSpace | fr.centralesupelec.edf.riseclipse.python.launcher/riseclipse/riseclipse_parser.py:127-129 | `lstrip()` removes exactly a prefix of whitespace and keeps the rest |
| PyStr.StripRemovesSpace | fr.centralesupelec.edf.riseclipse.python.launcher/riseclipse/riseclipse_parser.py:127-129 | `strip()` removes whitespace and nothing else from the two ends: the text is the stripped text with whitespace before and after it |
| PyStr.RStripRemovesSpace | fr.centralesupelec.edf.riseclipse.python.launcher/riseclipse/riseclipse_parser.py:127-129 | `rstrip()` removes exactly a suffix of whitespace and keeps the rest |
| PyStr.StripPadded | fr.centralesupelec.edf.riseclipse.python.launcher/riseclipse/riseclipse_parser.py:127-129 | stripping a trimmed text padded with whitespace on both sides gives back the trimmed text |
| PyStr.LStripAscii | fr.centralesupelec.edf.riseclipse.python.launcher/riseclipse/riseclipse_download.py:62 | `bytes.lstrip()` removes exactly the leading ASCII whitespace and keeps the rest as a suffix |
| PyStr.LStripAsciiPrefix | fr.centralesupelec.edf.riseclipse.python.launcher/riseclipse/riseclipse_download.py:62 | ASCII whitespace followed by a text that does not start with it strips to that text |
| PyStr.Split | fr.centralesupelec.edf.riseclipse.python.launcher/riseclipse/riseclipse_parser.py:121-122 | `split(sep)` gives at least one part, no part holds the separator, and joining the parts on it gives the text back |
| PyStr.SplitJoin | fr.centralesupelec.edf.riseclipse.python.launcher/riseclipse/riseclipse_validator.py:343 | splitting the join of separator-free parts gives the parts back |
| PyStr.SplitSingle | fr.centralesupelec.edf.riseclipse.python.launcher/riseclipse/riseclipse_parser.py:122 | the split has a single part exactly when the separator does not occur, which is when `[1]` raises |
| PyStr.SplitFirstTwo | fr.centralesupelec.edf.riseclipse.python.launcher/riseclipse/riseclipse_parser.py:121-122 | parts 0 and 1 open the text, separated by the separator and followed by its end or another separator |
| PyStr.Find | fr.centralesupelec.edf.riseclipse.python.launcher/riseclipse/riseclipse_validator.py:340 | `find` gives -1 exactly when the pattern is absent, and otherwise its first occurrence |
| PyStr.IndexOf | fr.centralesupelec.edf.riseclipse.python.launcher/riseclipse/riseclipse_parser.py:118 | the position of the first occurrence of a character, before which it does not occur |
| PyStr.LastIndexOf | fr.centralesupelec.edf.riseclipse.python.launcher/riseclipse/riseclipse_parser.py:118 | the position of the last occurrence of a character, after which it does not occur |
| PyStr.SplitWhitespace | fr.centralesupelec.edf.riseclipse.python.launcher/riseclipse/riseclipse_validator.py:342 | `split()` with no argument gives non-empty words free of whitespace |
| PyStr.FirstWord | fr.centralesupelec.edf.riseclipse.python.launcher/riseclipse/riseclipse_validator.py:342 | a word followed by the end or by whitespace is the first word of `split()` |
| PyStr.NumeralParses | fr.centralesupelec.edf.riseclipse.python.launcher/riseclipse/riseclipse_validator.py:345 | `int()` reads a decimal numeral, `_` separators allowed, as its value |
| PyStr.NegatedNumeralParses | fr.centralesupelec.edf.riseclipse.python.launcher/riseclipse/riseclipse_validator.py:345 | `int()` reads a minus sign and a numeral as the negated value |
| PyStr.NatToText | fr.centralesupelec.edf.riseclipse.python.launcher/riseclipse/riseclipse_download.py:100 | the decimal digits written for a natural number denote that number |
| PyStr.FormatInt | fr.centralesupelec.edf.riseclipse.python.launcher/riseclipse/riseclipse_download.py:100 | `'%d'` writes a non-empty text with no whitespace and no `.` |
| PyStr.FormatIntParses | fr.centralesupelec.edf.riseclipse.python.launcher/riseclipse/riseclipse_validator_scl.py:153-158 | `int('%d' % n) == n` for every integer |
| Parser.SearchSpan | fr.centralesupelec.edf.riseclipse.python.launcher/riseclipse/riseclipse_parser.py:118-120 | `re.search` finds nothing exactly when no opening delimiter precedes a closing one, and otherwise spans from the first opening to the last closing delimiter |
| Parser.RemoveSpansOnce | fr.centralesupelec.edf.riseclipse.python.launcher/riseclipse/riseclipse_parser.py:123 | `re.sub` removes exactly the span `re.search` found, or changes nothing when there is none |
| Parser.MatchInteriorStripped | fr.centralesupelec.edf.riseclipse.python.launcher/riseclipse/riseclipse_parser.py:121 | `match[0].strip()[1:-1]` is the text strictly between the two delimiters |
| Parser.Locator | fr.centralesupelec.edf.riseclipse.python.launcher/riseclipse/riseclipse_parser.py:120-121 | the locator is the text between the first `(` and the last `)` |
| Parser.LocatorFields | fr.centralesupelec.edf.riseclipse.python.launcher/riseclipse/riseclipse_parser.py:121-122 | the file name and line hold no `:` and the locator step never reports a missing category |
| Parser.LocatorFieldsFailure | fr.centralesupelec.edf.riseclipse.python.launcher/riseclipse/riseclipse_parser.py:120-122 | the locator step raises for a missing locator exactly when there is no `(` before a `)`, and for a missing line exactly when the locator has no `:` |
| Parser.LocatorFieldsOpenLocator | fr.centralesupelec.edf.riseclipse.python.launcher/riseclipse/riseclipse_parser.py:121-122 | `filename:line` opens the locator, followed by its end or another `:` |
| Parser.CategoryField | fr.centralesupelec.edf.riseclipse.python.launcher/riseclipse/riseclipse_parser.py:124-125 | the category is missing exactly when no `[` precedes a `]`, and is otherwise the untrimmed text of the greedy bracket span |
| Parser.SeverityAndData | fr.centralesupelec.edf.riseclipse.python.launcher/riseclipse/riseclipse_parser.py:127-129 | the severity is `remainder[:8]` and the data `remainder[9:]`, each with exactly its outer whitespace removed (the second strip of the data changes nothing); the severity has at most 8 characters and the data is empty for a remainder of 9 characters or fewer |
| Parser.ParseMessage | fr.centralesupelec.edf.riseclipse.python.launcher/riseclipse/riseclipse_parser.py:113-136 | a parsed record keeps the line verbatim as its `message`; the top-level copy (`riseclipse_parser.py:113-136`) is identical |
| Parser.ParseMessageFields | fr.centralesupelec.edf.riseclipse.python.launcher/riseclipse/riseclipse_parser.py:115-135 | each field of a parsed record is what its extraction step produces: file name and line from the locator, the category from the text without the locator, severity and data from the text without either span |
| Parser.ParseMessageFailure | fr.centralesupelec.edf.riseclipse.python.launcher/riseclipse/riseclipse_parser.py:118-126 | parsing raises each of its three errors exactly when that piece is missing and the earlier ones are present |
| Parser.ParseMessageOf | fr.centralesupelec.edf.riseclipse.python.launcher/riseclipse/riseclipse_parser.py:131-135 | when every extraction step succeeds, the record is exactly those values under their keys |
| Parser.RenderLocator | fr.centralesupelec.edf.riseclipse.python.launcher/riseclipse/riseclipse_parser.py:120-123 | a trailing `(filename:line)` after text with no `(` is read back as those two fields and deleted cleanly |
| Parser.RenderCategory | fr.centralesupelec.edf.riseclipse.python.launcher/riseclipse/riseclipse_parser.py:124-126 | ` [category] ` between a severity with no `[` and data with no `]` is read back and deleted cleanly |
| Parser.RenderSeverityAndData | fr.centralesupelec.edf.riseclipse.python.launcher/riseclipse/riseclipse_parser.py:127-129 | a severity padded to 7 columns, two spaces and the data are sliced back into the severity and the data |
| Parser.ParseRender | fr.centralesupelec.edf.riseclipse.python.launcher/riseclipse/riseclipse_parser.py:113-136 | a line laid out as `SEVERITY [category] data (filename:line)` parses back into exactly those fields |
| Parser.WideSeverityAndData | fr.centralesupelec.edf.riseclipse.python.launcher/riseclipse/riseclipse_parser.py:127-129 | an eight-character severity, two spaces and the data are sliced back into the severity and the data |
| Parser.DocumentedRenderKeepsColon | fr.centralesupelec.edf.riseclipse.python.launcher/riseclipse/riseclipse_validator_scl.py:47 | a line in the documented format `%1$-7s: [%2$s] %4$s (%5$s:%3$d)` parses, with category, data, file name and line read back, but with the severity padded to 7 columns and followed by the colon |
| Parser.NonEmptyLines | fr.centralesupelec.edf.riseclipse.python.launcher/riseclipse/riseclipse_parser.py:86-87 | only the empty lines are skipped |
| Parser.NonEmptyLinesAppend | fr.centralesupelec.edf.riseclipse.python.launcher/riseclipse/riseclipse_parser.py:86-88 | the kept lines of a concatenation are the kept lines of each part, in order |
| Parser.Collect | fr.centralesupelec.edf.riseclipse.python.launcher/riseclipse/riseclipse_parser.py:86-88 | a loop that stops at the first raise: it succeeds exactly when every step does, and otherwise reports the first failure |
| Parser.CollectNonEmpty | fr.centralesupelec.edf.riseclipse.python.launcher/riseclipse/riseclipse_parser.py:86-88 | parsing only the non-empty lines succeeds exactly when each of them parses |
| Parser.ParseLines | fr.centralesupelec.edf.riseclipse.python.launcher/riseclipse/riseclipse_parser.py:86-88 | `parse_messages` succeeds exactly when every non-empty line parses; then the k-th record is what `parse_message` gives for the k-th non-empty line, one record per non-empty line in order; otherwise it raises the error of the first non-empty line that fails, all earlier ones having parsed |
| Parser.ParsedMessages | fr.centralesupelec.edf.riseclipse.python.launcher/riseclipse/riseclipse_parser.py:58-63 | a missing or empty list gives no records, and any other list is parsed |
| Parser.PadRight | fr.centralesupelec.edf.riseclipse.python.launcher/riseclipse/riseclipse_validator_scl.py:47 | the `%-7s` field keeps the text and pads it with spaces to 7 columns |
| Output.Select | fr.centralesupelec.edf.riseclipse.python.launcher/riseclipse/riseclipse_output.py:58-63 | a severity view keeps exactly the records whose severity belongs to it (how many copies and in which order: `Output.SelectCounts`) |
| Output.SelectCounts | fr.centralesupelec.edf.riseclipse.python.launcher/riseclipse/riseclipse_output.py:58-63 | a view holds each record of its severities as many times as the parsed list does, none of the others, and selecting from a concatenation concatenates the selections, so input order is kept; the other getters (`riseclipse_output.py:58-119`) use the same loop |
| Output.Keep | fr.centralesupelec.edf.riseclipse.python.launcher/riseclipse/riseclipse_output.py:60-62 | a filtering loop keeps exactly the records that pass, and only those |
| Output.KeepAppend | fr.centralesupelec.edf.riseclipse.python.launcher/riseclipse/riseclipse_output.py:60-62 | the filtering loop runs left to right: filtering a concatenation is concatenating the filtered parts, so the kept records stay in input order |
| Output.KeepCounts | fr.centralesupelec.edf.riseclipse.python.launcher/riseclipse/riseclipse_output.py:60-62 | every copy of a passing record is kept and no copy of a failing one |
| Output.KeepNested | fr.centralesupelec.edf.riseclipse.python.launcher/riseclipse/riseclipse_output.py:76-81 | filtering by a wider test and then a narrower one is filtering by the narrower one |
| Output.TiersNest | fr.centralesupelec.edf.riseclipse.python.launcher/riseclipse/riseclipse_output.py:61-171 | the error, warning, notice and info views are strictly nested, each single-severity view lies in its tier, and no view shows DEBUG |
| Output.SelectNested | fr.centralesupelec.edf.riseclipse.python.launcher/riseclipse/riseclipse_output.py:58-119 | narrowing an already selected view is selecting the narrow view directly |
| Output.DocumentedRenderUnselected | fr.centralesupelec.edf.riseclipse.python.launcher/riseclipse/riseclipse_output.py:58-63 | a record parsed from a line in the documented SCL format is in no severity view, since its severity holds a colon |
| Output.Fresh | fr.centralesupelec.edf.riseclipse.python.launcher/riseclipse/riseclipse_output.py:38-45 | a new store has every cache empty and is coherent |
| Output.NewStore | fr.centralesupelec.edf.riseclipse.python.launcher/riseclipse/riseclipse_output.py:38-45 | construction succeeds exactly when parsing does, then starts with the parsed records and nothing cached, and otherwise raises the parser's error |
| Output.WithCache | fr.centralesupelec.edf.riseclipse.python.launcher/riseclipse/riseclipse_output.py:62 | updating one cache list leaves the others and the parsed list alone |
| Output.Get | fr.centralesupelec.edf.riseclipse.python.launcher/riseclipse/riseclipse_output.py:58-63 | on a coherent store a getter returns exactly its view and keeps the store coherent, touching only its own cache; the older revision (`riseclipse_output.py:100-105`) is the same |
| Output.GetIdempotent | fr.centralesupelec.edf.riseclipse.python.launcher/riseclipse/riseclipse_output.py:58-59 | calling a getter twice is the same as calling it once |
| Output.GetIndependent | fr.centralesupelec.edf.riseclipse.python.launcher/riseclipse/riseclipse_output.py:58-119 | calling one getter does not change what another returns |
| Output.GetAsWritten | fr.centralesupelec.edf.riseclipse.python.launcher/riseclipse/riseclipse_output.py:150-155 | the getters as written agree with the intended ones, except `get_only_notices`, and touch only their own cache; the older revision (`riseclipse_output.py:210-215`) is the same |
| Output.OnlyNoticesAccumulates | fr.centralesupelec.edf.riseclipse.python.launcher/riseclipse/riseclipse_output.py:150-155 | as written, a second `get_only_notices` on a store whose `notices` is empty appends the NOTICE records again |
| Output.OnlyNoticesStale | fr.centralesupelec.edf.riseclipse.python.launcher/riseclipse/riseclipse_output.py:150-151 | as written, after `get_notices`, `get_only_notices` returns nothing although NOTICE records exist |
| Output.ByCategory | fr.centralesupelec.edf.riseclipse.python.launcher/riseclipse/riseclipse_output.py:197-200 | keeps exactly the records whose category contains the text; the older revision (`riseclipse_output.py:270-273`) is the same |
| Output.ByData | fr.centralesupelec.edf.riseclipse.python.launcher/riseclipse/riseclipse_output.py:213-216 | keeps exactly the records whose data contains the text |
| Output.ByFilename | fr.centralesupelec.edf.riseclipse.python.launcher/riseclipse/riseclipse_output.py:229-232 | keeps exactly the records with that file name |
| Output.ByLine | fr.centralesupelec.edf.riseclipse.python.launcher/riseclipse/riseclipse_output.py:246-249 | keeps exactly the records whose line text equals the value; an integer never equals the text, so it keeps nothing |
| Output.EmptySubstringKeepsAll | fr.centralesupelec.edf.riseclipse.python.launcher/riseclipse/riseclipse_output.py:198 | the empty text is contained in every category and data, so it keeps every record |
| Output.Field | fr.centralesupelec.edf.riseclipse.python.launcher/riseclipse/riseclipse_output.py:267-269 | a record has exactly the six keys message, category, line, data, filename and severity |
| Output.MatchAll | fr.centralesupelec.edf.riseclipse.python.launcher/riseclipse/riseclipse_output.py:264-269 | the filter accepts a record exactly when every entry accepts it |
| Output.WithFilter | fr.centralesupelec.edf.riseclipse.python.launcher/riseclipse/riseclipse_output.py:261-275 | keeps in order the records every entry accepts; it raises only an error some record's check raises, and never when no check raises; the older revision (`riseclipse_output.py:350-363`) is the same |
| Output.EmptyFilterKeepsAll | fr.centralesupelec.edf.riseclipse.python.launcher/riseclipse/riseclipse_output.py:261-275 | the empty filter keeps every record |
| Output.WellFormedFilterSucceeds | fr.centralesupelec.edf.riseclipse.python.launcher/riseclipse/riseclipse_output.py:261-275 | a filter with known keys and text values for category and data never raises and keeps exactly the matching records |
| Output.MatchAllWellFormed | fr.centralesupelec.edf.riseclipse.python.launcher/riseclipse/riseclipse_output.py:264-269 | checking a record against a well-formed filter never raises |
| Output.UnknownKeyRaises | fr.centralesupelec.edf.riseclipse.python.launcher/riseclipse/riseclipse_output.py:269 | a first filter entry with an unknown key raises `KeyError` for that key on any non-empty list |
| Output.CategoryEntryFilter | fr.centralesupelec.edf.riseclipse.python.launcher/riseclipse/riseclipse_output.py:266-267 | a filter on category alone is the category query |
| Output.DataEntryFilter | fr.centralesupelec.edf.riseclipse.python.launcher/riseclipse/riseclipse_output.py:266-267 | a filter on data alone is the data query |
| Output.FilenameEntryFilter | fr.centralesupelec.edf.riseclipse.python.launcher/riseclipse/riseclipse_output.py:268-269 | a filter on the file name alone is the file-name query |
| Output.LineEntryFilter | fr.centralesupelec.edf.riseclipse.python.launcher/riseclipse/riseclipse_output.py:268-269 | a filter on the line alone is the line query |
| Export.Fields | fr.centralesupelec.edf.riseclipse.python.launcher/riseclipse/riseclipse_output.py:294-302 | a record gives one CSV field for each of the six columns |
| Export.ToCsv | fr.centralesupelec.edf.riseclipse.python.launcher/riseclipse/riseclipse_output.py:288-305 | the CSV text is empty exactly when there are no records; the older revision (`riseclipse_output.py:381-398`) is the same |
| Export.CsvLineIsJoin | fr.centralesupelec.edf.riseclipse.python.launcher/riseclipse/riseclipse_output.py:294-302 | each line is its fields joined on the separator and ended with a newline |
| Export.CsvRowsTerminated | fr.centralesupelec.edf.riseclipse.python.launcher/riseclipse/riseclipse_output.py:298-302 | the data part is each record's joined row followed by a newline |
| Export.RowTexts | fr.centralesupelec.edf.riseclipse.python.launcher/riseclipse/riseclipse_output.py:299-302 | one joined row per record, in order |
| Export.CsvLines | fr.centralesupelec.edf.riseclipse.python.launcher/riseclipse/riseclipse_output.py:292-302 | for a one-character separator, a non-empty export is the header, the rows and a final empty line, joined on newlines |
| Export.DecodeJoinedRow | fr.centralesupelec.edf.riseclipse.python.launcher/riseclipse/riseclipse_output.py:299-302 | a row whose fields avoid the separator and newline decodes back into its record |
| Export.DecodeJoinedRows | fr.centralesupelec.edf.riseclipse.python.launcher/riseclipse/riseclipse_output.py:298-302 | every such row decodes back, giving the records in order |
| Export.CsvRoundTrip | fr.centralesupelec.edf.riseclipse.python.launcher/riseclipse/riseclipse_output.py:288-305 | for a one-character separator that is not a newline and does not occur in the column names, reading the CSV text back gives exactly the records when no field holds the separator or a newline |
| Export.WideSeparatorAmbiguous | fr.centralesupelec.edf.riseclipse.python.launcher/riseclipse/riseclipse_output.py:277-302 | with the two-character separator `aa`, two different records whose fields hold neither the separator nor a newline give the same CSV text |
| Export.ToJson | fr.centralesupelec.edf.riseclipse.python.launcher/riseclipse/riseclipse_output.py:317-322 | the dump's keys are exactly 0 to n-1, key i holds record i, and reading the keys in order gives the list back; the older revision (`riseclipse_output.py:414-419`) is the same |
| Export.ReadFromHeld | fr.centralesupelec.edf.riseclipse.python.launcher/riseclipse/riseclipse_output.py:318-319 | reading keys i to n-1 of a dump holding the list gives the list from i on |
| Options.Position | fr.centralesupelec.edf.riseclipse.python.launcher/riseclipse/riseclipse_validator.py:211 | `index` gives the first position of the flag |
| Options.RemoveAt | fr.centralesupelec.edf.riseclipse.python.launcher/riseclipse/riseclipse_validator.py:234 | `pop(i)` shifts every later word down by one |
| Options.AddOption | fr.centralesupelec.edf.riseclipse.python.launcher/riseclipse/riseclipse_validator.py:209-215 | adding raises `IndexError` exactly when the flag is present as the last word and a value is given, and otherwise leaves the flag present; the older revision (`riseclipse_validator.py:74-81`) is the same |
| Options.AddAbsent | fr.centralesupelec.edf.riseclipse.python.launcher/riseclipse/riseclipse_validator.py:212-215 | an absent flag is appended, followed by its value if there is one |
| Options.AddPresent | fr.centralesupelec.edf.riseclipse.python.launcher/riseclipse/riseclipse_validator.py:209-211 | for a present flag only the word after its first occurrence can change, and it becomes the value |
| Options.AddBindsValue | fr.centralesupelec.edf.riseclipse.python.launcher/riseclipse/riseclipse_validator.py:209-215 | after a successful add with a value, that value follows the flag's first occurrence |
| Options.RemoveOption | fr.centralesupelec.edf.riseclipse.python.launcher/riseclipse/riseclipse_validator.py:232-236 | removing raises `IndexError` exactly when a value is expected after a flag that is the last word, changes nothing for an absent flag, and otherwise takes out one or two words; the older revision (`riseclipse_validator.py:83-88`) is the same |
| Options.ListAfterRemove | fr.centralesupelec.edf.riseclipse.python.launcher/riseclipse/riseclipse_validator.py:232-236 | the list the launcher holds after `remove_option`: the result when the call succeeds, and the list without its last word (the flag, already popped) when the second pop raises `IndexError`; at least one copy of the flag is gone |
| Options.RemoveTakesOut | fr.centralesupelec.edf.riseclipse.python.launcher/riseclipse/riseclipse_validator.py:233-234 | removing a valueless flag takes out exactly one copy of it and keeps the words before it |
| Options.RemoveTakesOutWithValue | fr.centralesupelec.edf.riseclipse.python.launcher/riseclipse/riseclipse_validator.py:233-236 | removing with a value takes out exactly the flag and the word after it |
| Options.AddThenRemove | fr.centralesupelec.edf.riseclipse.python.launcher/riseclipse/riseclipse_validator.py:194-236 | adding an absent flag and removing it again restores the option list |
| Options.AddTwice | fr.centralesupelec.edf.riseclipse.python.launcher/riseclipse/riseclipse_validator.py:209-213 | adding a valueless flag is idempotent |
| Options.AddOnce | fr.centralesupelec.edf.riseclipse.python.launcher/riseclipse/riseclipse_validator.py:212-215 | adding an absent flag leaves exactly one copy of it |
| Options.AddValueTwice | fr.centralesupelec.edf.riseclipse.python.launcher/riseclipse/riseclipse_validator.py:209-215 | setting a valued flag twice leaves the flag once, followed by the second value |
| Options.SetDisplayCopyright | fr.centralesupelec.edf.riseclipse.python.launcher/riseclipse/riseclipse_validator.py:174-177 | showing raises `ValueError` exactly when no suppression flag is present and otherwise removes one copy; hiding appends the flag only if it is absent |
| Options.HideTwice | fr.centralesupelec.edf.riseclipse.python.launcher/riseclipse/riseclipse_validator.py:176-177 | hiding the copyright is idempotent |
| Options.HideThenShow | fr.centralesupelec.edf.riseclipse.python.launcher/riseclipse/riseclipse_validator.py:174-177 | hiding and then showing restores the option list |
| Options.ShowDisplays | fr.centralesupelec.edf.riseclipse.python.launcher/riseclipse/riseclipse_validator.py:174-175 | showing succeeds when the flag is present and shows the copyright exactly when there was one copy |
| Validator.SetOutputLevelAsWritten | fr.centralesupelec.edf.riseclipse.python.launcher/riseclipse/riseclipse_validator.py:90-92 | as written, `set_output_level` always raises `NameError` for `level` |
| Validator.SetOutputLevel | fr.centralesupelec.edf.riseclipse.python.launcher/riseclipse/riseclipse_validator.py:90-92 | one of the five level names is stored as given; anything else changes nothing |
| Validator.SetOutputLevelAsWrittenRefuses | fr.centralesupelec.edf.riseclipse.python.launcher/riseclipse/riseclipse_validator.py:76-92 | for every documented level the code raises where the intended method stores it |
| Validator.SetOutputLevelKeepsValid | fr.centralesupelec.edf.riseclipse.python.launcher/riseclipse/riseclipse_validator.py:57 | the stored level stays one of the five names |
| Validator.SetOutputFormat | fr.centralesupelec.edf.riseclipse.python.launcher/riseclipse/riseclipse_validator.py:120 | stores the format string unchecked and changes nothing else |
| Validator.SetUseColor | fr.centralesupelec.edf.riseclipse.python.launcher/riseclipse/riseclipse_validator.py:146 | stores the colour switch and changes nothing else |
| Validator.AddFile | fr.centralesupelec.edf.riseclipse.python.launcher/riseclipse/riseclipse_validator.py:192 | appends the file and changes nothing else |
| Validator.AddOption | fr.centralesupelec.edf.riseclipse.python.launcher/riseclipse/riseclipse_validator.py:194-215 | edits only the option list, failing exactly when the list edit fails |
| Validator.RemoveOption | fr.centralesupelec.edf.riseclipse.python.launcher/riseclipse/riseclipse_validator.py:217-236 | edits only the option list, failing exactly when the list edit fails |
| Validator.SetDisplayCopyright | fr.centralesupelec.edf.riseclipse.python.launcher/riseclipse/riseclipse_validator.py:159-177 | raises exactly when showing without a suppression flag; afterwards the copyright shows exactly when asked for and the flag occurred once |
| Validator.Extras | fr.centralesupelec.edf.riseclipse.python.launcher/riseclipse/riseclipse_validator.py:257-262 | the format flag and string appear exactly when asked for and the string is not empty, and the colour flag exactly when asked for and enabled |
| Validator.Header | fr.centralesupelec.edf.riseclipse.python.launcher/riseclipse/riseclipse_validator.py:256-262 | the arguments start with the `--`-prefixed level, followed by those flags |
| Validator.ComputeArguments | fr.centralesupelec.edf.riseclipse.python.launcher/riseclipse/riseclipse_validator.py:256-270 | the arguments are the header, the options after the call, and the files; suppressing the copyright stores the flag in the options, which only grow |
| Validator.FilesLast | fr.centralesupelec.edf.riseclipse.python.launcher/riseclipse/riseclipse_validator.py:267-268 | the files come last |
| Validator.OptionsAfterHeader | fr.centralesupelec.edf.riseclipse.python.launcher/riseclipse/riseclipse_validator.py:265-266 | the options follow the header unchanged |
| Validator.AddedFileLast | fr.centralesupelec.edf.riseclipse.python.launcher/riseclipse/riseclipse_validator.py:192 | the last file added is the last argument |
| Validator.LevelArgument | fr.centralesupelec.edf.riseclipse.python.launcher/riseclipse/riseclipse_validator.py:256 | after the corrected `set_output_level`, the first argument is that level with `--` |
| Validator.FormatArgument | fr.centralesupelec.edf.riseclipse.python.launcher/riseclipse/riseclipse_validator.py:257-259 | a non-empty format string is passed right after the level |
| Validator.SuppressionPersists | fr.centralesupelec.edf.riseclipse.python.launcher/riseclipse/riseclipse_validator.py:263-264 | once a call has hidden the copyright, every later call passes the suppression flag, whatever it asks |
| Validator.SuppressionOnce | fr.centralesupelec.edf.riseclipse.python.launcher/riseclipse/riseclipse_validator.py:176-177 | hiding again does not add a second suppression flag |
| Validator.SuppressionIff | fr.centralesupelec.edf.riseclipse.python.launcher/riseclipse/riseclipse_validator.py:263-264 | the options hold the flag afterwards exactly when the call hid the copyright or it was hidden already |
| Validator.ValidateArguments | fr.centralesupelec.edf.riseclipse.python.launcher/riseclipse/riseclipse_validator.py:283 | `validate` passes the level, the options, which now hold the suppression flag, and the files |
| Validator.ValidateOutput | fr.centralesupelec.edf.riseclipse.python.launcher/riseclipse/riseclipse_validator.py:284 | the jar's output becomes a store exactly when each of its non-empty lines parses; the k-th record is then `parse_message` of the k-th non-empty line; otherwise the error is that of the first non-empty line that fails |
| LegacyValidator.SetOutputLevel | fr.centralesupelec.edf.riseclipse.python.launcher/riseclipse_validator.py:44-47 | one of the five names is stored with `--` in front; anything else changes nothing |
| LegacyValidator.SetOutputLevelKeepsValid | fr.centralesupelec.edf.riseclipse.python.launcher/riseclipse_validator.py:33 | the stored level stays one of the five prefixed names |
| LegacyValidator.GetDisplayCopyrightAsWritten | fr.centralesupelec.edf.riseclipse.python.launcher/riseclipse_validator.py:62-63 | as written, reading the switch raises `NameError` for `options` |
| LegacyValidator.SetDisplayCopyrightAsWritten | fr.centralesupelec.edf.riseclipse.python.launcher/riseclipse_validator.py:65-69 | as written, both branches raise `NameError` for `options` |
| LegacyValidator.DisplayCopyrightAsWrittenFails | fr.centralesupelec.edf.riseclipse.python.launcher/riseclipse_validator.py:62-69 | the older accessors fail on every settings record, while the corrected ones answer and hide the banner |
| LegacyValidator.Front | fr.centralesupelec.edf.riseclipse.python.launcher/riseclipse_validator.py:91-99 | the words before the options are the level, then the suppression flag when asked for, then the format pair and the colour flag exactly as `Validator.Extras` gives them |
| LegacyValidator.ComputeArguments | fr.centralesupelec.edf.riseclipse.python.launcher/riseclipse_validator.py:90-105 | the arguments are the stored level, the suppression flag when the copyright is hidden, then at position 1 or 2 the format pair (when used and non-empty) and the colour flag (when asked for and enabled), then the options and the files, and nothing else |
| LegacyValidator.FormatArgument | fr.centralesupelec.edf.riseclipse.python.launcher/riseclipse_validator.py:94-96 | a non-empty format string is passed right after the level and the suppression flag, as `--format-string` followed by the string |
| LegacyValidator.RevisionsPassSameWords | fr.centralesupelec.edf.riseclipse.python.launcher/riseclipse_validator.py:90-105 | for the same settings with no suppression flag yet, both revisions pass the same words and differ only in order |
| LegacyValidator.ValidateArguments | fr.centralesupelec.edf.riseclipse.python.launcher/riseclipse_validator.py:110 | `validate` passes the level, the suppression flag, the options and the files |
| Scl.Flag | fr.centralesupelec.edf.riseclipse.python.launcher/riseclipse_validator_scl.py:37-65 | no switch uses the `--xml-schema` flag |
| Scl.FlagsDistinct | fr.centralesupelec.edf.riseclipse.python.launcher/riseclipse_validator_scl.py:37-65 | different switches use different flags |
| Scl.Set | fr.centralesupelec.edf.riseclipse.python.launcher/riseclipse_validator_scl.py:37-38 | setting turns the switch on, changes only the options, and changes nothing when it is already on |
| Scl.Unset | fr.centralesupelec.edf.riseclipse.python.launcher/riseclipse_validator_scl.py:40-41 | unsetting takes out one copy of the flag, and changes nothing when it is absent |
| Scl.SetXmlSchema | fr.centralesupelec.edf.riseclipse.python.launcher/riseclipse_validator_scl.py:43-44 | raises exactly when `--xml-schema` is the last option, and otherwise binds the path after the flag |
| Scl.UnsetXmlSchema | fr.centralesupelec.edf.riseclipse.python.launcher/riseclipse_validator_scl.py:46-47 | raises exactly when `--xml-schema` is the last option, and changes nothing without a schema |
| Scl.New | fr.centralesupelec.edf.riseclipse.python.launcher/riseclipse_validator_scl.py:32-35 | a new SCL launcher has exactly explicit links as its option and the base settings otherwise |
| Scl.LegacyDefaults | fr.centralesupelec.edf.riseclipse.python.launcher/riseclipse_validator_scl.py:32-35 | the older launcher starts with explicit links on and the older base defaults |
| Scl.PackageNewAsWritten | fr.centralesupelec.edf.riseclipse.python.launcher/riseclipse/riseclipse_validator_scl.py:57-59 | as written, construction raises `AttributeError` for `_add_option` |
| Scl.SetAsWritten | fr.centralesupelec.edf.riseclipse.python.launcher/riseclipse/riseclipse_validator_scl.py:65 | as written, every set method raises `AttributeError` |
| Scl.UnsetAsWritten | fr.centralesupelec.edf.riseclipse.python.launcher/riseclipse/riseclipse_validator_scl.py:71 | as written, every unset method raises `AttributeError`, and only the explicit-links one names the mangled `__remove_option` |
| Scl.SetXmlSchemaAsWritten | fr.centralesupelec.edf.riseclipse.python.launcher/riseclipse/riseclipse_validator_scl.py:80 | as written, `set_xml_schema` raises `AttributeError` |
| Scl.UnsetXmlSchemaAsWritten | fr.centralesupelec.edf.riseclipse.python.launcher/riseclipse/riseclipse_validator_scl.py:86 | as written, `unset_xml_schema` raises `AttributeError` |
| Scl.PackageMethodsFail | fr.centralesupelec.edf.riseclipse.python.launcher/riseclipse/riseclipse_validator_scl.py:57-122 | every package method fails as written, on a launcher where the intended one succeeds |
| Scl.PackageDefaults | fr.centralesupelec.edf.riseclipse.python.launcher/riseclipse/riseclipse_validator_scl.py:45-54 | the intended constructor gives the documented level, colour, copyright and switches, but an empty format string instead of the documented one |
| Scl.SetTwice | fr.centralesupelec.edf.riseclipse.python.launcher/riseclipse_validator_scl.py:37-38 | setting twice is setting once, which leaves exactly one flag |
| Scl.SetThenUnset | fr.centralesupelec.edf.riseclipse.python.launcher/riseclipse_validator_scl.py:37-41 | setting an off switch and unsetting it restores the settings |
| Scl.UnsetDisables | fr.centralesupelec.edf.riseclipse.python.launcher/riseclipse_validator_scl.py:40-41 | unsetting a switch whose flag occurs at most once turns it off |
| Scl.SetIndependent | fr.centralesupelec.edf.riseclipse.python.launcher/riseclipse_validator_scl.py:37-65 | setting one switch leaves the others as they were |
| Scl.UnsetIndependent | fr.centralesupelec.edf.riseclipse.python.launcher/riseclipse_validator_scl.py:37-65 | unsetting one switch leaves the others as they were |
| Scl.XmlSchemaTwice | fr.centralesupelec.edf.riseclipse.python.launcher/riseclipse_validator_scl.py:43-44 | setting the schema twice leaves one flag followed by the second path |
| Scl.XmlSchemaSetThenUnset | fr.centralesupelec.edf.riseclipse.python.launcher/riseclipse_validator_scl.py:43-47 | unsetting a schema just set restores the settings |
| Versions.ParseInts | fr.centralesupelec.edf.riseclipse.python.launcher/riseclipse/riseclipse_validator.py:344-345 | the loop succeeds exactly when every part is an integer, and gives each part's value |
| Versions.Components | fr.centralesupelec.edf.riseclipse.python.launcher/riseclipse/riseclipse_validator_scl.py:153 | each component is written with `'%d'` |
| Versions.VersionTextIsWord | fr.centralesupelec.edf.riseclipse.python.launcher/riseclipse/riseclipse_validator.py:342 | a dotted version is a single whitespace-free word |
| Versions.VersionRoundTrip | fr.centralesupelec.edf.riseclipse.python.launcher/riseclipse/riseclipse_validator_scl.py:156-158 | reading a dotted version text gives the version back |
| Versions.TripleText | fr.centralesupelec.edf.riseclipse.python.launcher/riseclipse/riseclipse_validator_scl.py:153 | `'%d.%d.%d'` raises `IndexError` exactly when the version has fewer than three components |
| Versions.TripleTextRoundTrip | fr.centralesupelec.edf.riseclipse.python.launcher/riseclipse/riseclipse_validator_scl.py:153-158 | reading the three-part text gives back the first three components |
| Versions.TripleTextLayout | fr.centralesupelec.edf.riseclipse.python.launcher/riseclipse/riseclipse_download.py:100 | the three-part text is the three numbers with dots between them |
| Versions.LexLessIff | fr.centralesupelec.edf.riseclipse.python.launcher/riseclipse/riseclipse_validator_scl.py:140 | list `<` holds exactly when a common prefix is followed by a smaller element or by the end of the first list |
| Versions.LexTrichotomy | fr.centralesupelec.edf.riseclipse.python.launcher/riseclipse/riseclipse_validator_scl.py:140-143 | of `<`, `==` and `>` exactly one holds |
| Versions.LexTransitive | fr.centralesupelec.edf.riseclipse.python.launcher/riseclipse/riseclipse_validator_scl.py:140 | list `<` is transitive |
| Versions.UpdateCheck | fr.centralesupelec.edf.riseclipse.python.launcher/riseclipse/riseclipse_validator_scl.py:136-144 | the check raises `IndexError` exactly when a version it prints has fewer than three parts and `TypeError` exactly when the latest version is unknown; otherwise it first prints the current version; the older revision (`riseclipse_validator_scl.py:78-87`) is the same |
| Versions.UpdateCheckVerdict | fr.centralesupelec.edf.riseclipse.python.launcher/riseclipse/riseclipse_validator_scl.py:138-144 | the newer-version lines appear exactly when the latest is greater, the latest-note exactly when they are equal, and only the current version when it is greater |
| Versions.VersionFromLine | fr.centralesupelec.edf.riseclipse.python.launcher/riseclipse/riseclipse_validator.py:340-345 | reading the version after `version: ` raises only `IndexError` or `ValueError`, and `IndexError` exactly when only whitespace follows |
| Versions.LeadingVersion | fr.centralesupelec.edf.riseclipse.python.launcher/riseclipse/riseclipse_validator.py:342-345 | raises `IndexError` exactly for an all-whitespace text; otherwise the version has at least one component |
| Versions.LeadingVersionOf | fr.centralesupelec.edf.riseclipse.python.launcher/riseclipse/riseclipse_validator.py:342-345 | a dotted version followed by the end or whitespace is read back |
| Versions.NoWordsIffSpace | fr.centralesupelec.edf.riseclipse.python.launcher/riseclipse/riseclipse_validator.py:342 | `split()` gives no word exactly when the text is all whitespace |
| Versions.FindMarker | fr.centralesupelec.edf.riseclipse.python.launcher/riseclipse/riseclipse_validator.py:340-341 | the slice after the first `version: ` is what follows it |
| Versions.VersionFromLineRoundTrip | fr.centralesupelec.edf.riseclipse.python.launcher/riseclipse/riseclipse_validator.py:340-345 | a line holding `version: ` then a dotted version gives that version |
| Versions.VersionFromHelp | fr.centralesupelec.edf.riseclipse.python.launcher/riseclipse/riseclipse_validator.py:339-346 | `get_current_version` raises only `IndexError` or `ValueError`, and `IndexError` when the help text has 16 lines or fewer; the older revision (`riseclipse_validator.py:128-136`) is the same |
| Versions.HelpLine | fr.centralesupelec.edf.riseclipse.python.launcher/riseclipse/riseclipse_validator.py:339 | line 16 of the help text, counting from 0, is the line after the first sixteen |
| Versions.VersionFromHelpRoundTrip | fr.centralesupelec.edf.riseclipse.python.launcher/riseclipse/riseclipse_validator.py:339-346 | a help text whose line 16 carries `version: ` and a dotted version gives that version |
| Download.FirstIndex | fr.centralesupelec.edf.riseclipse.python.launcher/riseclipse/riseclipse_download.py:61-65 | a `for … break` scan stops at the first element that passes, or at the end |
| Download.TitleLine | fr.centralesupelec.edf.riseclipse.python.launcher/riseclipse/riseclipse_download.py:60-68 | no title exactly when no stripped line starts with `<title>`, and otherwise the first such line, stripped |
| Download.TitleLineAt | fr.centralesupelec.edf.riseclipse.python.launcher/riseclipse/riseclipse_download.py:61-65 | the title is the first line that holds one |
| Download.TitleAfterPadding | fr.centralesupelec.edf.riseclipse.python.launcher/riseclipse/riseclipse_download.py:62 | stripping the leading ASCII whitespace of a padded title line gives the title |
| Download.ReleaseTitleIsTitle | fr.centralesupelec.edf.riseclipse.python.launcher/riseclipse/riseclipse_download.py:63-71 | a release title passes both the title test and the release-prefix test |
| Download.VersionFromTitle | fr.centralesupelec.edf.riseclipse.python.launcher/riseclipse/riseclipse_download.py:70-78 | no version when the title lacks the release prefix; otherwise raises only `IndexError` or `ValueError`, or gives a non-empty version |
| Download.VersionFromReleaseTitle | fr.centralesupelec.edf.riseclipse.python.launcher/riseclipse/riseclipse_download.py:70-78 | a release title with a dotted version gives that version |
| Download.LatestVersion | fr.centralesupelec.edf.riseclipse.python.launcher/riseclipse/riseclipse_download.py:49-78 | no version when the page cannot be fetched or has no title, otherwise the version its title names; the older revision (`riseclipse_download.py:29-58`) is the same |
| Download.LatestVersionRoundTrip | fr.centralesupelec.edf.riseclipse.python.launcher/riseclipse/riseclipse_download.py:60-78 | a page whose first title line names a release version gives that version |
| Download.DownloadUrl | fr.centralesupelec.edf.riseclipse.python.launcher/riseclipse/riseclipse_download.py:100-102 | building the URL raises `IndexError` exactly for fewer than three components; the older revision (`riseclipse_download.py:61-63`) is the same |
| Download.DownloadUrlLayout | fr.centralesupelec.edf.riseclipse.python.launcher/riseclipse/riseclipse_download.py:100-102 | the URL names the release tag and the jar, and the version text in it reads back as the first three components |

## Findings

| source | as written | input that shows it | evidently intended | confidence | as-written member | corrected member |
|---|---|---|---|---|---|---|
| fr.centralesupelec.edf.riseclipse.python.launcher/riseclipse/riseclipse_output.py:150-151 | `get_only_notices` checks whether `notices` is empty instead of checking `only_notices` | one NOTICE record. After `get_notices()`, `get_only_notices()` returns `[]`. Without it, two calls return the record twice (`Output.OnlyNoticesStale`, `Output.OnlyNoticesAccumulates`) | each getter tests its own cache, as the other six do | high, not executed | Output.GetAsWritten | Output.Get |
| fr.centralesupelec.edf.riseclipse.python.launcher/riseclipse/riseclipse_validator.py:90-92 | `set_output_level(new_level)` matches on `level`, a name that is not defined | `set_output_level("info")` raises `NameError` (`Validator.SetOutputLevelAsWrittenRefuses`) | match on `new_level` and store it | high, not executed | Validator.SetOutputLevelAsWritten | Validator.SetOutputLevel |
| fr.centralesupelec.edf.riseclipse.python.launcher/riseclipse_validator.py:62-69 | the copyright accessors read the bare name `options`, which is not defined | `get_display_copyright()` on any launcher raises `NameError` (`LegacyValidator.DisplayCopyrightAsWrittenFails`) | read `self.options`, as the package revision does | high, not executed | LegacyValidator.SetDisplayCopyrightAsWritten | Validator.SetDisplayCopyright |
| fr.centralesupelec.edf.riseclipse.python.launcher/riseclipse/riseclipse_validator_scl.py:57-59 | the constructor calls `self._add_option`, which the base class does not define | `RiseClipseValidatorSCL()` raises `AttributeError` (`Scl.PackageMethodsFail`) | call `add_option`, as the older revision does | high, not executed | Scl.PackageNewAsWritten | Scl.New |
| fr.centralesupelec.edf.riseclipse.python.launcher/riseclipse/riseclipse_validator_scl.py:65-122 | the switch methods call `_add_option`, `_remove_option` and `__remove_option`, which the base class does not define | `set_display_nsd_messages()` raises `AttributeError` (`Scl.PackageMethodsFail`) | call `add_option` and `remove_option` | high, not executed | Scl.SetAsWritten | Scl.Set |

## Left out

- Running the jar (`java_runner.py`, `run`) is not modelled. The help text and the standard output become parameters of `Versions.VersionFromHelp` and `Validator.ValidateOutput`.
- Network access is not modelled: `urlopen`, `urlretrieve` and their `HTTPError`/`URLError` branches. A page that cannot be fetched is `None`, and a fetched page is its list of lines. The download itself is left out, and only its URL is modelled.
- Writing files (`to_csv`, `to_json`, `validate_to_txt`), `json.dump` and `print` are left out. The printed lines of the update check are returned as a list.
- `validate_to_str`, `validate_to_stdout` and `validate_to_txt` only run the jar with `compute_arguments` at its defaults; those arguments are `Validator.ComputeArguments`.
- `to_dataframe` is left out; it builds a pandas table.
- The `__main__` entry points' argument count, `Path.exists` and `exit` are left out; the update check and the version parsing they perform are modelled.
- Accessors that only return a field (`get_output_level`, `get_output_format`, `get_use_color`, `get_parsed_messages`, `get_all_messages`) are not modelled separately; the field is the answer.
- The caches are Python lists that the getters return by reference; the model returns values, so a caller mutating the returned list is not modelled.
- Both copies of `riseclipse_parser.py` are identical and are one model. The two revisions of `riseclipse_output.py` differ only in documentation and type hints and share one model.
- `test_riseclipse.py` is a usage script, not part of the launcher's logic.
- PyStr.ParseInt: digits outside ASCII, which Python's `int()` also accepts, are not modelled.
- Decoding the page's bytes as UTF-8 is the identity here, and decoding errors are not modelled.
- Parser.ParseMessage: its ensures states only that the message is kept; the fields are stated by Parser.ParseMessageFields, Parser.ParseMessageFailure and Parser.ParseRender.
- Export.CsvRoundTrip: proved only for a one-character separator that is not a newline and is absent from the column names, with no field holding the separator or a newline, because the source does no quoting; Export.CsvLines likewise covers only one-character separators. Separators of several characters, which `to_csv` accepts, are not covered, and Export.WideSeparatorAmbiguous shows the round trip can fail for them.
- Options.RemoveOption: its `Failure(IndexError)` does not carry the option list, which the Python code has already changed by popping the flag before the second pop raises; Options.ListAfterRemove states that list.
- Validator.RemoveOption: on `IndexError` the model returns no settings, while the launcher keeps its option list without the popped flag, as Options.ListAfterRemove states.
- Scl.UnsetXmlSchema: on `IndexError` (the flag is the last word) the model returns no settings, while the launcher keeps its option list without the popped flag, as Options.ListAfterRemove states.
- Parser.SearchSpan: the regular expression is modelled by its leftmost-longest span, not by a general regular-expression engine.
