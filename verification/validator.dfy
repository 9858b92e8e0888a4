/**
 * The package revision of the validator launcher (`riseclipse/riseclipse_validator.py`):
 * its settings, the option-list edits it exposes, and the command line it assembles.
 * Running the Java tool is not modelled; the argument list is what it would receive.
 */
module Validator {
  import opened Wrappers
  import Options
  import PyStr
  import Parser
  import Output

  /** The output levels the tool accepts. */
  const Levels: set<string> := {"debug", "info", "notice", "warning", "error"}

  /** A launcher's settings: the option list, the level (stored unprefixed), the format string, the colour switch and the files. */
  datatype Config = Config(options: seq<string>, level: string, format: string, useColor: bool, files: seq<string>)

  /** The settings right after construction. */
  const Initial: Config := Config([], "warning", "", false, [])

  /**
   * `set_output_level` as written: the `match` reads the name `level`, which is neither a
   * parameter nor a global, so every call raises `NameError` before any case is tried.
   */
  function SetOutputLevelAsWritten(c: Config, newLevel: string): (r: Result<Config, Exception>)
    ensures r.Failure? && r.error == NameError("level")
  {
    Failure(NameError("level"))
  }

  /** `set_output_level` as documented: one of the five level names replaces the level; anything else is ignored. */
  function SetOutputLevel(c: Config, newLevel: string): (r: Config)
    ensures r.(level := c.level) == c
    ensures newLevel in Levels ==> r.level == newLevel
    ensures newLevel !in Levels ==> r == c
  {
    if newLevel in Levels then c.(level := newLevel) else c
  }

  /** Even a documented level name is refused by the code as written, while the intended setter takes it. */
  lemma SetOutputLevelAsWrittenRefuses(c: Config, newLevel: string)
    requires newLevel in Levels
    ensures SetOutputLevelAsWritten(c, newLevel).Failure?
    ensures SetOutputLevel(c, newLevel).level == newLevel
  {
  }

  /** The intended setter keeps the level among the five names. */
  lemma SetOutputLevelKeepsValid(c: Config, newLevel: string)
    requires c.level in Levels
    ensures SetOutputLevel(c, newLevel).level in Levels
  {
  }

  /** `set_output_format`: not checked. */
  function SetOutputFormat(c: Config, format: string): (r: Config)
    ensures r.(format := c.format) == c && r.format == format
  {
    c.(format := format)
  }

  /** `set_use_color`. */
  function SetUseColor(c: Config, use: bool): (r: Config)
    ensures r.(useColor := c.useColor) == c && r.useColor == use
  {
    c.(useColor := use)
  }

  /** `add_file`: the file goes after those already added. */
  function AddFile(c: Config, file: string): (r: Config)
    ensures r.(files := c.files) == c
    ensures |r.files| == |c.files| + 1 && r.files[..|c.files|] == c.files && r.files[|c.files|] == file
  {
    assert (c.files + [file])[..|c.files|] == c.files;
    c.(files := c.files + [file])
  }

  /** `add_option` on the launcher's option list; nothing but the option list changes. */
  function AddOption(c: Config, flag: string, value: Option<string>): (r: Result<Config, Exception>)
    ensures r.Success? <==> Options.AddOption(c.options, flag, value).Success?
    ensures r.Success? ==> r.value.(options := c.options) == c
    ensures r.Success? ==> r.value.options == Options.AddOption(c.options, flag, value).value
  {
    match Options.AddOption(c.options, flag, value)
    case Success(opts) => Success(c.(options := opts))
    case Failure(e) => Failure(e)
  }

  /** `remove_option` on the launcher's option list; nothing but the option list changes. */
  function RemoveOption(c: Config, flag: string, hasValue: bool): (r: Result<Config, Exception>)
    ensures r.Success? <==> Options.RemoveOption(c.options, flag, hasValue).Success?
    ensures r.Success? ==> r.value.(options := c.options) == c
    ensures r.Success? ==> r.value.options == Options.RemoveOption(c.options, flag, hasValue).value
  {
    match Options.RemoveOption(c.options, flag, hasValue)
    case Success(opts) => Success(c.(options := opts))
    case Failure(e) => Failure(e)
  }

  /** `set_display_copyright` on the launcher's option list; nothing but the option list changes. */
  function SetDisplayCopyright(c: Config, display: bool): (r: Result<Config, Exception>)
    ensures r.Failure? <==> display && Options.DisplaysCopyright(c.options)
    ensures r.Success? ==> r.value.(options := c.options) == c
    ensures r.Success? ==> Options.DisplaysCopyright(r.value.options) == (display && multiset(c.options)[Options.DoNotDisplayCopyright] == 1)
  {
    match Options.SetDisplayCopyright(c.options, display)
    case Success(opts) =>
      assert display ==> (Options.DisplaysCopyright(opts) <==> multiset(c.options)[Options.DoNotDisplayCopyright] == 1) by {
        if display {
          Options.ShowDisplays(c.options);
        }
      }
      Success(c.(options := opts))
    case Failure(e) => Failure(e)
  }

  /**
   * The optional words after the level: the format flag and string when the format is
   * used and not empty, then the colour flag when colour is asked for and enabled.
   */
  function Extras(c: Config, useFormat: bool, setColor: bool): (r: seq<string>)
    ensures var withFormat := useFormat && c.format != "";
            var withColor := setColor && c.useColor;
            && |r| == (if withFormat then 2 else 0) + (if withColor then 1 else 0)
            && (withFormat ==> r[0] == "--format-string" && r[1] == c.format)
            && (withColor ==> r[|r| - 1] == "--use-color")
  {
    (if useFormat && c.format != "" then ["--format-string", c.format] else [])
    + (if setColor && c.useColor then ["--use-color"] else [])
  }

  /** The words placed before the options: the prefixed level, then the extras. */
  function Header(c: Config, useFormat: bool, setColor: bool): (r: seq<string>)
    ensures |r| == 1 + |Extras(c, useFormat, setColor)| && r[0] == "--" + c.level
    ensures r[1..] == Extras(c, useFormat, setColor)
  {
    ["--" + c.level] + Extras(c, useFormat, setColor)
  }

  /**
   * `compute_arguments(display_copyright, use_format, set_color)`: the header, then the
   * options, then the files. When the copyright is not to be displayed, the suppression
   * flag is first added to the launcher's own option list (once), so the returned
   * settings carry it into every later call.
   */
  function ComputeArguments(c: Config, displayCopyright: bool, useFormat: bool, setColor: bool): (r: (Config, seq<string>))
    ensures r.0.(options := c.options) == c
    ensures r.1 == Header(c, useFormat, setColor) + r.0.options + c.files
    ensures displayCopyright ==> r.0 == c
    ensures !displayCopyright ==> !Options.DisplaysCopyright(r.0.options)
    ensures |c.options| <= |r.0.options| && r.0.options[..|c.options|] == c.options
  {
    var opts := if displayCopyright then c.options else Options.SetDisplayCopyright(c.options, false).value;
    (c.(options := opts), Header(c, useFormat, setColor) + opts + c.files)
  }

  /** The files always come last, in the order they were added. */
  lemma FilesLast(c: Config, displayCopyright: bool, useFormat: bool, setColor: bool)
    ensures var args := ComputeArguments(c, displayCopyright, useFormat, setColor).1;
            |c.files| <= |args| && args[|args| - |c.files|..] == c.files
  {
    var r := ComputeArguments(c, displayCopyright, useFormat, setColor);
    assert r.1 == (Header(c, useFormat, setColor) + r.0.options) + c.files;
  }

  /** The options come right after the header, in order. */
  lemma OptionsAfterHeader(c: Config, useFormat: bool, setColor: bool)
    ensures var args := ComputeArguments(c, true, useFormat, setColor).1;
            var h := |Header(c, useFormat, setColor)|;
            h + |c.options| <= |args| && args[h..h + |c.options|] == c.options
  {
    var args := ComputeArguments(c, true, useFormat, setColor).1;
    var h := Header(c, useFormat, setColor);
    assert args == h + c.options + c.files;
    assert args[|h|..|h| + |c.options|] == c.options;
  }

  /** A newly added file is the last argument. */
  lemma AddedFileLast(c: Config, file: string, displayCopyright: bool, useFormat: bool, setColor: bool)
    ensures var args := ComputeArguments(AddFile(c, file), displayCopyright, useFormat, setColor).1;
            |args| > 0 && args[|args| - 1] == file
  {
    FilesLast(AddFile(c, file), displayCopyright, useFormat, setColor);
  }

  /** A level set through the intended setter is the first argument, prefixed with `--`. */
  lemma LevelArgument(c: Config, level: string, displayCopyright: bool, useFormat: bool, setColor: bool)
    requires level in Levels
    ensures ComputeArguments(SetOutputLevel(c, level), displayCopyright, useFormat, setColor).1[0] == "--" + level
  {
  }

  /** A non-empty format string that is used follows the level as `--format-string <format>`. */
  lemma FormatArgument(c: Config, format: string, displayCopyright: bool, setColor: bool)
    requires format != ""
    ensures var args := ComputeArguments(SetOutputFormat(c, format), displayCopyright, true, setColor).1;
            |args| >= 3 && args[1] == "--format-string" && args[2] == format
  {
  }

  /** After a call that hides the copyright, every later call still passes the suppression flag. */
  lemma SuppressionPersists(c: Config, useFormat: bool, setColor: bool, display: bool, useFormat2: bool, setColor2: bool)
    ensures var c1 := ComputeArguments(c, false, useFormat, setColor).0;
            Options.DoNotDisplayCopyright in ComputeArguments(c1, display, useFormat2, setColor2).1
  {
    var c1 := ComputeArguments(c, false, useFormat, setColor).0;
    var r := ComputeArguments(c1, display, useFormat2, setColor2);
    var h := Header(c1, useFormat2, setColor2);
    var i := Options.Position(c1.options, Options.DoNotDisplayCopyright);
    assert r.1[|h| + i] == Options.DoNotDisplayCopyright;
  }

  /** Hiding the copyright again does not add a second suppression flag. */
  lemma SuppressionOnce(c: Config, useFormat: bool, setColor: bool, useFormat2: bool, setColor2: bool)
    ensures var c1 := ComputeArguments(c, false, useFormat, setColor).0;
            ComputeArguments(c1, false, useFormat2, setColor2).0 == c1
  {
  }

  /** The suppression flag ends up in the option list exactly when it was asked for or already there. */
  lemma SuppressionIff(c: Config, displayCopyright: bool, useFormat: bool, setColor: bool)
    ensures var r := ComputeArguments(c, displayCopyright, useFormat, setColor).0;
            Options.DoNotDisplayCopyright in r.options <==> !displayCopyright || Options.DoNotDisplayCopyright in c.options
  {
    var r := ComputeArguments(c, displayCopyright, useFormat, setColor).0;
    if Options.DoNotDisplayCopyright in c.options {
      var i := Options.Position(c.options, Options.DoNotDisplayCopyright);
      assert r.options[..|c.options|][i] == Options.DoNotDisplayCopyright;
    }
  }

  /**
   * `validate` builds its arguments without the format string and without colour, and
   * hides the copyright: the level, then the options with the suppression flag, then the files.
   */
  function ValidateArguments(c: Config): (r: (Config, seq<string>))
    ensures r.1 == ["--" + c.level] + r.0.options + c.files
    ensures Options.DoNotDisplayCopyright in r.0.options
  {
    ComputeArguments(c, false, false, false)
  }

  /**
   * What `validate` does with the tool's standard output: split it on newlines and build a
   * message store from the lines, which skips the empty ones and parses every other one.
   */
  function ValidateOutput(stdout: string): (r: Result<Output.Store, Parser.ParseError>)
    ensures r.Success? <==> forall x :: x in PyStr.Split(stdout, '\n') && |x| > 0 ==> Parser.ParseMessage(x).Success?
    ensures r.Success? ==> |r.value.parsed| == |Parser.NonEmptyLines(PyStr.Split(stdout, '\n'))|
    ensures r.Success? ==> forall k :: 0 <= k < |r.value.parsed| ==>
              Parser.ParseMessage(Parser.NonEmptyLines(PyStr.Split(stdout, '\n'))[k]) == Success(r.value.parsed[k])
    ensures r.Success? ==> forall k :: 0 <= k < |r.value.parsed| ==> r.value.parsed[k].message == Parser.NonEmptyLines(PyStr.Split(stdout, '\n'))[k]
    ensures r.Failure? ==>
              var lines := Parser.NonEmptyLines(PyStr.Split(stdout, '\n'));
              exists k :: && 0 <= k < |lines|
                          && Parser.ParseMessage(lines[k]) == Failure(r.error)
                          && forall p :: 0 <= p < k ==> Parser.ParseMessage(lines[p]).Success?
  {
    var lines := PyStr.Split(stdout, '\n');
    assert (forall k :: 0 <= k < |lines| && |lines[k]| > 0 ==> Parser.ParseMessage(lines[k]).Success?)
       <==> (forall x :: x in lines && |x| > 0 ==> Parser.ParseMessage(x).Success?);
    var r := Output.NewStore(Some(lines));
    if r.Failure? then
      assert Parser.ParseLines(lines) == Failure(r.error);
      var kept := Parser.NonEmptyLines(lines);
      var k :| 0 <= k < |kept| && Parser.ParseMessage(kept[k]) == Failure(r.error)
               && forall p :: 0 <= p < k ==> Parser.ParseMessage(kept[p]).Success?;
      assert kept == Parser.NonEmptyLines(PyStr.Split(stdout, '\n'));
      assert 0 <= k < |kept| && Parser.ParseMessage(kept[k]) == Failure(r.error);
      r
    else r
  }
}
