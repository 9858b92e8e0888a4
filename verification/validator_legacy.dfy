/**
 * The older revision of the validator launcher (`riseclipse_validator.py` at the top
 * level). It shares the settings record and the option-list edits with the package
 * revision, but stores the level with its `--` prefix, puts the copyright-suppression
 * flag right after the level without touching the option list, and its copyright
 * accessors refer to an undefined name.
 */
module LegacyValidator {
  import opened Wrappers
  import Options
  import Validator

  type Config = Validator.Config

  /** The settings right after construction: the level is stored already prefixed. */
  const Initial: Config := Validator.Config([], "--warning", "", false, [])

  /** `set_output_level`: one of the five level names is stored with its `--` prefix; anything else is ignored. */
  function SetOutputLevel(c: Config, level: string): (r: Config)
    ensures r.(level := c.level) == c
    ensures level in Validator.Levels ==> r.level == "--" + level
    ensures level !in Validator.Levels ==> r == c
  {
    if level in Validator.Levels then c.(level := "--" + level) else c
  }

  /** The stored level stays one of the five prefixed names. */
  lemma SetOutputLevelKeepsValid(c: Config, level: string)
    requires exists l :: l in Validator.Levels && c.level == "--" + l
    ensures exists l :: l in Validator.Levels && SetOutputLevel(c, level).level == "--" + l
  {
  }

  /** `get_display_copyright` as written: it reads the undefined name `options` and raises `NameError`. */
  function GetDisplayCopyrightAsWritten(c: Config): (r: Result<bool, Exception>)
    ensures r.Failure? && r.error == NameError("options")
  {
    Failure(NameError("options"))
  }

  /**
   * `set_display_copyright` as written: showing the banner calls `options.remove` and hiding
   * it calls `get_display_copyright`, so both branches raise `NameError` for `options`.
   */
  function SetDisplayCopyrightAsWritten(c: Config, display: bool): (r: Result<Config, Exception>)
    ensures r.Failure? && r.error == NameError("options")
  {
    if display then Failure(NameError("options"))
    else match GetDisplayCopyrightAsWritten(c)
      case Failure(e) => Failure(e)
      case Success(shown) =>
        if shown then Success(c.(options := c.options + [Options.DoNotDisplayCopyright])) else Success(c)
  }

  /**
   * The accessors as written fail on every settings record, whereas reading `self.options`,
   * as the package revision does, answers and hides the banner.
   */
  lemma DisplayCopyrightAsWrittenFails(c: Config)
    ensures GetDisplayCopyrightAsWritten(c).Failure? && SetDisplayCopyrightAsWritten(c, false).Failure?
    ensures Validator.SetDisplayCopyright(c, false).Success?
    ensures !Options.DisplaysCopyright(Validator.SetDisplayCopyright(c, false).value.options)
  {
  }

  /**
   * The words placed before the options: the stored level, the suppression flag when the
   * copyright is not displayed, then the format and colour words.
   */
  function Front(c: Config, displayCopyright: bool, useFormat: bool, setColor: bool): (r: seq<string>)
    ensures var s := if displayCopyright then 1 else 2;
            var e := Validator.Extras(c, useFormat, setColor);
            && |r| == s + |e| && r[0] == c.level
            && (!displayCopyright ==> r[1] == Options.DoNotDisplayCopyright)
            && r[s..] == e
  {
    var front := [c.level] + (if displayCopyright then [] else [Options.DoNotDisplayCopyright]);
    assert (front + Validator.Extras(c, useFormat, setColor))[|front|..] == Validator.Extras(c, useFormat, setColor);
    front + Validator.Extras(c, useFormat, setColor)
  }

  /**
   * `compute_arguments(display_copyright, use_format, set_color)`: the stored level, the
   * suppression flag when the copyright is not displayed, the format flag and string when
   * used and not empty, the colour flag when asked for and enabled, then the options and
   * the files. Nothing is stored.
   */
  function ComputeArguments(c: Config, displayCopyright: bool, useFormat: bool, setColor: bool): (r: seq<string>)
    ensures var s := if displayCopyright then 1 else 2;
            var e := Validator.Extras(c, useFormat, setColor);
            && |r| == s + |e| + |c.options| + |c.files|
            && r[0] == c.level
            && (!displayCopyright ==> r[1] == Options.DoNotDisplayCopyright)
            && r[s..s + |e|] == e
            && r[s + |e|..] == c.options + c.files
  {
    var front := Front(c, displayCopyright, useFormat, setColor);
    assert (front + (c.options + c.files))[|front|..] == c.options + c.files;
    assert (front + (c.options + c.files))[..|front|] == front;
    assert front + c.options + c.files == front + (c.options + c.files);
    front + c.options + c.files
  }

  /**
   * A format set to a non-empty string is passed, as its flag and the string, right after
   * the level and the suppression flag.
   */
  lemma FormatArgument(c: Config, format: string, displayCopyright: bool, setColor: bool)
    requires format != ""
    ensures var s := if displayCopyright then 1 else 2;
            var args := ComputeArguments(Validator.SetOutputFormat(c, format), displayCopyright, true, setColor);
            |args| >= s + 2 && args[s] == "--format-string" && args[s + 1] == format
  {
    var c1 := Validator.SetOutputFormat(c, format);
    var s := if displayCopyright then 1 else 2;
    var e := Validator.Extras(c1, true, setColor);
    var args := ComputeArguments(c1, displayCopyright, true, setColor);
    assert args[s..s + |e|][0] == e[0] && args[s..s + |e|][1] == e[1];
  }

  /** Moving a block of words elsewhere in a list keeps its contents. */
  lemma Rearranged(older: seq<string>, newer: seq<string>,
                    level: seq<string>, suppress: seq<string>, rest: seq<string>, options: seq<string>, files: seq<string>)
    requires older == level + (suppress + rest) + options + files
    requires newer == level + rest + (options + suppress) + files
    ensures multiset(older) == multiset(newer)
  {
  }

  /**
   * Both revisions pass the same words for the same settings when the option list has no
   * suppression flag yet: only their order differs, since the package revision places
   * the suppression flag after the options it already holds.
   */
  lemma RevisionsPassSameWords(c: Config, displayCopyright: bool, useFormat: bool, setColor: bool)
    requires Options.DisplaysCopyright(c.options)
    ensures multiset(ComputeArguments(c.(level := "--" + c.level), displayCopyright, useFormat, setColor))
         == multiset(Validator.ComputeArguments(c, displayCopyright, useFormat, setColor).1)
  {
    var suppress: seq<string> := if displayCopyright then [] else [Options.DoNotDisplayCopyright];
    var rest := Validator.Extras(c, useFormat, setColor);
    var level: seq<string> := ["--" + c.level];
    var c1 := c.(level := "--" + c.level);
    var older := ComputeArguments(c1, displayCopyright, useFormat, setColor);
    var newer := Validator.ComputeArguments(c, displayCopyright, useFormat, setColor).1;
    OlderLayout(c, displayCopyright, useFormat, setColor, suppress);
    NewerLayout(c, displayCopyright, useFormat, setColor, suppress);
    Rearranged(older, newer, level, suppress, rest, c.options, c.files);
  }

  /** The older revision's words, grouped as `RevisionsPassSameWords` compares them. */
  lemma OlderLayout(c: Config, displayCopyright: bool, useFormat: bool, setColor: bool, suppress: seq<string>)
    requires suppress == if displayCopyright then [] else [Options.DoNotDisplayCopyright]
    ensures ComputeArguments(c.(level := "--" + c.level), displayCopyright, useFormat, setColor)
         == ["--" + c.level] + (suppress + Validator.Extras(c, useFormat, setColor)) + c.options + c.files
  {
    var c1 := c.(level := "--" + c.level);
    assert Validator.Extras(c1, useFormat, setColor) == Validator.Extras(c, useFormat, setColor);
  }

  /** The package revision's words, grouped as `RevisionsPassSameWords` compares them. */
  lemma NewerLayout(c: Config, displayCopyright: bool, useFormat: bool, setColor: bool, suppress: seq<string>)
    requires Options.DisplaysCopyright(c.options)
    requires suppress == if displayCopyright then [] else [Options.DoNotDisplayCopyright]
    ensures Validator.ComputeArguments(c, displayCopyright, useFormat, setColor).1
         == ["--" + c.level] + Validator.Extras(c, useFormat, setColor) + (c.options + suppress) + c.files
  {
  }

  /**
   * `validate` asks for the copyright to be hidden and the format string to be left out:
   * the level, the suppression flag, the colour flag never, then the options and files.
   */
  function ValidateArguments(c: Config): (r: seq<string>)
    ensures r == [c.level, Options.DoNotDisplayCopyright] + c.options + c.files
  {
    var r := ComputeArguments(c, false, false, false);
    assert r == [c.level, Options.DoNotDisplayCopyright] + c.options + c.files;
    r
  }
}
