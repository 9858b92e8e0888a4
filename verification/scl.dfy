/**
 * The SCL validator launcher (`riseclipse_validator_scl.py`, both revisions): a validator
 * whose option list starts with `--make-explicit-links` and which toggles four valueless
 * flags and the valued `--xml-schema` flag. The older revision builds these on
 * `add_option` / `remove_option`. The package revision calls helpers the base class does
 * not define, so as written each of its methods raises `AttributeError`.
 */
module Scl {
  import opened Wrappers
  import Options
  import Validator
  import LegacyValidator

  type Config = Validator.Config

  /** The four valueless switches. */
  datatype Toggle = MakeExplicitLinks | DisplayNsdMessages | UseDifferentExitCodes | UseFilenamesStartingWithDot

  /** The command-line flag behind each switch. */
  function Flag(t: Toggle): (f: string)
    ensures f != XmlSchemaFlag
  {
    match t
    case MakeExplicitLinks => "--make-explicit-links"
    case DisplayNsdMessages => "--display-nsd-messages"
    case UseDifferentExitCodes => "--use-different-exit-codes"
    case UseFilenamesStartingWithDot => "--use-filenames-starting-with-dot"
  }

  const XmlSchemaFlag: string := "--xml-schema"

  /** Different switches use different flags. */
  lemma FlagsDistinct(t: Toggle, u: Toggle)
    ensures Flag(t) == Flag(u) <==> t == u
  {
  }

  /** Whether a switch is on: its flag is in the option list. */
  predicate Enabled(c: Config, t: Toggle) {
    Flag(t) in c.options
  }

  /** `set_<switch>`: `add_option(flag)`, which appends the flag unless it is already there. */
  function Set(c: Config, t: Toggle): (r: Config)
    ensures Enabled(r, t)
    ensures r.(options := c.options) == c
    ensures Enabled(c, t) ==> r == c
  {
    Options.AddTwice(c.options, Flag(t));
    Validator.AddOption(c, Flag(t), None).value
  }

  /** `unset_<switch>`: `remove_option(flag)`, which drops the first occurrence of the flag, if any. */
  function Unset(c: Config, t: Toggle): (r: Config)
    ensures r.(options := c.options) == c
    ensures !Enabled(c, t) ==> r == c
    ensures Enabled(c, t) ==> multiset(r.options)[Flag(t)] == multiset(c.options)[Flag(t)] - 1
  {
    if Enabled(c, t) then
      Options.RemoveTakesOut(c.options, Flag(t));
      Validator.RemoveOption(c, Flag(t), false).value
    else
      c
  }

  /** `set_xml_schema(path)`: `add_option("--xml-schema", path)`, which raises when the flag is the last word. */
  function SetXmlSchema(c: Config, path: string): (r: Result<Config, Exception>)
    ensures r.Failure? <==> XmlSchemaFlag in c.options && Options.Position(c.options, XmlSchemaFlag) == |c.options| - 1
    ensures r.Success? ==> r.value.(options := c.options) == c
    ensures r.Success? ==> Options.ValueOf(r.value.options, XmlSchemaFlag) == Some(path)
  {
    var r := Validator.AddOption(c, XmlSchemaFlag, Some(path));
    assert r.Success? ==> Options.ValueOf(r.value.options, XmlSchemaFlag) == Some(path) by {
      if r.Success? {
        Options.AddBindsValue(c.options, XmlSchemaFlag, path);
      }
    }
    r
  }

  /** `unset_xml_schema()`: `remove_option("--xml-schema", True)`, dropping the flag and the path after it. */
  function UnsetXmlSchema(c: Config): (r: Result<Config, Exception>)
    ensures r.Failure? <==> XmlSchemaFlag in c.options && Options.Position(c.options, XmlSchemaFlag) == |c.options| - 1
    ensures XmlSchemaFlag !in c.options ==> r == Success(c)
    ensures r.Success? ==> r.value.(options := c.options) == c
  {
    Validator.RemoveOption(c, XmlSchemaFlag, true)
  }

  /** The constructor on top of a base launcher: explicit links are on by default. */
  function New(base: Config): (r: Config)
    requires base.options == []
    ensures r.options == [Flag(MakeExplicitLinks)]
    ensures r.(options := base.options) == base
  {
    Set(base, MakeExplicitLinks)
  }

  /** The older revision's constructor, on the older base launcher. */
  const LegacyNew: Config := New(LegacyValidator.Initial)

  /**
   * The package revision's constructor as written: it calls `self._add_option`, which the
   * base class does not define, so construction raises `AttributeError`.
   */
  function PackageNewAsWritten(): (r: Result<Config, Exception>)
    ensures r == Failure(AttributeError("_add_option"))
  {
    Failure(AttributeError("_add_option"))
  }

  /** The package revision's constructor as intended: the package base launcher with explicit links on. */
  const PackageNew: Config := New(Validator.Initial)

  /**
   * The package revision's methods as written. `unset_make_explicit_links` calls
   * `self.__remove_option`, which Python mangles to `_RiseClipseValidatorSCL__remove_option`;
   * the other unset methods call `_remove_option` and the set methods `_add_option`.
   * None of these exists, so every call raises `AttributeError` with that name.
   */
  function SetAsWritten(c: Config, t: Toggle): (r: Result<Config, Exception>)
    ensures r.Failure? && r.error.AttributeError?
  {
    Failure(AttributeError("_add_option"))
  }

  function UnsetAsWritten(c: Config, t: Toggle): (r: Result<Config, Exception>)
    ensures r.Failure? && r.error.AttributeError?
    ensures t == MakeExplicitLinks <==> r.error.name == "_RiseClipseValidatorSCL__remove_option"
  {
    if t == MakeExplicitLinks then Failure(AttributeError("_RiseClipseValidatorSCL__remove_option"))
    else Failure(AttributeError("_remove_option"))
  }

  function SetXmlSchemaAsWritten(c: Config, path: string): (r: Result<Config, Exception>)
    ensures r == Failure(AttributeError("_add_option"))
  {
    Failure(AttributeError("_add_option"))
  }

  function UnsetXmlSchemaAsWritten(c: Config): (r: Result<Config, Exception>)
    ensures r == Failure(AttributeError("_remove_option"))
  {
    Failure(AttributeError("_remove_option"))
  }

  /**
   * Every package-revision method fails as written, even where the intended one succeeds:
   * on the freshly constructed launcher each switch can be set and unset.
   */
  lemma PackageMethodsFail(t: Toggle, path: string)
    ensures PackageNewAsWritten().Failure?
    ensures SetAsWritten(PackageNew, t).Failure? && UnsetAsWritten(PackageNew, t).Failure?
    ensures SetXmlSchemaAsWritten(PackageNew, path).Failure? && UnsetXmlSchemaAsWritten(PackageNew).Failure?
    ensures Enabled(Set(PackageNew, t), t)
    ensures SetXmlSchema(PackageNew, path).Success?
    ensures UnsetXmlSchema(PackageNew).Success?
  {
    assert PackageNew.options == [Flag(MakeExplicitLinks)];
  }

  /** The format string the package constructor's documentation claims as the initial one. */
  const DocumentedFormat: string := "%6$s%1$-7s%7$s: [%2$s] %4$s (%5$s:%3$d)"

  /**
   * The documented initial state, against the intended constructor: level "warning", no
   * colour, copyright shown, explicit links on and every other switch and the schema off;
   * but the format string is empty, not the documented one.
   */
  lemma PackageDefaults()
    ensures PackageNew.level == "warning" && !PackageNew.useColor
    ensures Options.DisplaysCopyright(PackageNew.options)
    ensures Enabled(PackageNew, MakeExplicitLinks)
    ensures forall t :: t != MakeExplicitLinks ==> !Enabled(PackageNew, t)
    ensures XmlSchemaFlag !in PackageNew.options
    ensures PackageNew.format == "" != DocumentedFormat
  {
    forall t | t != MakeExplicitLinks ensures !Enabled(PackageNew, t) {
      FlagsDistinct(t, MakeExplicitLinks);
    }
  }

  /** The older constructor leaves the base launcher alone apart from turning explicit links on. */
  lemma LegacyDefaults()
    ensures LegacyNew.options == ["--make-explicit-links"]
    ensures LegacyNew.level == "--warning" && LegacyNew.format == "" && !LegacyNew.useColor && LegacyNew.files == []
  {
  }

  /** Setting a switch twice is the same as setting it once, and leaves its flag exactly once when it was off. */
  lemma SetTwice(c: Config, t: Toggle)
    ensures Set(Set(c, t), t) == Set(c, t)
    ensures !Enabled(c, t) ==> multiset(Set(c, t).options)[Flag(t)] == 1
  {
    if !Enabled(c, t) {
      Options.AddOnce(c.options, Flag(t), None);
    }
  }

  /** Setting a switch that was off and unsetting it again restores the settings. */
  lemma SetThenUnset(c: Config, t: Toggle)
    requires !Enabled(c, t)
    ensures Unset(Set(c, t), t) == c
  {
    Options.AddThenRemove(c.options, Flag(t), None);
  }

  /** Unsetting a switch whose flag occurs at most once turns it off. */
  lemma UnsetDisables(c: Config, t: Toggle)
    requires multiset(c.options)[Flag(t)] <= 1
    ensures !Enabled(Unset(c, t), t)
  {
  }

  /** Setting one switch leaves every other switch as it was. */
  lemma SetIndependent(c: Config, t: Toggle, u: Toggle)
    requires t != u
    ensures Enabled(Set(c, t), u) <==> Enabled(c, u)
  {
    FlagsDistinct(t, u);
    if !Enabled(c, t) {
      assert Set(c, t).options == c.options + [Flag(t)];
    }
  }

  /** Unsetting one switch leaves every other switch as it was. */
  lemma UnsetIndependent(c: Config, t: Toggle, u: Toggle)
    requires t != u
    ensures Enabled(Unset(c, t), u) <==> Enabled(c, u)
  {
    FlagsDistinct(t, u);
    if Enabled(c, t) {
      Options.RemoveTakesOut(c.options, Flag(t));
      assert multiset(Unset(c, t).options)[Flag(u)] == multiset(c.options)[Flag(u)];
    }
  }

  /**
   * Setting the schema twice, starting without one, leaves a single `--xml-schema`
   * immediately followed by the second path at the end of the option list.
   */
  lemma XmlSchemaTwice(c: Config, p: string, q: string)
    requires XmlSchemaFlag !in c.options
    ensures SetXmlSchema(c, p).Success?
    ensures SetXmlSchema(SetXmlSchema(c, p).value, q).Success?
    ensures SetXmlSchema(SetXmlSchema(c, p).value, q).value.options == c.options + [XmlSchemaFlag, q]
  {
    Options.AddValueTwice(c.options, XmlSchemaFlag, p, q);
  }

  /** Unsetting a schema that was just set removes the flag and its path, restoring the settings. */
  lemma XmlSchemaSetThenUnset(c: Config, path: string)
    requires XmlSchemaFlag !in c.options
    ensures SetXmlSchema(c, path).Success?
    ensures UnsetXmlSchema(SetXmlSchema(c, path).value) == Success(c)
  {
    Options.AddThenRemove(c.options, XmlSchemaFlag, Some(path));
  }
}
