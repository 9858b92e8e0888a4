/**
 * The validator's option list: a flat list of command-line words in which a flag may be
 * followed by its value. Both revisions of the validator edit it with the same
 * `add_option` / `remove_option` code, and the package revision also keeps the
 * copyright-suppression flag in it.
 */
module Options {
  import opened Wrappers

  /** The flag that tells the validator not to print its copyright banner. */
  const DoNotDisplayCopyright: string := "--do-not-display-copyright"

  /** `opts.index(x)`: the position of the first occurrence of `x`. */
  function Position(opts: seq<string>, x: string): (r: nat)
    requires x in opts
    ensures r < |opts| && opts[r] == x && x !in opts[..r]
  {
    if opts[0] == x then 0 else 1 + Position(opts[1..], x)
  }

  /** `opts.pop(i)`: the list without its element at `i`. */
  function RemoveAt(opts: seq<string>, i: nat): (r: seq<string>)
    requires i < |opts|
    ensures |r| == |opts| - 1
    ensures forall k :: 0 <= k < i ==> r[k] == opts[k]
    ensures forall k :: i <= k < |r| ==> r[k] == opts[k + 1]
  {
    opts[..i] + opts[i + 1..]
  }

  /** Popping a position takes one copy of the word there out of the list's contents. */
  lemma RemoveAtContents(opts: seq<string>, i: nat)
    requires i < |opts|
    ensures multiset(RemoveAt(opts, i)) + multiset{opts[i]} == multiset(opts)
  {
    assert opts == opts[..i] + [opts[i]] + opts[i + 1..];
  }

  /** The words a flag and its optional value occupy. */
  function Slot(flag: string, value: Option<string>): (r: seq<string>)
    ensures |r| == if value.Some? then 2 else 1
  {
    if value.Some? then [flag, value.value] else [flag]
  }

  /** The value bound to `flag`: the word right after its first occurrence, if there is one. */
  function ValueOf(opts: seq<string>, flag: string): Option<string> {
    if flag in opts && Position(opts, flag) + 1 < |opts| then Some(opts[Position(opts, flag) + 1])
    else None
  }

  /**
   * `add_option(flag, value)`. An absent flag is appended together with its value. For a
   * present flag a value overwrites the word after the first occurrence, which raises
   * `IndexError` when the flag is the last word; without a value nothing changes.
   */
  function AddOption(opts: seq<string>, flag: string, value: Option<string>): (r: Result<seq<string>, Exception>)
    ensures r.Failure? <==> flag in opts && value.Some? && Position(opts, flag) == |opts| - 1
    ensures r.Failure? ==> r.error == IndexError
    ensures r.Success? ==> flag in r.value
  {
    if flag in opts then
      if value.Some? then
        var i := Position(opts, flag) + 1;
        if i < |opts| then
          assert opts[i := value.value][i - 1] == flag;
          Success(opts[i := value.value])
        else Failure(IndexError)
      else Success(opts)
    else
      assert (opts + Slot(flag, value))[|opts|] == flag;
      Success(opts + Slot(flag, value))
  }

  /**
   * `remove_option(flag, has_value)`. An absent flag leaves the list alone; otherwise the
   * first occurrence is popped and, with `has_value`, so is the word that followed it, which
   * raises `IndexError` when the flag was the last word.
   */
  function RemoveOption(opts: seq<string>, flag: string, hasValue: bool): (r: Result<seq<string>, Exception>)
    ensures r.Failure? <==> flag in opts && hasValue && Position(opts, flag) == |opts| - 1
    ensures r.Failure? ==> r.error == IndexError
    ensures flag !in opts ==> r == Success(opts)
    ensures r.Success? && flag in opts ==> |r.value| == |opts| - (if hasValue then 2 else 1)
  {
    if flag in opts then
      var p := Position(opts, flag);
      var once := RemoveAt(opts, p);
      if !hasValue then Success(once)
      else if p < |once| then Success(RemoveAt(once, p))
      else Failure(IndexError)
    else Success(opts)
  }

  /**
   * The launcher's list after `remove_option(flag, has_value)`, whether or not the call
   * raises. The list is changed in place, so when the second pop raises `IndexError` the
   * flag has already been popped and stays removed.
   */
  function ListAfterRemove(opts: seq<string>, flag: string, hasValue: bool): (r: seq<string>)
    ensures RemoveOption(opts, flag, hasValue).Success? ==> r == RemoveOption(opts, flag, hasValue).value
    ensures RemoveOption(opts, flag, hasValue).Failure? ==> |opts| > 0 && r == opts[..|opts| - 1]
    ensures flag in opts ==> multiset(r) + multiset{flag} <= multiset(opts)
  {
    if flag in opts then
      var p := Position(opts, flag);
      var once := RemoveAt(opts, p);
      RemoveAtContents(opts, p);
      if hasValue && p < |once| then
        RemoveAtContents(once, p);
        RemoveAt(once, p)
      else
        assert !hasValue || p == |opts| - 1;
        assert p == |opts| - 1 ==> once == opts[..|opts| - 1];
        once
    else opts
  }

  /** Adding an absent flag appends its slot at the end and leaves every earlier word in place. */
  lemma AddAbsent(opts: seq<string>, flag: string, value: Option<string>)
    requires flag !in opts
    ensures AddOption(opts, flag, value).Success?
    ensures var r := AddOption(opts, flag, value).value;
            && |r| == |opts| + |Slot(flag, value)|
            && r[..|opts|] == opts
            && r[|opts|] == flag
            && (value.Some? ==> r[|opts| + 1] == value.value)
  {
    var r := AddOption(opts, flag, value).value;
    assert r == opts + Slot(flag, value);
    assert r[..|opts|] == opts;
  }

  /**
   * Adding a present flag never changes the length: without a value nothing changes, and
   * with one only the word after the first occurrence is replaced.
   */
  lemma AddPresent(opts: seq<string>, flag: string, value: Option<string>)
    requires flag in opts
    requires AddOption(opts, flag, value).Success?
    ensures var r := AddOption(opts, flag, value).value;
            var p := Position(opts, flag);
            && |r| == |opts|
            && (value.None? ==> r == opts)
            && (value.Some? ==> p + 1 < |r| && r[p + 1] == value.value)
            && (forall k :: 0 <= k < |r| && k != p + 1 ==> r[k] == opts[k])
  {
  }

  /** After a successful add with a value, that value is the one bound to the flag. */
  lemma AddBindsValue(opts: seq<string>, flag: string, v: string)
    requires AddOption(opts, flag, Some(v)).Success?
    ensures ValueOf(AddOption(opts, flag, Some(v)).value, flag) == Some(v)
  {
    var r := AddOption(opts, flag, Some(v)).value;
    if flag in opts {
      var p := Position(opts, flag);
      assert r == opts[p + 1 := v];
      assert r[..p] == opts[..p];
      PositionOfPrefix(r, flag, p);
    } else {
      AddAbsent(opts, flag, Some(v));
      PositionOfPrefix(r, flag, |opts|);
    }
  }

  /** A position holding `x` with no `x` before it is the first position of `x`. */
  lemma PositionOfPrefix(opts: seq<string>, x: string, p: nat)
    requires p < |opts| && opts[p] == x && x !in opts[..p]
    ensures Position(opts, x) == p
  {
  }

  /** Removing a present flag keeps the words before it and takes away one copy of it. */
  lemma RemoveTakesOut(opts: seq<string>, flag: string)
    requires flag in opts
    ensures var r := RemoveOption(opts, flag, false).value;
            var p := Position(opts, flag);
            && r[..p] == opts[..p]
            && multiset(r) + multiset{flag} == multiset(opts)
  {
    var p := Position(opts, flag);
    RemoveAtContents(opts, p);
    assert RemoveOption(opts, flag, false).value == RemoveAt(opts, p);
  }

  /** Removing a present flag with its value also takes away one copy of the word after it. */
  lemma RemoveTakesOutWithValue(opts: seq<string>, flag: string)
    requires flag in opts
    requires RemoveOption(opts, flag, true).Success?
    ensures var r := RemoveOption(opts, flag, true).value;
            var p := Position(opts, flag);
            && r[..p] == opts[..p]
            && multiset(r) + multiset{flag, opts[p + 1]} == multiset(opts)
  {
    var p := Position(opts, flag);
    assert RemoveOption(opts, flag, true).value == RemoveAt(RemoveAt(opts, p), p);
    RemovePair(opts, p);
  }

  /** Popping the same position twice removes the word there and the one after it. */
  lemma RemovePair(opts: seq<string>, p: nat)
    requires p + 1 < |opts|
    ensures var r := RemoveAt(RemoveAt(opts, p), p);
            && r[..p] == opts[..p]
            && multiset(r) + multiset{opts[p], opts[p + 1]} == multiset(opts)
  {
    var r := RemoveAt(RemoveAt(opts, p), p);
    assert r == opts[..p] + opts[p + 2..];
    assert opts == opts[..p] + [opts[p], opts[p + 1]] + opts[p + 2..];
  }

  /** Removing a flag that was just added, together with its value if it had one, restores the list. */
  lemma AddThenRemove(opts: seq<string>, flag: string, value: Option<string>)
    requires flag !in opts
    ensures RemoveOption(AddOption(opts, flag, value).value, flag, value.Some?) == Success(opts)
  {
    AddAbsent(opts, flag, value);
    var r := AddOption(opts, flag, value).value;
    PositionOfPrefix(r, flag, |opts|);
    var once := RemoveAt(r, |opts|);
    assert once == opts + (if value.Some? then [value.value] else []);
    if value.Some? {
      assert RemoveAt(once, |opts|) == opts;
    } else {
      assert once == opts;
    }
  }

  /** Adding a valueless flag a second time changes nothing: the flag occurs once per add-cycle. */
  lemma AddTwice(opts: seq<string>, flag: string)
    ensures AddOption(opts, flag, None).Success?
    ensures AddOption(AddOption(opts, flag, None).value, flag, None) == AddOption(opts, flag, None)
  {
  }

  /** A flag absent from `opts` occurs exactly once after it is added. */
  lemma AddOnce(opts: seq<string>, flag: string, value: Option<string>)
    requires flag !in opts
    requires value.Some? ==> value.value != flag
    ensures multiset(AddOption(opts, flag, value).value)[flag] == 1
  {
    AddAbsent(opts, flag, value);
    var r := AddOption(opts, flag, value).value;
    assert r == opts + Slot(flag, value);
    assert multiset(r) == multiset(opts) + multiset(Slot(flag, value));
  }

  /** Setting a flag's value twice keeps the length and leaves the second value bound to it. */
  lemma AddValueTwice(opts: seq<string>, flag: string, v: string, w: string)
    requires flag !in opts
    ensures AddOption(opts, flag, Some(v)).Success?
    ensures var once := AddOption(opts, flag, Some(v)).value;
            && AddOption(once, flag, Some(w)).Success?
            && AddOption(once, flag, Some(w)).value == opts + [flag, w]
  {
    AddAbsent(opts, flag, Some(v));
    var once := AddOption(opts, flag, Some(v)).value;
    PositionOfPrefix(once, flag, |opts|);
    assert once[|opts| + 1 := w] == opts + [flag, w];
  }

  /** `get_display_copyright`: the banner is shown unless the suppression flag is present. */
  predicate DisplaysCopyright(opts: seq<string>) {
    DoNotDisplayCopyright !in opts
  }

  /**
   * `set_display_copyright(display)`. Showing the banner removes the first suppression flag
   * and raises `ValueError` when there is none; hiding it appends the flag unless it is
   * already present.
   */
  function SetDisplayCopyright(opts: seq<string>, display: bool): (r: Result<seq<string>, Exception>)
    ensures r.Failure? <==> display && DisplaysCopyright(opts)
    ensures r.Failure? ==> r.error == ValueError
    ensures r.Success? && display ==> multiset(r.value) + multiset{DoNotDisplayCopyright} == multiset(opts)
    ensures !display ==> !DisplaysCopyright(r.value) && |opts| <= |r.value| && r.value[..|opts|] == opts
    ensures !display ==> multiset(r.value)[DoNotDisplayCopyright] == if DisplaysCopyright(opts) then 1 else multiset(opts)[DoNotDisplayCopyright]
  {
    if display then
      if DoNotDisplayCopyright in opts then
        RemoveAtContents(opts, Position(opts, DoNotDisplayCopyright));
        Success(RemoveAt(opts, Position(opts, DoNotDisplayCopyright)))
      else Failure(ValueError)
    else if DisplaysCopyright(opts) then
      assert (opts + [DoNotDisplayCopyright])[..|opts|] == opts;
      assert multiset(opts + [DoNotDisplayCopyright]) == multiset(opts) + multiset{DoNotDisplayCopyright};
      Success(opts + [DoNotDisplayCopyright])
    else Success(opts)
  }

  /** Hiding the banner twice is the same as hiding it once. */
  lemma HideTwice(opts: seq<string>)
    ensures SetDisplayCopyright(SetDisplayCopyright(opts, false).value, false) == SetDisplayCopyright(opts, false)
  {
  }

  /** Hiding the banner and showing it again restores a list that had no suppression flag. */
  lemma HideThenShow(opts: seq<string>)
    requires DisplaysCopyright(opts)
    ensures SetDisplayCopyright(SetDisplayCopyright(opts, false).value, true) == Success(opts)
  {
    var hidden := opts + [DoNotDisplayCopyright];
    PositionOfPrefix(hidden, DoNotDisplayCopyright, |opts|);
    assert RemoveAt(hidden, |opts|) == opts;
  }

  /** Showing the banner works and then shows it exactly when the suppression flag occurred once. */
  lemma ShowDisplays(opts: seq<string>)
    requires !DisplaysCopyright(opts)
    ensures SetDisplayCopyright(opts, true).Success?
    ensures DisplaysCopyright(SetDisplayCopyright(opts, true).value) <==> multiset(opts)[DoNotDisplayCopyright] == 1
  {
    var r := SetDisplayCopyright(opts, true).value;
    assert multiset(r)[DoNotDisplayCopyright] == multiset(opts)[DoNotDisplayCopyright] - 1;
  }
}
