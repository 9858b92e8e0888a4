/** Failure-carrying datatypes used to model Python's `None` results and raised exceptions. */
module Wrappers {

  /** Python's optional value: `None` or a present value. */
  datatype Option<+T> = None | Some(value: T)

  /** Either a value or the error the Python code would raise instead of returning. */
  datatype Result<+T, +E> = Success(value: T) | Failure(error: E)

  /** The Python exception kinds the modelled code can raise. */
  datatype Exception =
    | TypeError              // an operand of the wrong type, e.g. `None[0]` or `1 in "x"`
    | IndexError             // a list subscript or `pop` out of range
    | ValueError             // `int()` of a non-numeric text, `list.remove` of an absent item
    | KeyError(key: string)  // a dictionary lookup of an absent key
    | NameError(name: string)       // a reference to an undefined variable
    | AttributeError(name: string)  // a reference to an undefined method

  /** `f` applied to every element, or `None` as soon as one application fails. */
  function MapAll<X, Y>(xs: seq<X>, f: X -> Option<Y>): (r: Option<seq<Y>>)
    ensures r.Some? <==> forall k :: 0 <= k < |xs| ==> f(xs[k]).Some?
    ensures r.Some? ==> |r.value| == |xs|
    ensures r.Some? ==> forall k :: 0 <= k < |xs| ==> r.value[k] == f(xs[k]).value
  {
    if |xs| == 0 then Some([])
    else
      var head := f(xs[0]);
      var rest := MapAll(xs[1..], f);
      assert forall k :: 1 <= k < |xs| ==> xs[k] == xs[1..][k - 1];
      if head.None? || rest.None? then None else Some([head.value] + rest.value)
  }
}
