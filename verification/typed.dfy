/** `Typed`: validation of the positional arguments against `__types__`. */
module TypedMixin {
  import opened Basics
  import opened Values
  import opened Classes

  /** Every argument that `zip(types, args)` reaches is an instance of its
      declared type. */
  ghost predicate WellTyped(types: seq<PyType>, args: seq<Value>) {
    forall i :: 0 <= i < Min(|types|, |args|) ==> IsInstance(args[i], types[i])
  }

  /** The index of the first zipped argument that is not an instance of its
      declared type, scanning in declared order. */
  function FirstMismatch(types: seq<PyType>, args: seq<Value>): (r: Option<nat>)
    ensures r.None? <==> WellTyped(types, args)
    ensures r.Some? ==>
      && r.value < Min(|types|, |args|)
      && !IsInstance(args[r.value], types[r.value])
      && forall i :: 0 <= i < r.value ==> IsInstance(args[i], types[i])
    decreases |types|
  {
    if |types| == 0 || |args| == 0 then None
    else if !IsInstance(args[0], types[0]) then Some(0)
    else
      match FirstMismatch(types[1..], args[1..])
      case None =>
        assert forall i :: 1 <= i < Min(|types|, |args|) ==>
          args[i] == args[1..][i - 1] && types[i] == types[1..][i - 1];
        None
      case Some(k) =>
        assert forall i :: 1 <= i <= k ==>
          args[i] == args[1..][i - 1] && types[i] == types[1..][i - 1];
        Some(k + 1)
  }

  /** `Typed.__init__` up to the forwarding call. It binds nothing: the
      state is the one it was given, whatever the outcome. Without
      `__types__` it raises the configuration error; otherwise it raises
      for the first mismatching argument, or completes when all match. */
  function Init(c: Class, st: State, args: seq<Value>): (r: Outcome)
    ensures r.state == st
    ensures c.types.None? ==> r == Raised(st, MissingTypesError(c.name))
    ensures c.types.Some? ==> (r.Completed? <==> WellTyped(c.types.value, args))
    ensures c.types.Some? && r.Raised? ==>
      exists k :: 0 <= k < Min(|c.types.value|, |args|)
        && !IsInstance(args[k], c.types.value[k])
        && (forall i :: 0 <= i < k ==> IsInstance(args[i], c.types.value[i]))
        && r.error == MismatchError(args[k], c.types.value[k])
  {
    match c.types
    case None => Raised(st, MissingTypesError(c.name))
    case Some(types) =>
      match FirstMismatch(types, args)
      case None => Completed(st)
      case Some(k) => Raised(st, MismatchError(args[k], types[k]))
  }

  /** Only the zipped prefix is checked: arguments beyond the declared
      types never affect validation. */
  lemma ExtraArgumentsUnchecked(types: seq<PyType>, args: seq<Value>, extra: seq<Value>)
    requires |args| >= |types|
    ensures FirstMismatch(types, args + extra) == FirstMismatch(types, args)
  {
    assert forall i :: 0 <= i < |types| ==> (args + extra)[i] == args[i];
  }
}
