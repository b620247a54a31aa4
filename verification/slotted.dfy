/** `Slotted`: assignment of positional arguments to the declared
    `__slots__`, equality on (class, slot values), and rendering. */
module SlottedMixin {
  import opened Basics
  import opened Text
  import opened Values
  import opened Classes
  import ImmutableMixin

  /** The loop `for slot, arg in zip(names, args): setattr(self, slot, arg)`,
      each assignment going through the class's `__setattr__`; the first
      assignment that raises ends the loop with the state reached so far. */
  function AssignSlots(c: Class, st: State, names: seq<string>, args: seq<Value>): (r: Outcome)
    ensures r.Raised? ==> IsImmutable(c) && r.error == ImmutableError(c.name)
    ensures forall a :: a in r.state ==> a in st || a in names
    decreases |names|
  {
    if |names| == 0 || |args| == 0 then Completed(st)
    else
      match ImmutableMixin.SetAttr(c, st, names[0], args[0])
      case Raised(s, e) => Raised(s, e)
      case Completed(s) =>
        assert forall a :: a in names[1..] ==> a in names;
        AssignSlots(c, s, names[1..], args[1..])
  }

  /** The slot names that `zip(names, args)` reaches. */
  function Zipped(names: seq<string>, args: seq<Value>): seq<string> {
    names[..Min(|names|, |args|)]
  }

  lemma ZippedTail(names: seq<string>, args: seq<Value>)
    requires |names| > 0 && |args| > 0
    ensures Zipped(names, args) == [names[0]] + Zipped(names[1..], args[1..])
  {
  }

  /** No attribute outside the zipped slot names is touched, whether the
      loop completes or raises part-way. */
  lemma {:induction false} AssignSlotsFrame(c: Class, st: State, names: seq<string>, args: seq<Value>, a: string)
    requires a !in Zipped(names, args)
    ensures Lookup(AssignSlots(c, st, names, args).state, a) == Lookup(st, a)
    decreases |names|
  {
    if |names| > 0 && |args| > 0 {
      ZippedTail(names, args);
      match ImmutableMixin.SetAttr(c, st, names[0], args[0])
      case Raised(s, e) =>
      case Completed(s) =>
        AssignSlotsFrame(c, s, names[1..], args[1..], a);
    }
  }

  /** Without `Immutable`, the loop always completes. */
  lemma {:induction false} AssignSlotsMutable(c: Class, st: State, names: seq<string>, args: seq<Value>)
    requires !IsImmutable(c)
    ensures AssignSlots(c, st, names, args).Completed?
    decreases |names|
  {
    if |names| > 0 && |args| > 0 {
      AssignSlotsMutable(c, st[names[0] := args[0]], names[1..], args[1..]);
    }
  }

  /** With `Immutable`, the loop completes exactly when no zipped slot name
      is already visible to `hasattr` and no slot name repeats; otherwise
      the first such write raises "<Class> class is immutable". */
  lemma {:induction false} AssignSlotsImmutable(c: Class, st: State, names: seq<string>, args: seq<Value>)
    requires IsImmutable(c)
    ensures var z := Zipped(names, args);
      AssignSlots(c, st, names, args).Completed? <==>
        Distinct(z) && forall i :: 0 <= i < |z| ==> !HasAttr(c, st, z[i])
    decreases |names|
  {
    if |names| > 0 && |args| > 0 {
      var z := Zipped(names, args);
      var z' := Zipped(names[1..], args[1..]);
      ZippedTail(names, args);
      var st' := st[names[0] := args[0]];
      AssignSlotsImmutable(c, st', names[1..], args[1..]);
      if !HasAttr(c, st, names[0]) {
        assert AssignSlots(c, st, names, args) == AssignSlots(c, st', names[1..], args[1..]);
        if Distinct(z) && forall i :: 0 <= i < |z| ==> !HasAttr(c, st, z[i]) {
          forall i | 0 <= i < |z'|
            ensures !HasAttr(c, st', z'[i])
          {
            assert z'[i] == z[i + 1];
          }
          assert Distinct(z') by {
            forall i, j | 0 <= i < j < |z'|
              ensures z'[i] != z'[j]
            {
              assert z'[i] == z[i + 1] && z'[j] == z[j + 1];
            }
          }
        }
        if Distinct(z') && forall i :: 0 <= i < |z'| ==> !HasAttr(c, st', z'[i]) {
          forall i | 0 <= i < |z|
            ensures !HasAttr(c, st, z[i])
          {
            if i > 0 {
              assert z[i] == z'[i - 1];
              assert !HasAttr(c, st', z'[i - 1]);
            }
          }
          forall i, j | 0 <= i < j < |z|
            ensures z[i] != z[j]
          {
            if i > 0 {
              assert z[i] == z'[i - 1] && z[j] == z'[j - 1];
            } else {
              assert z[j] == z'[j - 1];
              assert !HasAttr(c, st', z'[j - 1]);
            }
          }
        }
      } else {
        assert z[0] == names[0];
      }
    }
  }

  /** A completed loop binds `names[i]` to `args[i]` for every zipped
      index, when the zipped names are distinct. */
  lemma {:induction false} AssignSlotsBinds(c: Class, st: State, names: seq<string>, args: seq<Value>, i: nat)
    requires AssignSlots(c, st, names, args).Completed?
    requires Distinct(Zipped(names, args))
    requires i < |Zipped(names, args)|
    ensures Lookup(AssignSlots(c, st, names, args).state, names[i]) == Some(args[i])
    decreases |names|
  {
    var z := Zipped(names, args);
    ZippedTail(names, args);
    var z' := Zipped(names[1..], args[1..]);
    var s := ImmutableMixin.SetAttr(c, st, names[0], args[0]).state;
    assert Distinct(z') by {
      forall p, q | 0 <= p < q < |z'|
        ensures z'[p] != z'[q]
      {
        assert z'[p] == z[p + 1] && z'[q] == z[q + 1];
      }
    }
    if i == 0 {
      forall k | 0 <= k < |z'|
        ensures z'[k] != names[0]
      {
        assert z'[k] == z[k + 1];
      }
      AssignSlotsFrame(c, s, names[1..], args[1..], names[0]);
    } else {
      AssignSlotsBinds(c, s, names[1..], args[1..], i - 1);
    }
  }

  /** `Slotted.__init__` up to the forwarding call: fails when the class has
      no `__slots__` (before binding anything), otherwise assigns the zipped
      prefix of the arguments, where only an immutability error can arise. */
  function Init(c: Class, st: State, args: seq<Value>): (r: Outcome)
    ensures c.slots.None? ==> r == Raised(st, MissingSlotsError(c.name))
    ensures c.slots.Some? && r.Raised? ==> IsImmutable(c) && r.error == ImmutableError(c.name)
    ensures forall a :: a in r.state ==> a in st || (c.slots.Some? && a in c.slots.value)
  {
    match c.slots
    case None => Raised(st, MissingSlotsError(c.name))
    case Some(names) => AssignSlots(c, st, names, args)
  }

  /** Every declared slot is bound on the instance. */
  predicate FullyBound(c: Class, st: State) {
    c.slots.Some? && forall i :: 0 <= i < |c.slots.value| ==> c.slots.value[i] in st
  }

  /** `map(self.__getattribute__, names)` materialised: the values in order,
      or an `AttributeError` for the first name that is unbound. */
  function ReadSlots(st: State, names: seq<string>): (r: Result<seq<Value>>)
    ensures r.Ok? <==> forall i :: 0 <= i < |names| ==> names[i] in st
    ensures r.Ok? ==> |r.value| == |names| && forall i :: 0 <= i < |names| ==> r.value[i] == st[names[i]]
    ensures r.Err? ==> exists k :: 0 <= k < |names| && names[k] !in st && r.error == AttributeError(names[k])
                                   && forall i :: 0 <= i < k ==> names[i] in st
  {
    if |names| == 0 then Ok([])
    else if names[0] !in st then Err(AttributeError(names[0]))
    else
      match ReadSlots(st, names[1..])
      case Err(e) =>
        ghost var k :| 0 <= k < |names[1..]| && names[1..][k] !in st && e == AttributeError(names[1..][k])
                       && forall i :: 0 <= i < k ==> names[1..][i] in st;
        assert names[k + 1] !in st && forall i :: 0 <= i < k + 1 ==> names[i] in st;
        Err(e)
      case Ok(vs) => Ok([st[names[0]]] + vs)
  }

  /** `_info`: the concrete class and the tuple of slot values. */
  function Info(c: Class, st: State): (r: Result<(Class, seq<Value>)>)
    ensures r.Ok? <==> FullyBound(c, st)
    ensures r.Ok? ==> r.value.0 == c && |r.value.1| == |c.slots.value|
                      && forall i :: 0 <= i < |c.slots.value| ==> r.value.1[i] == st[c.slots.value[i]]
    ensures c.slots.None? ==> r == Err(AttributeError("__slots__"))
  {
    match c.slots
    case None => Err(AttributeError("__slots__"))
    case Some(names) =>
      match ReadSlots(st, names)
      case Err(e) => Err(e)
      case Ok(vs) => Ok((c, vs))
  }

  /** Python's tuple `==`: equal lengths and element-wise `==`. */
  predicate TupleEq(a: seq<Value>, b: seq<Value>) {
    |a| == |b| && forall i :: 0 <= i < |a| ==> PyEq(a[i], b[i])
  }

  /** `a == b` for two Slotted instances: `a._info() == b._info()`. */
  function Eq(c1: Class, st1: State, c2: Class, st2: State): (r: Result<bool>)
    ensures r.Ok? <==> FullyBound(c1, st1) && FullyBound(c2, st2)
    ensures r == Ok(true) <==>
      && c1 == c2 && FullyBound(c1, st1) && FullyBound(c2, st2)
      && forall i :: 0 <= i < |c1.slots.value| ==>
           PyEq(st1[c1.slots.value[i]], st2[c1.slots.value[i]])
    ensures r.Err? ==> r.error == (if FullyBound(c1, st1) then Info(c2, st2) else Info(c1, st1)).error
  {
    match Info(c1, st1)
    case Err(e) => Err(e)
    case Ok(i1) =>
      match Info(c2, st2)
      case Err(e) => Err(e)
      case Ok(i2) => Ok(i1.0 == i2.0 && TupleEq(i1.1, i2.1))
  }

  /** The `"slot=value"` items of the rendering, in slot order: one per
      slot, each starting with its slot name and '=', followed by the text
      of the value; an item whose name and value text hold no ", " holds
      none either. */
  function Items(names: seq<string>, vs: seq<Value>): (r: seq<string>)
    requires |names| == |vs|
    ensures |r| == |names|
    ensures forall i :: 0 <= i < |r| ==>
      && |r[i]| > |names[i]|
      && r[i][..|names[i]|] == names[i]
      && r[i][|names[i]|] == '='
      && r[i][|names[i]| + 1..] == Show(vs[i])
    ensures forall i :: 0 <= i < |r| && !ContainsSep(names[i]) && !ContainsSep(Show(vs[i])) ==>
      !ContainsSep(r[i])
  {
    ItemsHaveNoSep(names, vs);
    seq(|names|, i requires 0 <= i < |names| => names[i] + "=" + Show(vs[i]))
  }

  lemma ItemsHaveNoSep(names: seq<string>, vs: seq<Value>)
    requires |names| == |vs|
    ensures forall i :: 0 <= i < |names| && !ContainsSep(names[i]) && !ContainsSep(Show(vs[i])) ==>
      !ContainsSep(names[i] + "=" + Show(vs[i]))
  {
    forall i | 0 <= i < |names| && !ContainsSep(names[i]) && !ContainsSep(Show(vs[i]))
      ensures !ContainsSep(names[i] + "=" + Show(vs[i]))
    {
      NoSepAround(names[i], '=', Show(vs[i]));
      assert names[i] + "=" + Show(vs[i]) == names[i] + ['='] + Show(vs[i]);
    }
  }

  /** `__str__` (and `__repr__`, which is the same function): the class name
      and the `slot=value` items in slot order, joined by ", ", in parentheses.
      Reading an unbound slot raises as `_info` does. */
  function Str(c: Class, st: State): (r: Result<string>)
    ensures r.Ok? <==> FullyBound(c, st)
    ensures r.Err? ==> r.error == Info(c, st).error
    ensures r.Ok? ==> |r.value| >= |c.name| + 2 && r.value[..|c.name| + 1] == c.name + "("
                      && r.value[|r.value| - 1] == ')'
  {
    match c.slots
    case None => Err(AttributeError("__slots__"))
    case Some(names) =>
      match ReadSlots(st, names)
      case Err(e) => Err(e)
      case Ok(vs) =>
        var s := c.name + "(" + Join(Items(names, vs)) + ")";
        assert s[..|c.name| + 1] == c.name + "(";
        Ok(s)
  }

  /** Equality is reflexive on fully bound instances. */
  lemma EqReflexive(c: Class, st: State)
    requires FullyBound(c, st)
    ensures Eq(c, st, c, st) == Ok(true)
  {
    forall i | 0 <= i < |c.slots.value|
      ensures PyEq(st[c.slots.value[i]], st[c.slots.value[i]])
    {
      PyEqReflexive(st[c.slots.value[i]]);
    }
  }

  /** Equality is symmetric: `a == b` succeeds exactly when `b == a` does,
      with the same answer. */
  lemma EqSymmetric(c1: Class, st1: State, c2: Class, st2: State)
    ensures Eq(c1, st1, c2, st2).Ok? <==> Eq(c2, st2, c1, st1).Ok?
    ensures Eq(c1, st1, c2, st2).Ok? ==> Eq(c1, st1, c2, st2) == Eq(c2, st2, c1, st1)
  {
    if c1 == c2 && FullyBound(c1, st1) && FullyBound(c2, st2) {
      forall i | 0 <= i < |c1.slots.value|
        ensures PyEq(st1[c1.slots.value[i]], st2[c1.slots.value[i]])
            <==> PyEq(st2[c1.slots.value[i]], st1[c1.slots.value[i]])
      {
        PyEqSymmetric(st1[c1.slots.value[i]], st2[c1.slots.value[i]]);
      }
    }
  }

  /** Instances of different classes are never equal, whatever their values. */
  lemma EqDifferentClasses(c1: Class, st1: State, c2: Class, st2: State)
    requires c1 != c2
    ensures Eq(c1, st1, c2, st2) != Ok(true)
  {
  }

  /** Equality reads only the declared slots: attributes bound outside them
      do not affect the answer. */
  lemma EqReadsOnlySlots(c1: Class, st1: State, st1': State, c2: Class, st2: State)
    requires c1.slots.Some?
    requires forall i :: 0 <= i < |c1.slots.value| ==> Lookup(st1, c1.slots.value[i]) == Lookup(st1', c1.slots.value[i])
    ensures Eq(c1, st1, c2, st2) == Eq(c1, st1', c2, st2)
  {
    var names := c1.slots.value;
    assert FullyBound(c1, st1) <==> FullyBound(c1, st1') by {
      forall i | 0 <= i < |names|
        ensures names[i] in st1 <==> names[i] in st1'
      {
        assert Lookup(st1, names[i]) == Lookup(st1', names[i]);
      }
    }
    if FullyBound(c1, st1) {
      forall i | 0 <= i < |names|
        ensures st1[names[i]] == st1'[names[i]]
      {
        assert Lookup(st1, names[i]) == Lookup(st1', names[i]);
      }
    }
  }
}
