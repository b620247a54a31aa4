/** The cooperative construction chain: each mixin's `__init__` in method
    resolution order, each forwarding the same arguments to the next, ending
    at `Base.__init__`. */
module Chain {
  import opened Basics
  import opened Values
  import opened Classes
  import Base
  import ImmutableMixin
  import SlottedMixin
  import TypedMixin

  /** The `__init__` step a mixin contributes. `Immutable` defines no
      `__init__`, so lookup passes it by and it contributes no step. */
  function Step(c: Class, m: Mixin, st: State, args: seq<Value>): (r: Outcome)
    ensures m != Slotted ==> r.state == st
    ensures m == Immutable ==> r == Completed(st)
    ensures m == Slotted && r.Raised? ==>
      r.error == MissingSlotsError(c.name) || r.error == ImmutableError(c.name)
    ensures forall a :: a in r.state ==> a in st || (c.slots.Some? && a in c.slots.value)
  {
    match m
    case Slotted => SlottedMixin.Init(c, st, args)
    case Typed => TypedMixin.Init(c, st, args)
    case Immutable => Completed(st)
  }

  /** Runs the steps of `mro` in order with the same `args`; the first step
      that raises ends construction with the state reached so far; after the
      last step, `Base.__init__` ends the chain. */
  function RunChain(c: Class, mro: seq<Mixin>, st: State, args: seq<Value>): (r: Outcome)
    ensures Slotted !in mro ==> r.state == st
    ensures (forall i :: 0 <= i < |mro| ==> mro[i] == Immutable) ==> r == Completed(st)
    ensures r.Raised? && Slotted !in mro ==> Typed in mro
    ensures forall a :: a in r.state ==> a in st || (c.slots.Some? && a in c.slots.value)
    decreases |mro|
  {
    if |mro| == 0 then Base.Init(st, args)
    else
      match Step(c, mro[0], st, args)
      case Raised(s, e) => Raised(s, e)
      case Completed(s) => RunChain(c, mro[1..], s, args)
  }

  /** Calling the class: the chain runs on a fresh instance with no
      attributes bound. Whatever the outcome, the only attributes bound are
      declared slots, and none at all when Slotted is not in the order. */
  function Construct(c: Class, args: seq<Value>): (r: Outcome)
    ensures forall a :: a in r.state ==> c.slots.Some? && a in c.slots.value
    ensures Slotted !in c.mro ==> r.state == map[]
  {
    RunChain(c, c.mro, map[], args)
  }

  /** The class declares `__slots__` with no repeated name and none among
      the class-level names `hasattr` sees. Python rejects a slot that
      clashes with a name of the class's own body; a slot named after an
      inherited attribute hides it, so that name is not in `classAttrs`. */
  ghost predicate SlotsDeclared(c: Class) {
    && c.slots.Some?
    && Distinct(c.slots.value)
    && forall i :: 0 <= i < |c.slots.value| ==> c.slots.value[i] !in c.classAttrs
  }

  lemma DistinctPrefix<T>(s: seq<T>, n: nat)
    requires Distinct(s) && n <= |s|
    ensures Distinct(s[..n])
  {
  }

  /** On a fresh instance, Slotted's step binds exactly the zipped slots:
      `slots[i]` to `args[i]` for every `i < min(|slots|, |args|)`, and
      nothing else; it completes even under `Immutable`. */
  lemma {:induction false} SlottedStepOnFreshInstance(c: Class, args: seq<Value>)
    requires SlotsDeclared(c)
    ensures var r := SlottedMixin.Init(c, map[], args);
      var z := SlottedMixin.Zipped(c.slots.value, args);
      && r.Completed?
      && (forall i :: 0 <= i < |z| ==> Lookup(r.state, z[i]) == Some(args[i]))
      && (forall a :: a !in z ==> a !in r.state)
  {
    var names := c.slots.value;
    var z := SlottedMixin.Zipped(names, args);
    DistinctPrefix(names, |z|);
    if IsImmutable(c) {
      SlottedMixin.AssignSlotsImmutable(c, map[], names, args);
    } else {
      SlottedMixin.AssignSlotsMutable(c, map[], names, args);
    }
    var r := SlottedMixin.AssignSlots(c, map[], names, args);
    forall i | 0 <= i < |z|
      ensures Lookup(r.state, z[i]) == Some(args[i])
    {
      SlottedMixin.AssignSlotsBinds(c, map[], names, args, i);
    }
    forall a | a !in z
      ensures a !in r.state
    {
      SlottedMixin.AssignSlotsFrame(c, map[], names, args, a);
    }
  }

  /** The composition `class Person(Slotted, Typed, Immutable)`: Slotted
      assigns the zipped slots (each write checked by Immutable), then Typed
      validates the same arguments against the state Slotted left, then Base
      ends the chain. Construction completes exactly when Typed's validation
      does, and a mismatch is raised only after the fields were bound. */
  lemma {:induction false} ComposedConstruction(c: Class, args: seq<Value>)
    requires c.mro == [Slotted, Typed, Immutable]
    requires SlotsDeclared(c)
    ensures var r := Construct(c, args);
      var z := SlottedMixin.Zipped(c.slots.value, args);
      && r.state == SlottedMixin.Init(c, map[], args).state
      && r == TypedMixin.Init(c, r.state, args)
      && (forall i :: 0 <= i < |z| ==> Lookup(r.state, z[i]) == Some(args[i]))
      && (forall a :: a !in z ==> a !in r.state)
  {
    SlottedStepOnFreshInstance(c, args);
    var s := SlottedMixin.Init(c, map[], args).state;
    assert Construct(c, args) == RunChain(c, [Typed, Immutable], s, args);
    var t := TypedMixin.Init(c, s, args);
    if t.Completed? {
      assert RunChain(c, [Typed, Immutable], s, args) == RunChain(c, [Immutable], s, args);
    }
  }

  /** With Slotted first in the order, a class without `__slots__` fails
      before anything is bound. */
  lemma MissingSlots(c: Class, args: seq<Value>)
    requires |c.mro| > 0 && c.mro[0] == Slotted
    requires c.slots.None?
    ensures Construct(c, args) == Raised(map[], MissingSlotsError(c.name))
  {
  }

  /** In the opposite order, `(Typed, Slotted, Immutable)`, a mismatch is
      raised before Slotted runs, so nothing is bound yet. */
  lemma TypedFirstBindsNothingOnMismatch(c: Class, args: seq<Value>)
    requires c.mro == [Typed, Slotted, Immutable]
    requires c.types.Some? && !TypedMixin.WellTyped(c.types.value, args)
    ensures Construct(c, args).Raised? && Construct(c, args).state == map[]
  {
  }

  /** After a successful construction of an immutable class, every bound
      attribute is frozen: any reassignment raises and changes nothing. */
  lemma FrozenAfterConstruction(c: Class, args: seq<Value>, a: string, v: Value)
    requires IsImmutable(c)
    requires Construct(c, args).Completed?
    requires a in Construct(c, args).state
    ensures var st := Construct(c, args).state;
      ImmutableMixin.SetAttr(c, st, a, v) == Raised(st, ImmutableError(c.name))
  {
  }

  /** A declared slot beyond the last argument is left unbound by a
      successful construction, and can still be assigned once afterwards. */
  lemma {:induction false} UnzippedSlotStaysWritable(c: Class, args: seq<Value>, v: Value)
    requires c.mro == [Slotted, Typed, Immutable]
    requires SlotsDeclared(c)
    requires |args| < |c.slots.value|
    requires Construct(c, args).Completed?
    ensures var st := Construct(c, args).state;
      var slot := c.slots.value[|args|];
      slot !in st && ImmutableMixin.SetAttr(c, st, slot, v).Completed?
  {
    ComposedConstruction(c, args);
    var z := SlottedMixin.Zipped(c.slots.value, args);
    var slot := c.slots.value[|args|];
    assert slot !in z by {
      forall i | 0 <= i < |z|
        ensures z[i] != slot
      {
        assert z[i] == c.slots.value[i];
      }
    }
  }
}
