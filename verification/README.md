# slotted.py in Dafny

A model of `slotted.py` from classtoolz. That file defines three mixins that are
combined by multiple inheritance to build small record-like classes:

- `Slotted` assigns positional constructor arguments to the names in `__slots__`,
  compares instances by (class, slot values), and renders them as
  `Name(slot=value, ...)`;
- `Typed` checks the positional arguments against the types in `__types__`;
- `Immutable` turns attribute assignment into write-once assignment.

All three cooperate through `super().__init__` calls that end at the no-op
`Base.__init__`. The example class `Person(Slotted, Typed, Immutable)` runs
Slotted's assignment first, then Typed's validation, then Base.

The model replaces Python's runtime machinery with explicit functional steps.

- An instance is a finite map from attribute name to value (`Classes.State`).
- A class is a value (`Classes.Class`). It holds its identity, its name, its
  mixins in method resolution order, its optional `__slots__` and `__types__`
  declarations, and the class-level names that `hasattr` also sees.
- A construction step or an attribute assignment returns an `Outcome`. That is
  either `Completed(state)`, or `Raised(state, error)` with the state reached
  when the exception was raised. This makes it possible to state that Bob's
  fields were already bound when the type error was raised.
- Values are tagged `str`, `int` and `float` (`Values.Value`). A float is the
  decimal value of its shortest representation, such as 22.5 for `22.5`. This
  lets `str` and `==` (for example `25 == 25.0`) be modelled without
  floating-point arithmetic. "## Left out" gives the one place where that
  differs from Python.

Modules, in dependency order:

| file | module | contents |
|---|---|---|
| basics.dfy | `Basics` | `Option`, `Min`, `Distinct` |
| text.dfy | `Text` | `", ".join` and its inverse split, first occurrence of a character, decimal digits |
| values.dfy | `Values` | value tags, `type(v).__name__`, `isinstance`, `"%s" % v`, Python `==` |
| classes.dfy | `Classes` | `Class`, `State`, `Error`, `Outcome`, `Result`, `hasattr`, error messages |
| base.dfy | `Base` | `Base.__init__` |
| immutable.dfy | `ImmutableMixin` | `setattr` with and without `Immutable.__setattr__` |
| slotted.dfy | `SlottedMixin` | `Slotted.__init__`, `_info`, `__eq__`, `__str__`/`__repr__` |
| typed.dfy | `TypedMixin` | `Typed.__init__` |
| chain.dfy | `Chain` | the cooperative `__init__` chain over a class's resolution order |
| rendering.dfy | `Rendering` | a parser for rendered instances, used as the inverse of `__str__` |
| person.dfy | `PersonExample` | `Person` and the docstring examples |

Behaviour of the code that the model keeps:

- `zip` stops at the shorter sequence, so `Person('Alice')` succeeds with
  `age` unbound. Rendering that instance raises `AttributeError`, and `age`
  can still be assigned once. So not every declared slot is frozen after
  construction (`PersonExample.AliceWithoutAge`,
  `Chain.UnzippedSlotStaysWritable`).
- `__slots__ = []` is accepted, and construction then binds nothing.
- `hasattr` also finds class-level names. So on an `Immutable` instance,
  assigning a name such as `_info` raises "class is immutable" even the first
  time. `Classes.HasAttr` looks at `classAttrs` too.

## Model

| member | source | states |
|---|---|---|
| Base.Init | slotted.py:2-3 | The end of the chain accepts any arguments, binds nothing and never raises. |
| ImmutableMixin.SetAttr | slotted.py:73-77 | Assignment raises "<Class> class is immutable" exactly when the class is Immutable and `hasattr` already finds the name; a failed assignment leaves the state unchanged; a successful one binds exactly that name to the value and keeps every other binding. |
| ImmutableMixin.WriteOnce | slotted.py:73-77 | After a first successful assignment on an Immutable instance, a second assignment to the same name raises and the first value stays. |
| ImmutableMixin.MutableOverwrites | slotted.py:20 | Without Immutable, assignment always succeeds and the last write wins. |
| Classes.HasAttr | slotted.py:74 | `hasattr` is True for every attribute that reads back and for every class-level name, and False for any other name. |
| SlottedMixin.AssignSlots | slotted.py:19-20 | The assignment loop can only raise the immutability error, and only for an Immutable class. It binds no name outside the slot names. |
| SlottedMixin.AssignSlotsFrame | slotted.py:19-20 | No attribute outside the zipped slot names is added, removed or changed, whether the loop completes or raises part-way. |
| SlottedMixin.AssignSlotsMutable | slotted.py:19-20 | Without Immutable, the assignment loop always completes. |
| SlottedMixin.AssignSlotsImmutable | slotted.py:19-20 | With Immutable, the loop completes if and only if the zipped slot names are distinct and none is already visible to `hasattr`. |
| SlottedMixin.AssignSlotsBinds | slotted.py:19-20 | After a completed loop over distinct names, `slots[i]` is bound to `args[i]` for every `i < min(len(slots), len(args))`. |
| SlottedMixin.Init | slotted.py:17-23 | Without `__slots__`, the step raises "<Class> does not define __slots__" before binding anything; with `__slots__`, its only possible error is the immutability error. It binds only declared slots. |
| SlottedMixin.ReadSlots | slotted.py:27 | Reading the slots succeeds if and only if all are bound, and yields their values in slot order; otherwise it raises AttributeError for the first unbound slot. |
| SlottedMixin.Info | slotted.py:26-27 | `_info` yields the concrete class and one value per declared slot, in order, exactly when every slot is bound; without `__slots__` it raises AttributeError. |
| Values.PyEq | slotted.py:30 | Element `==` inside the tuple comparison: a str equals only the same str, never a number; two ints are equal exactly when they are the same int. |
| Values.PyEqNumeric | slotted.py:30 | Between two numbers, int or float in any mix, `==` holds exactly when their rational values (`Values.NumValue`) are equal. |
| SlottedMixin.Eq | slotted.py:29-30 | `a.__eq__(b)` is True if and only if both classes are identical, both instances are fully bound, and their slot values are pairwise `==` in slot order. It raises `a`'s `_info` error first, then `b`'s. |
| SlottedMixin.EqReflexive | slotted.py:29-30 | A fully bound instance equals itself. |
| SlottedMixin.EqSymmetric | slotted.py:29-30 | `a == b` succeeds exactly when `b == a` does, and gives the same answer. |
| SlottedMixin.EqDifferentClasses | slotted.py:29-30 | Instances of different classes are never equal. |
| SlottedMixin.EqReadsOnlySlots | slotted.py:27 | Attributes outside the declared slots do not affect equality. |
| Values.Show | slotted.py:34 | `"%s" % v` shows a str as itself. It shows an int or float as non-empty number text (digits, sign, point); the text has a point exactly when the number is a float. |
| SlottedMixin.Items | slotted.py:34 | One `"slot=value"` item per slot, in order. Each item is the slot name, then '=', then the value's text. An item whose name and value text hold no ", " holds none. |
| SlottedMixin.Str | slotted.py:32-37 | Rendering succeeds if and only if every slot is bound; it raises the same error as `_info` otherwise; a rendering starts with "<Class>(" and ends with ")". The same function is `__repr__`. |
| Rendering.RenderRoundTrip | slotted.py:32-35 | Reading a rendering back gives the class name and each slot with the text of its value, in slot order. This holds when the class name holds no '(', no slot name holds '=' or ", ", and no value text holds ", ". |
| Rendering.NumbersKeepUnambiguous | slotted.py:34 | Those conditions hold whenever the class name and slot names qualify and every slot value is a number, or a str without ", ". |
| Rendering.AmbiguousRendering | slotted.py:34-35 | Two instances with different str values can render identically when a value contains ", ". |
| Text.SplitJoin | slotted.py:34 | Splitting on ", " undoes `", ".join` for non-empty pieces without the separator. |
| Values.ShowNumberHasNoSep | slotted.py:34 | The text of an int or float never contains ", ". |
| Values.ShowIntRoundTrip | slotted.py:34 | The text of an int reads back as the same int. |
| Values.ShowFloatReadsBack | slotted.py:34 | The text of a float, without its sign, is digits, a point and digits. Read without the point and scaled by the number of digits after it, they give back the float's magnitude. |
| Values.FloatDigitsValue | slotted.py:34 | The integer digits followed by the fraction digits, read as one number, are the float's mantissa rescaled from `e` places to the number of fraction digits shown. |
| Values.FractionDigitsValue | slotted.py:34 | The fraction digits stand for the fractional part: with trailing zeros dropped, they still read as `fp / 10^e`. |
| TypedMixin.FirstMismatch | slotted.py:60-63 | The scan returns no index if and only if every zipped argument is an instance of its declared type; otherwise it returns the first index where the type does not match. |
| TypedMixin.Init | slotted.py:58-68 | The step never changes the state. Without `__types__`, it raises "<Class> does not define __types__". Otherwise it completes if and only if all zipped arguments have their declared types, and else raises "<arg> should be of type <expected>. Got type <actual>" for the first mismatch. |
| TypedMixin.ExtraArgumentsUnchecked | slotted.py:60 | Arguments beyond the declared types do not affect validation. |
| Chain.Step | slotted.py:24 | The step a mixin contributes. Only Slotted's step binds anything, and only declared slots. Immutable has no `__init__`, so its step completes unchanged. Slotted's step raises only the missing-`__slots__` or immutability error. |
| Chain.RunChain | slotted.py:24 | A chain without Slotted binds nothing. A chain of only Immutable (no `__init__`) completes unchanged. A chain without Slotted can only raise if Typed is in it. |
| Chain.Construct | slotted.py:80 | Calling the class binds only declared slots, whatever the outcome, and nothing when Slotted is not in the order. |
| Chain.SlottedStepOnFreshInstance | slotted.py:17-20 | On a fresh instance, Slotted's step completes and binds exactly the zipped slots to their arguments. |
| Chain.ComposedConstruction | slotted.py:80-99 | For the order (Slotted, Typed, Immutable), the final state is the one Slotted's step leaves. The outcome is Typed's validation of the same arguments over that state. Exactly the zipped slots are bound. |
| Chain.MissingSlots | slotted.py:18-23 | With Slotted first, a class without `__slots__` raises "<Class> does not define __slots__" with nothing bound. |
| Chain.TypedFirstBindsNothingOnMismatch | slotted.py:58-68 | With Typed before Slotted, a type mismatch raises before any field is bound. |
| Chain.FrozenAfterConstruction | slotted.py:73-77 | After construction of an Immutable class, every bound attribute rejects reassignment and the state is unchanged. |
| Chain.UnzippedSlotStaysWritable | slotted.py:19-20 | A declared slot beyond the last argument stays unbound after construction, and can be assigned once later. |
| PersonExample.PersonConstruction | slotted.py:80-99 | `Person(*args)` succeeds if and only if the first argument (if any) is a str and the second (if any) is an int; otherwise it raises for the first that is not. `name` and `age` are bound to the given arguments and nothing else is bound. |
| PersonExample.AliceConstructed | slotted.py:88 | `Person('Alice', 25)` binds name = 'Alice' and age = 25. |
| PersonExample.AliceRendered | slotted.py:89-90 | Alice renders as `Person(name=Alice, age=25)`. |
| PersonExample.BobRejected | slotted.py:83-86 | `Person('Bob', 22.5)` raises "22.5 should be of type int. Got type float" with both fields already bound. |
| PersonExample.AliceAgeFrozen | slotted.py:92-95 | `Alice.age = 26` raises "Person class is immutable" and age stays 25. |
| PersonExample.AliceWithoutAge | slotted.py:19-20 | `Person('Alice')` succeeds with `age` unbound; rendering it raises AttributeError for `age`; `age` can then be assigned once. |
| PersonExample.SlottedExample | slotted.py:9-14 | The Slotted docstring example binds both slots and renders as `Person(name=Alice, age=25)`. |
| PersonExample.TypedExample | slotted.py:43-54 | In the Typed docstring example, Alice's arguments pass, and Bob's raise "Jones should be of type int. Got type str". |

## Left out

- Python's method resolution order and `super()` lookup are not computed. A
  class lists its mixins in resolution order, and `Chain.RunChain` runs their
  `__init__` steps in that order with the same arguments. `Base` always ends
  the order.
- Keyword arguments are not modelled. They are accepted and forwarded but
  never read (lines 3, 24 and 68).
- `isinstance` is a tag match over `str`, `int` and `float`. Subclassing,
  such as `bool` being an `int`, is not modelled.
- `"%s" % v` is modelled for str, int and float values only. A float is
  shown in positional notation with at least one fractional digit. Python's
  switch to exponent notation for very large or very small floats is not
  modelled, and neither are `nan`, `inf` or `-0.0`.
- Typed's handler for an `AttributeError` raised while `__types__` exists
  (lines 64-67) lets construction continue. That depends on foreign
  exception behaviour, so it is not modelled.
- Slotted's `except AttributeError` (line 21) would also catch an
  `AttributeError` raised by an assignment. In this model, assignments raise
  only the immutability `TypeError`.
- Reading a name that is a class attribute but not bound on the instance
  gives no value here.
- Which class-level names a slot hides is not computed. Python rejects a
  slot that clashes with a name of the class's own body. But a slot named
  after an inherited attribute, such as `_info`, hides that attribute:
  `hasattr` is False for it until the slot is bound. A `Classes.Class` must
  leave such a hidden name out of `classAttrs`. Otherwise the model raises
  the immutability error on the first assignment, where Python does not.
- Python's own `object` attributes (`__class__`, `__dict__` of `object`, …)
  are not listed in `PersonExample.Person`'s class-level names. The
  `PersonExample` lemmas hold for every class declared like `Person`,
  whatever its class-level names, provided they do not include `name` or `age`.
- `__eq__` with an `other` that is not a Slotted instance is not modelled.
  (In Python, `other._info()` raises `AttributeError`.)
- SlottedMixin.Eq: models `a.__eq__(b)`. When `b`'s class is a strict
  subclass of `a`'s, Python's `a == b` calls `b.__eq__(a)` first, so `b`'s
  `_info` error comes first. The model has no subclassing and does not
  capture this.
- SlottedMixin.Eq: comparing an int with a float is exact only when the
  float's magnitude is below 2^53. Above that, a float's shortest decimal
  text can differ from its binary value. For example, Python's
  `10**23 == 1e23` is False, but the model compares 10^23 with the decimal
  1e23 and says True. The same holds for `Values.PyEq`.
- Class identity is modelled by the `id` field of `Classes.Class`. Two
  distinct Python classes are assumed to have different `id` values.
