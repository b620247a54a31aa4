/** The data model shared by the mixins: a class with its declarations, the
    attribute state of one instance, and the outcome of a construction step. */
module Classes {
  import opened Basics
  import opened Values

  /** The mixins of slotted.py that a class can have in its method
      resolution order. `Base` is not listed: it always ends the order. */
  datatype Mixin = Slotted | Typed | Immutable

  /** A concrete class.
      - `id` stands for the class object's identity (`type(a) == type(b)`
        compares identities, not names);
      - `mro` lists the mixins in method resolution order;
      - `slots` and `types` are the `__slots__` and `__types__` declarations,
        `None` when the class does not define them;
      - `classAttrs` are the class-level names (methods and declarations,
        inherited or not) that `hasattr` sees on every instance; a name that
        a slot of the class hides is not among them, since `hasattr` is
        False for it until the slot is bound. */
  datatype Class = Class(
    id: nat,
    name: string,
    mro: seq<Mixin>,
    slots: Option<seq<string>>,
    types: Option<seq<PyType>>,
    classAttrs: set<string>)

  /** The attributes bound on one instance. */
  type State = map<string, Value>

  /** Everything slotted.py raises is a `TypeError` with a message; reading
      an unbound attribute raises `AttributeError`. */
  datatype Error = TypeError(message: string) | AttributeError(attr: string)

  /** The result of a construction step or of an attribute assignment: the
      instance state reached, and the exception if one was raised there. */
  datatype Outcome = Completed(state: State) | Raised(state: State, error: Error)

  datatype Result<T> = Ok(value: T) | Err(error: Error)

  /** `hasattr(self, a)`: every attribute that reads back is seen, and so is
      every class-level name; a name that is neither is not. */
  function HasAttr(c: Class, st: State, a: string): (r: bool)
    ensures Lookup(st, a).Some? ==> r
    ensures a in c.classAttrs ==> r
    ensures a !in c.classAttrs ==> (r <==> Lookup(st, a).Some?)
  {
    a in st || a in c.classAttrs
  }

  predicate IsImmutable(c: Class) {
    Immutable in c.mro
  }

  function ImmutableError(className: string): Error {
    TypeError(className + " class is immutable")
  }

  function MissingSlotsError(className: string): Error {
    TypeError(className + " does not define __slots__")
  }

  function MissingTypesError(className: string): Error {
    TypeError(className + " does not define __types__")
  }

  function MismatchError(arg: Value, expected: PyType): Error {
    TypeError(Show(arg) + " should be of type " + TypeName(expected)
              + ". Got type " + TypeName(TypeOf(arg)))
  }

  /** `getattr(self, a)` as an Option: the bound value, if any. */
  function Lookup(st: State, a: string): Option<Value> {
    if a in st then Some(st[a]) else None
  }
}
