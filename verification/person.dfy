/** `class Person(Slotted, Typed, Immutable)` with `__slots__ = ['name', 'age']`
    and `__types__ = [str, int]`, and the classes of the mixins' own
    examples, with their expected outcomes. */
module PersonExample {
  import opened Basics
  import opened Values
  import opened Text
  import opened Classes
  import ImmutableMixin
  import SlottedMixin
  import TypedMixin
  import Chain

  /** Names `hasattr` finds on every instance through the classes of the
      resolution order, as defined in slotted.py (Python's `__hash__` is set
      to None because `__eq__` is defined). */
  const MixinAttrs: set<string> :=
    {"__init__", "_info", "__eq__", "__hash__", "__str__", "__repr__", "__setattr__",
     "__doc__", "__module__", "__dict__", "__weakref__"}

  const Person: Class := Class(
    0, "Person", [Slotted, Typed, Immutable],
    Some(["name", "age"]), Some([StrType, IntType]),
    MixinAttrs + {"__slots__", "__types__"})

  /** Alice's state after `Person('Alice', 25)`. */
  const Alice: State := map["name" := Str("Alice"), "age" := Int(25)]

  /** `c` is declared as `Person` is; its other class-level names are left
      open, so the facts below hold of `Person` whatever they are. */
  ghost predicate DeclaredAsPerson(c: Class) {
    && c.name == "Person"
    && c.mro == [Slotted, Typed, Immutable]
    && c.slots == Some(["name", "age"])
    && c.types == Some([StrType, IntType])
    && "name" !in c.classAttrs && "age" !in c.classAttrs
  }

  lemma PersonIsDeclaredAsPerson()
    ensures DeclaredAsPerson(Person)
  {
  }

  // The message lemmas below compare concatenations of literal strings. Each
  // such comparison is stated in a lemma of its own, whose requires name the
  // pieces, so that it is proved apart from the surrounding definitions.

  lemma JonesMessage()
    ensures MismatchError(Str("Jones"), IntType) == TypeError("Jones should be of type int. Got type str")
  {
    MessageForStr(Str("Jones"));
    JonesText(Show(Str("Jones")));
  }

  lemma MessageForStr(v: Value)
    requires v.Str?
    ensures MismatchError(v, IntType).message == v.s + " should be of type " + "int" + ". Got type " + "str"
  {
  }

  lemma JonesText(a: string)
    requires a == "Jones"
    ensures a + " should be of type " + "int" + ". Got type " + "str" == "Jones should be of type int. Got type str"
  {
  }

  /** `str(22.5)` is "22.5". */
  lemma ShowTwentyTwoAndAHalf()
    ensures Show(Float(225, 1)) == "22.5"
  {
    assert Pow10(1) == 10;
    assert SplitDecimal(225, 1) == (22, 5);
    assert NatStr(5) == "5";
    assert NatStr(22) == NatStr(2) + "2" == "22";
    assert PadZeros("5", 1) == "5";
    assert TrimZeros("5") == "5";
  }

  lemma MessageForFloat(v: Value)
    requires v.Float?
    ensures MismatchError(v, IntType).message == Show(v) + " should be of type " + "int" + ". Got type " + "float"
  {
  }

  lemma MessageText(a: string)
    requires a == "22.5"
    ensures a + " should be of type " + "int" + ". Got type " + "float" == "22.5 should be of type int. Got type float"
  {
  }

  lemma FloatMessage()
    ensures MismatchError(Float(225, 1), IntType) == TypeError("22.5 should be of type int. Got type float")
  {
    ShowTwentyTwoAndAHalf();
    MessageForFloat(Float(225, 1));
    MessageText(Show(Float(225, 1)));
  }

  /** `Person(*args)` for any arguments: construction succeeds exactly when
      the first argument (if any) is a str and the second (if any) an int,
      and otherwise raises for the first that is not; in either case `name`
      and `age` are bound to the first two arguments that were given, and
      nothing else is bound. */
  lemma {:induction false} PersonConstruction(c: Class, args: seq<Value>)
    requires DeclaredAsPerson(c)
    ensures var r := Chain.Construct(c, args);
      && (r.Completed? <==> (|args| > 0 ==> args[0].Str?) && (|args| > 1 ==> args[1].Int?))
      && (r.Raised? ==>
            r.error == if !args[0].Str? then MismatchError(args[0], StrType) else MismatchError(args[1], IntType))
      && (|args| > 0 ==> Lookup(r.state, "name") == Some(args[0]))
      && (|args| > 1 ==> Lookup(r.state, "age") == Some(args[1]))
      && (forall a :: a != "name" && a != "age" ==> a !in r.state)
      && (|args| <= 1 ==> "age" !in r.state)
      && (|args| == 0 ==> "name" !in r.state)
  {
    assert "name" != "age";
    assert Chain.SlotsDeclared(c);
    Chain.ComposedConstruction(c, args);
    var z := SlottedMixin.Zipped(c.slots.value, args);
    if |args| > 0 {
      assert z[0] == "name";
    }
    if |args| > 1 {
      assert z[1] == "age";
    }
    forall a | a != "name" && a != "age"
      ensures a !in z
    {
    }
    if |args| <= 1 {
      assert "age" !in z;
    }
    var t := TypedMixin.FirstMismatch(c.types.value, args);
    if t.Some? {
      assert t.value == 0 || t.value == 1;
    }
  }

  /** `Person('Alice', 25)` succeeds with name = 'Alice' and age = 25. */
  lemma AliceConstructed(c: Class)
    requires DeclaredAsPerson(c)
    ensures Chain.Construct(c, [Str("Alice"), Int(25)]) == Completed(Alice)
  {
    var r := Chain.Construct(c, [Str("Alice"), Int(25)]);
    PersonConstruction(c, [Str("Alice"), Int(25)]);
    assert r.state.Keys == Alice.Keys;
  }

  /** Rendering Alice's state: `Person(name=Alice, age=25)`. */
  lemma AliceRendered(c: Class)
    requires c.name == "Person" && c.slots == Some(["name", "age"])
    ensures SlottedMixin.Str(c, Alice) == Ok("Person(name=Alice, age=25)")
  {
    var vs := SlottedMixin.ReadSlots(Alice, ["name", "age"]);
    assert ["name", "age"][0] in Alice && ["name", "age"][1] in Alice;
    assert vs.value == [Str("Alice"), Int(25)];
    AliceItems();
    AliceText(Join(SlottedMixin.Items(["name", "age"], [Str("Alice"), Int(25)])));
  }

  lemma AliceItems()
    ensures Join(SlottedMixin.Items(["name", "age"], [Str("Alice"), Int(25)])) == "name=Alice, age=25"
  {
    var items := SlottedMixin.Items(["name", "age"], [Str("Alice"), Int(25)]);
    AgeItem(items[1]);
    NameItem(items[0]);
    assert |items| == 2;
    assert Join(items) == items[0] + ", " + items[1];
    AliceItemsText(items[0], items[1]);
  }

  lemma NameItem(item: string)
    requires item == "name" + "=" + Show(Str("Alice"))
    ensures item == "name=Alice"
  {
  }

  lemma AgeItem(item: string)
    requires item == "age" + "=" + Show(Int(25))
    ensures item == "age=25"
  {
    assert NatStr(25) == NatStr(2) + [Digit(5)];
    assert Show(Int(25)) == "25";
  }

  lemma AliceItemsText(a: string, b: string)
    requires a == "name=Alice" && b == "age=25"
    ensures a + ", " + b == "name=Alice, age=25"
  {
  }

  lemma AliceText(body: string)
    requires body == "name=Alice, age=25"
    ensures "Person" + "(" + body + ")" == "Person(name=Alice, age=25)"
  {
  }

  /** `Person('Bob', 22.5)` raises "22.5 should be of type int. Got type
      float" from Typed, after Slotted had already bound both fields. */
  lemma BobRejected(c: Class)
    requires DeclaredAsPerson(c)
    ensures Chain.Construct(c, [Str("Bob"), Float(225, 1)])
         == Raised(map["name" := Str("Bob"), "age" := Float(225, 1)],
                   TypeError("22.5 should be of type int. Got type float"))
  {
    var args := [Str("Bob"), Float(225, 1)];
    PersonConstruction(c, args);
    var r := Chain.Construct(c, args);
    assert r.Raised? && r.error == MismatchError(args[1], IntType);
    NameAndAgeOnly(r.state, args[0], args[1]);
    FloatMessage();
  }

  /** A state binding exactly `name` and `age` is the two-entry map. */
  lemma NameAndAgeOnly(st: State, name: Value, age: Value)
    requires Lookup(st, "name") == Some(name) && Lookup(st, "age") == Some(age)
    requires forall a :: a != "name" && a != "age" ==> a !in st
    ensures st == map["name" := name, "age" := age]
  {
    assert st.Keys == {"name", "age"};
  }

  /** `Alice.age = 26` raises "Person class is immutable" and age stays 25. */
  lemma AliceAgeFrozen(c: Class)
    requires DeclaredAsPerson(c)
    ensures ImmutableMixin.SetAttr(c, Alice, "age", Int(26))
         == Raised(Alice, TypeError("Person class is immutable"))
    ensures Alice["age"] == Int(25)
  {
    assert Immutable in c.mro;
    assert "age" in Alice;
    PersonImmutableText(c.name);
  }

  lemma PersonImmutableText(n: string)
    requires n == "Person"
    ensures ImmutableError(n) == TypeError("Person class is immutable")
  {
  }

  /** `Person('Alice')` also succeeds, since zip stops at the shorter
      sequence: `age` is left unbound, so rendering raises AttributeError and
      `age` can still be assigned once. */
  lemma AliceWithoutAge(c: Class)
    requires DeclaredAsPerson(c)
    ensures Chain.Construct(c, [Str("Alice")]) == Completed(map["name" := Str("Alice")])
    ensures SlottedMixin.Str(c, map["name" := Str("Alice")]) == Err(AttributeError("age"))
    ensures ImmutableMixin.SetAttr(c, map["name" := Str("Alice")], "age", Int(3)).Completed?
  {
    PersonConstruction(c, [Str("Alice")]);
    var r := Chain.Construct(c, [Str("Alice")]);
    assert r.state.Keys == {"name"};
    var st := map["name" := Str("Alice")];
    assert ["name", "age"][0] in st && ["name", "age"][1] !in st;
  }

  /** The example in Slotted's docstring, `class Person(Slotted)` with
      `__slots__ = ['name', 'age']`: `Person('Alice', 25)` binds both slots
      and renders as `Person(name=Alice, age=25)`. */
  lemma SlottedExample(c: Class)
    requires c.name == "Person" && c.mro == [Slotted] && c.slots == Some(["name", "age"])
    requires "name" !in c.classAttrs && "age" !in c.classAttrs
    ensures Chain.Construct(c, [Str("Alice"), Int(25)]) == Completed(Alice)
    ensures SlottedMixin.Str(c, Alice) == Ok("Person(name=Alice, age=25)")
  {
    var args := [Str("Alice"), Int(25)];
    assert "name" != "age";
    assert Chain.SlotsDeclared(c);
    Chain.SlottedStepOnFreshInstance(c, args);
    var r := Chain.Construct(c, args);
    assert SlottedMixin.Zipped(c.slots.value, args) == ["name", "age"];
    assert r.state.Keys == Alice.Keys;
    AliceRendered(c);
  }

  /** The example in Typed's docstring, `class Person(Typed)` with
      `__types__ = [str, int]`, whose own `__init__` first runs Typed's
      step: Alice's arguments pass, Bob's raise for 'Jones'. */
  lemma TypedExample(c: Class)
    requires c.types == Some([StrType, IntType])
    ensures TypedMixin.Init(c, map[], [Str("Alice"), Int(25)]) == Completed(map[])
    ensures TypedMixin.Init(c, map[], [Str("Bob"), Str("Jones")])
         == Raised(map[], TypeError("Jones should be of type int. Got type str"))
  {
    var args := [Str("Bob"), Str("Jones")];
    assert TypedMixin.FirstMismatch(c.types.value, args) == Some(1);
    JonesMessage();
    assert args[1] == Str("Jones");
  }
}
