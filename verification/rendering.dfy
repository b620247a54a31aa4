/** Reading a rendered instance back: the inverse of `SlottedMixin.Str` on
    instances whose names and values cannot be confused with the rendering's
    punctuation. */
module Rendering {
  import opened Basics
  import opened Text
  import opened Values
  import opened Classes
  import SlottedMixin

  /** A rendering taken apart: the class name and the (slot, text) items. */
  datatype Rendered = Rendered(className: string, items: seq<(string, string)>)

  /** Splits `"slot=text"` at its first '='. */
  function ParseItem(item: string): Option<(string, string)> {
    match IndexOf(item, '=')
    case None => None
    case Some(j) => Some((item[..j], item[j + 1..]))
  }

  function ParseItems(items: seq<string>): (r: Option<seq<(string, string)>>)
    ensures r.Some? ==> |r.value| == |items|
  {
    if |items| == 0 then Some([])
    else
      match (ParseItem(items[0]), ParseItems(items[1..]))
      case (Some(p), Some(ps)) => Some([p] + ps)
      case _ => None
  }

  /** Splits `"Name(item, item, ...)"` into its name and its items. */
  function Parse(s: string): Option<Rendered> {
    match IndexOf(s, '(')
    case None => None
    case Some(k) =>
      if k + 1 < |s| && s[|s| - 1] == ')' then
        match ParseItems(Split(s[k + 1..|s| - 1]))
        case None => None
        case Some(ps) => Some(Rendered(s[..k], ps))
      else None
  }

  /** The items `Str` renders for a fully bound instance, as pairs. */
  function Expected(names: seq<string>, st: State): seq<(string, string)>
    requires forall i :: 0 <= i < |names| ==> names[i] in st
  {
    if |names| == 0 then []
    else [(names[0], Show(st[names[0]]))] + Expected(names[1..], st)
  }

  /** Slot names and shown values that the rendering keeps apart: no '='
      in a slot name and no ", " in either (true of Python identifiers and
      of every int and float). */
  ghost predicate Unambiguous(c: Class, st: State) {
    && SlottedMixin.FullyBound(c, st)
    && '(' !in c.name
    && forall i :: 0 <= i < |c.slots.value| ==>
         && '=' !in c.slots.value[i]
         && !ContainsSep(c.slots.value[i])
         && !ContainsSep(Show(st[c.slots.value[i]]))
  }

  lemma ParseItemOf(slot: string, text: string)
    requires '=' !in slot
    ensures ParseItem(slot + "=" + text) == Some((slot, text))
  {
    var item := slot + "=" + text;
    assert item[..|slot|] == slot;
    IndexOfAt(item, '=', |slot|);
    assert item[|slot| + 1..] == text;
  }

  lemma {:induction false} ParseItemsOf(names: seq<string>, vs: seq<Value>, st: State)
    requires |names| == |vs|
    requires forall i :: 0 <= i < |names| ==> names[i] in st && vs[i] == st[names[i]]
    requires forall i :: 0 <= i < |names| ==> '=' !in names[i]
    ensures ParseItems(SlottedMixin.Items(names, vs)) == Some(Expected(names, st))
    decreases |names|
  {
    var items := SlottedMixin.Items(names, vs);
    if |names| > 0 {
      ParseItemOf(names[0], Show(vs[0]));
      assert items[1..] == SlottedMixin.Items(names[1..], vs[1..]);
      ParseItemsOf(names[1..], vs[1..], st);
    } else {
      assert items == [];
    }
  }

  /** Reading back the rendering of an unambiguous instance recovers its
      class name and every slot with the text of its value, in slot order. */
  lemma RenderRoundTrip(c: Class, st: State)
    requires Unambiguous(c, st)
    ensures SlottedMixin.Str(c, st).Ok?
    ensures Parse(SlottedMixin.Str(c, st).value)
         == Some(Rendered(c.name, Expected(c.slots.value, st)))
  {
    var names := c.slots.value;
    var vs := SlottedMixin.ReadSlots(st, names).value;
    var items := SlottedMixin.Items(names, vs);
    var body := Join(items);
    var s := c.name + "(" + body + ")";
    assert SlottedMixin.Str(c, st) == Ok(s);
    forall i | 0 <= i < |items|
      ensures items[i] != "" && !ContainsSep(items[i])
    {
      assert vs[i] == st[names[i]];
      assert !ContainsSep(names[i]) && !ContainsSep(Show(vs[i]));
    }
    SplitJoin(items);
    ParseItemsOf(names, vs, st);
    assert s[..|c.name|] == c.name;
    IndexOfAt(s, '(', |c.name|);
    assert s[|c.name| + 1..|s| - 1] == body;
  }

  /** What makes an instance unambiguous in practice: a class name without
      '(', slot names without '=' or ", " (true of Python identifiers), and
      slot values that are numbers or strings without ", ". The text of a
      number never holds ", ", so only string values can break the round
      trip. */
  lemma NumbersKeepUnambiguous(c: Class, st: State)
    requires SlottedMixin.FullyBound(c, st) && '(' !in c.name
    requires forall i :: 0 <= i < |c.slots.value| ==>
      '=' !in c.slots.value[i] && !ContainsSep(c.slots.value[i])
    requires forall i :: 0 <= i < |c.slots.value| && st[c.slots.value[i]].Str? ==>
      !ContainsSep(st[c.slots.value[i]].s)
    ensures Unambiguous(c, st)
  {
    forall i | 0 <= i < |c.slots.value|
      ensures !ContainsSep(Show(st[c.slots.value[i]]))
    {
      var v := st[c.slots.value[i]];
      if !v.Str? {
        ShowNumberHasNoSep(v);
      }
    }
  }

  /** A string value containing ", " makes the rendering ambiguous: two
      instances with different values render identically. */
  lemma AmbiguousRendering(c: Class)
    requires c.slots == Some(["a", "b"])
    ensures var st1 := map["a" := Str("x, b=y"), "b" := Str("z")];
      var st2 := map["a" := Str("x"), "b" := Str("y, b=z")];
      && st1 != st2
      && SlottedMixin.Str(c, st1).Ok?
      && SlottedMixin.Str(c, st1) == SlottedMixin.Str(c, st2)
  {
    var st1 := map["a" := Str("x, b=y"), "b" := Str("z")];
    var st2 := map["a" := Str("x"), "b" := Str("y, b=z")];
    assert st1["a"] != st2["a"];
    ReadTwo(st1, "a", "b");
    ReadTwo(st2, "a", "b");
    JoinItemsOfTwo("a", "b", Str("x, b=y"), Str("z"));
    JoinItemsOfTwo("a", "b", Str("x"), Str("y, b=z"));
    AmbiguousText();
  }

  lemma ReadTwo(st: State, a: string, b: string)
    requires a in st && b in st
    ensures SlottedMixin.ReadSlots(st, [a, b]) == Ok([st[a], st[b]])
  {
    assert [a, b][0] == a && [a, b][1] == b;
    var r := SlottedMixin.ReadSlots(st, [a, b]);
    assert forall i :: 0 <= i < |[a, b]| ==> [a, b][i] in st;
    assert r.Ok?;
    assert |r.value| == 2 && r.value[0] == st[a] && r.value[1] == st[b];
    assert r.value == [st[a], st[b]];
  }

  lemma JoinItemsOfTwo(a: string, b: string, va: Value, vb: Value)
    ensures Join(SlottedMixin.Items([a, b], [va, vb])) == a + "=" + Show(va) + ", " + (b + "=" + Show(vb))
  {
    var items := SlottedMixin.Items([a, b], [va, vb]);
    assert items == [a + "=" + Show(va), b + "=" + Show(vb)];
    assert items[1..] == [b + "=" + Show(vb)];
  }

  lemma AmbiguousText()
    ensures "a" + "=" + Show(Str("x, b=y")) + ", " + ("b" + "=" + Show(Str("z")))
         == "a" + "=" + Show(Str("x")) + ", " + ("b" + "=" + Show(Str("y, b=z")))
  {
    assert "a" + "=" + "x, b=y" + ", " + ("b" + "=" + "z") == "a=x, b=y, b=z";
    assert "a" + "=" + "x" + ", " + ("b" + "=" + "y, b=z") == "a=x, b=y, b=z";
  }
}
