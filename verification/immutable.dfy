/** `Immutable`: write-once attribute assignment. */
module ImmutableMixin {
  import opened Values
  import opened Classes

  /** `setattr(self, attr, v)` on an instance of `c`: `Immutable.__setattr__`
      when `Immutable` is in the class's resolution order, otherwise the plain
      `object.__setattr__`. */
  function SetAttr(c: Class, st: State, attr: string, v: Value): (r: Outcome)
    ensures r.Raised? <==> IsImmutable(c) && HasAttr(c, st, attr)
    ensures r.Raised? ==> r.state == st && r.error == ImmutableError(c.name)
    ensures r.Completed? ==>
      && r.state.Keys == st.Keys + {attr}
      && r.state[attr] == v
      && forall a :: a in st && a != attr ==> r.state[a] == st[a]
  {
    if IsImmutable(c) && HasAttr(c, st, attr) then Raised(st, ImmutableError(c.name))
    else Completed(st[attr := v])
  }

  /** Once an attribute of an immutable instance is bound, no later
      assignment can change it: every attempt raises and leaves the state. */
  lemma WriteOnce(c: Class, st: State, attr: string, v: Value, w: Value)
    requires IsImmutable(c)
    requires SetAttr(c, st, attr, v).Completed?
    ensures var st' := SetAttr(c, st, attr, v).state;
      SetAttr(c, st', attr, w) == Raised(st', ImmutableError(c.name))
      && st'[attr] == v
  {
  }

  /** Without `Immutable`, assignment always succeeds and the last write wins. */
  lemma MutableOverwrites(c: Class, st: State, attr: string, v: Value, w: Value)
    requires !IsImmutable(c)
    ensures var st' := SetAttr(c, st, attr, v).state;
      SetAttr(c, st', attr, w).Completed? && SetAttr(c, st', attr, w).state[attr] == w
  {
  }
}
