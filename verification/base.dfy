/** `Base`: the end of the cooperative construction chain. */
module Base {
  import opened Values
  import opened Classes

  /** `Base.__init__`: accepts any arguments, binds nothing, raises nothing. */
  function Init(st: State, args: seq<Value>): (r: Outcome)
    ensures r.Completed? && r.state == st
  {
    Completed(st)
  }
}
