/** Optional values of the Othello engine (othello/Option.java): either the
    single value None or a Some that holds a value. A Dafny value is never
    null, so the source's `some(null) == none()` rule has nothing to act on. */
module OthelloOption {

  datatype Option<A> = None | Some(value: A)
  {
    /** `isDefined`: true exactly for Some. */
    predicate IsDefined()
    {
      Some?
    }

    /** `get`: only defined on Some; None.get throws in the source. */
    function Get(): (v: A)
      requires IsDefined()
      ensures this == Some(v)
    {
      value
    }
  }

  /** None is not defined, and a defined option is Some of what `Get` returns. */
  lemma DefinedMeansSome<A>(o: Option<A>)
    ensures !Option<A>.None.IsDefined()
    ensures o.IsDefined() <==> exists v :: o == Some(v)
  {
    if o.Some? {
      assert o == Some(o.value);
    }
  }
}
