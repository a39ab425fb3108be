/** `FactoryOf<Type, WithArgs>`: a value of `Type`, or a function that returns
    `Type` given arguments of the types listed in `WithArgs`. */
module Factories {

  /** The types a candidate value can have. */
  datatype Ty =
    | Prim(name: string)                   // `number`, `string`, ...
    | Fn(params: seq<Ty>, result: Ty)      // `(...args: params) => result`

  /** The two alternatives of the union `Type | ((...args: WithArgs) => Type)`. */
  function FactoryOf(t: Ty, withArgs: seq<Ty> := []): (alts: set<Ty>)
    ensures |alts| == 2
    ensures t in alts && Fn(withArgs, t) in alts
  {
    assert t != Fn(withArgs, t);
    {t, Fn(withArgs, t)}
  }

  /** A candidate of type `c` may be assigned to `FactoryOf<t, withArgs>`.
      Assignability is type identity here. */
  predicate Accepts(t: Ty, withArgs: seq<Ty>, c: Ty)
    ensures c == t ==> Accepts(t, withArgs, c)
    ensures c == Fn(withArgs, t) ==> Accepts(t, withArgs, c)
  {
    c in FactoryOf(t, withArgs)
  }

  /** Every alternative produces `Type`: either it is `Type`, or it is a
      function from exactly `WithArgs` to `Type`. */
  lemma AcceptedProducesType(t: Ty, withArgs: seq<Ty>, c: Ty)
    ensures Accepts(t, withArgs, c) <==> c == t || (c.Fn? && c.params == withArgs && c.result == t)
  {
  }

  /** A function whose parameter list is not `WithArgs` is rejected, unless it
      is itself the type `Type`. */
  lemma WrongParamsRejected(t: Ty, withArgs: seq<Ty>, params: seq<Ty>, result: Ty)
    requires params != withArgs
    requires Fn(params, result) != t
    ensures !Accepts(t, withArgs, Fn(params, result))
  {
  }

  /** Without `WithArgs` the factory takes no argument. */
  lemma DefaultIsThunk(t: Ty)
    ensures FactoryOf(t) == {t, Fn([], t)}
  {
  }

  /** The `RectangleArea` example of the documentation comment. */
  lemma RectangleAreaExample()
    ensures
      var num, str := Prim("number"), Prim("string");
      && Accepts(num, [num, num], num)
      && Accepts(num, [num, num], Fn([num, num], num))
      && !Accepts(num, [num, num], Fn([num, str], num))
  {
  }
}
