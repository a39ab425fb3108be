/** `FindInUnion<Union, Property, Value>`: a distributive conditional type,
    that is, a filter over the members of a union. */
module UnionLookup {
  import opened Shapes

  /** `Union extends { [property in Property]: Value } ? Union : never`,
      distributed over the members of `Union`. Members are kept whole and in
      their order; `[]` is `never`. */
  function FindInUnion(u: Union, p: string, v: string): (r: Union)
    ensures forall m :: m in r <==> m in u && HasLiteral(m, p, v)
    ensures |r| <= |u|
  {
    if u == [] then []
    else (if HasLiteral(u[0], p, v) then [u[0]] else []) + FindInUnion(u[1..], p, v)
  }

  /** The result is `never` exactly when no member matches. */
  lemma FindNeverIffNoMatch(u: Union, p: string, v: string)
    ensures FindInUnion(u, p, v) == [] <==> forall m :: m in u ==> !HasLiteral(m, p, v)
  {
    var r := FindInUnion(u, p, v);
    if r != [] {
      assert r[0] in r;
    }
  }

  /** The member `m` declares key `p` with the literal type `v` (required or not). */
  predicate DeclaresLiteral(m: Shape, p: string, v: string)
  {
    Lookup(m, p).Some? && Lookup(m, p).value.kind == Lit(v)
  }

  /** `Union[Property]` for literal-typed keys: every literal some member
      declares for `p`. */
  function PropertyLiterals(u: Union, p: string): (r: set<string>)
    ensures forall v :: v in r <==> exists m :: m in u && DeclaresLiteral(m, p, v)
  {
    if u == [] then {}
    else
      var rest := PropertyLiterals(u[1..], p);
      var l := Lookup(u[0], p);
      var r := if l.Some? && l.value.kind.Lit? then {l.value.kind.value} + rest else rest;
      assert forall v :: v in r ==> exists m :: m in u && DeclaresLiteral(m, p, v) by {
        forall v | v in r ensures exists m :: m in u && DeclaresLiteral(m, p, v) {
          if v !in rest {
            assert DeclaresLiteral(u[0], p, v);
          } else {
            var m :| m in u[1..] && DeclaresLiteral(m, p, v);
            assert m in u;
          }
        }
      }
      assert forall v :: (exists m :: m in u && DeclaresLiteral(m, p, v)) ==> v in r by {
        forall v | exists m :: m in u && DeclaresLiteral(m, p, v) ensures v in r {
          var m :| m in u && DeclaresLiteral(m, p, v);
          if m != u[0] {
            assert m in u[1..];
          }
        }
      }
      r
  }

  /** `Union extends Record<Property, string>`, with the string given as a
      literal: every member has `p` as a required key of a literal type. */
  predicate Discriminated(u: Union, p: string)
  {
    forall m :: m in u ==>
      Lookup(m, p).Some? && !Lookup(m, p).value.optional && Lookup(m, p).value.kind.Lit?
  }

  lemma ConcatHeadTail<T>(a: seq<T>, b: seq<T>)
    requires a != []
    ensures (a + b)[0] == a[0] && (a + b)[1..] == a[1..] + b
  {
  }

  lemma ConcatAssoc<T>(a: seq<T>, b: seq<T>, c: seq<T>)
    ensures a + (b + c) == (a + b) + c
  {
  }

  /** The filter distributes over union: the result for `U1 | U2` is the
      result for `U1` joined with the result for `U2`. */
  lemma {:induction false} FindDistributes(u1: Union, u2: Union, p: string, v: string)
    ensures FindInUnion(u1 + u2, p, v) == FindInUnion(u1, p, v) + FindInUnion(u2, p, v)
    decreases |u1|
  {
    if u1 == [] {
      assert u1 + u2 == u2;
    } else {
      var head := if HasLiteral(u1[0], p, v) then [u1[0]] else [];
      ConcatHeadTail(u1, u2);
      FindDistributes(u1[1..], u2, p, v);
      ConcatAssoc(head, FindInUnion(u1[1..], p, v), FindInUnion(u2, p, v));
    }
  }

  /** Filtering what was already filtered changes nothing. */
  lemma {:induction false} FindIdempotent(u: Union, p: string, v: string)
    ensures FindInUnion(FindInUnion(u, p, v), p, v) == FindInUnion(u, p, v)
    decreases |u|
  {
    if u != [] {
      var head := if HasLiteral(u[0], p, v) then [u[0]] else [];
      FindDistributes(head, FindInUnion(u[1..], p, v), p, v);
      FindIdempotent(u[1..], p, v);
      if HasLiteral(u[0], p, v) {
        assert FindInUnion(head, p, v) == head by {
          assert head[1..] == [];
        }
      }
    }
  }

  /** Each matching member is returned as many times as it occurs, and no
      other member is: nothing picks one of several matches. */
  lemma {:induction false} FindKeepsEveryMatch(u: Union, p: string, v: string)
    ensures forall m :: multiset(FindInUnion(u, p, v))[m] == if HasLiteral(m, p, v) then multiset(u)[m] else 0
    decreases |u|
  {
    if u != [] {
      FindKeepsEveryMatch(u[1..], p, v);
      assert u == [u[0]] + u[1..];
    }
  }

  /** For a discriminated union, a `Value` taken from `Union[Property]` (as
      the constraint on `Value` demands) selects at least one member. */
  lemma FindNonEmpty(u: Union, p: string, v: string)
    requires Discriminated(u, p)
    requires v in PropertyLiterals(u, p)
    ensures FindInUnion(u, p, v) != []
  {
    var m :| m in u && DeclaresLiteral(m, p, v);
    assert HasLiteral(m, p, v);
  }

  /** `Property extends keyof Union`: every member has the key `p`, required
      or optional, so `Union[Property]` is defined for every member.
      `Discriminated` asks for more than this. */
  predicate KeyOfEvery(u: Union, p: string)
    ensures KeyOfEvery(u, p) ==> forall m :: m in u ==> Lookup(m, p).Some?
  {
    forall m :: m in u ==> p in Names(m)
  }

  /** `Discriminated` implies `Property extends keyof Union`; the converse
      fails, as `OptionalKeyGivesNever` shows. */
  lemma DiscriminatedIsKeyOf(u: Union, p: string)
    requires Discriminated(u, p)
    ensures KeyOfEvery(u, p)
  {
  }

  /** Both constraints of the alias can hold and the result still be `never`:
      in `{ k?: "a" }`, `"a"` is in `Union["k"]`, but an optional `k` does not
      extend the required `{ k: "a" }`. So `FindNonEmpty` needs the stronger
      `Discriminated`. */
  lemma OptionalKeyGivesNever()
    ensures
      var u := [Shape([Field("k", true, Lit("a"))])];
      && KeyOfEvery(u, "k") && "a" in PropertyLiterals(u, "k")
      && !Discriminated(u, "k")
      && FindInUnion(u, "k", "a") == []
  {
    var m := Shape([Field("k", true, Lit("a"))]);
    assert Names(m) == ["k"];
    assert Lookup(m, "k") == Some(Field("k", true, Lit("a")));
    assert DeclaresLiteral(m, "k", "a");
  }

  /** The fiscal-id example of the documentation comment. The second query,
      `"france"`, breaks the constraint `Value extends Union[Property]`, and
      the compiler rejects it; the filter, defined for all arguments, gives
      `never` there. */
  lemma FiscalIdsExample()
    ensures
      var usa := Shape([Field("country", false, Lit("usa")), Field("socialSecurityNumber", false, Leaf("string"))]);
      var italy := Shape([Field("country", false, Lit("italy")), Field("fiscalCode", false, Leaf("string"))]);
      var swiss := Shape([Field("country", false, Lit("switzerland")), Field("swissId", false, Leaf("string"))]);
      && FindInUnion([usa, italy, swiss], "country", "usa") == [usa]
      && FindInUnion([usa, italy, swiss], "country", "france") == []
  {
    var usa := Shape([Field("country", false, Lit("usa")), Field("socialSecurityNumber", false, Leaf("string"))]);
    var italy := Shape([Field("country", false, Lit("italy")), Field("fiscalCode", false, Leaf("string"))]);
    var swiss := Shape([Field("country", false, Lit("switzerland")), Field("swissId", false, Leaf("string"))]);
    assert Lookup(usa, "country") == Some(Field("country", false, Lit("usa")));
    assert Lookup(italy, "country") == Some(Field("country", false, Lit("italy")));
    assert Lookup(swiss, "country") == Some(Field("country", false, Lit("switzerland")));
    assert [usa, italy, swiss][1..] == [italy, swiss] && [italy, swiss][1..] == [swiss] && [swiss][1..] == [];
    assert FindInUnion([swiss], "country", "usa") == [];
    assert FindInUnion([italy, swiss], "country", "usa") == [];
    assert FindInUnion([usa, italy, swiss], "country", "usa") == [usa] + [];
    FindNeverIffNoMatch([usa, italy, swiss], "country", "france");
  }
}
