/** `ExtractCaseFromUnion` and `MapFromDiscriminatedUnion`: an object type
    whose keys are the discriminants of a discriminated union and whose values
    are the cases carrying them. */
module DiscriminatedMap {
  import opened Shapes
  import opened UnionLookup

  /** The literal a member of a discriminated union carries in key `d`. */
  function DiscriminantOf(m: Shape, d: string): string
    requires Lookup(m, d).Some? && Lookup(m, d).value.kind.Lit?
  {
    Lookup(m, d).value.kind.value
  }

  /** `DiscriminatedUnion extends Record<Discriminant, Case> ? DiscriminatedUnion
      : never`, distributed over the members. It is the conditional type of
      `FindInUnion` written once more, so it is defined by that filter; its
      contract is stated in terms of the discriminants. */
  function ExtractCaseFromUnion(u: Union, d: string, c: string): (r: Union)
    requires Discriminated(u, d)
    requires c in PropertyLiterals(u, d)
    ensures r != []
    ensures forall m :: m in r <==> m in u && DiscriminantOf(m, d) == c
  {
    FindNonEmpty(u, d, c);
    FindInUnion(u, d, c)
  }

  /** `{ [Case in DiscriminatedUnion[Discriminant]]: ExtractCaseFromUnion<...> }` */
  function MapFromDiscriminatedUnion(u: Union, d: string): (r: map<string, Union>)
    requires Discriminated(u, d)
    ensures r.Keys == PropertyLiterals(u, d)
    ensures forall c :: c in r ==> r[c] != [] && forall m :: m in r[c] <==> m in u && DiscriminantOf(m, d) == c
  {
    map c | c in PropertyLiterals(u, d) :: ExtractCaseFromUnion(u, d, c)
  }

  /** The key set is exactly the set of discriminants of the members. */
  lemma MapKeysAreDiscriminants(u: Union, d: string)
    requires Discriminated(u, d)
    ensures forall c :: c in MapFromDiscriminatedUnion(u, d) <==> exists m :: m in u && DiscriminantOf(m, d) == c
  {
    var r := MapFromDiscriminatedUnion(u, d);
    forall c | exists m :: m in u && DiscriminantOf(m, d) == c
      ensures c in r
    {
      var m :| m in u && DiscriminantOf(m, d) == c;
      assert DeclaresLiteral(m, d, c);
    }
  }

  /** Every member is found, whole, under its own discriminant: no member is
      left out of the map. */
  lemma MapCoversUnion(u: Union, d: string)
    requires Discriminated(u, d)
    ensures forall m :: m in u ==>
      DiscriminantOf(m, d) in MapFromDiscriminatedUnion(u, d) && m in MapFromDiscriminatedUnion(u, d)[DiscriminantOf(m, d)]
  {
    forall m | m in u
      ensures DiscriminantOf(m, d) in MapFromDiscriminatedUnion(u, d)
    {
      assert DeclaresLiteral(m, d, DiscriminantOf(m, d));
    }
  }

  /** The map and the lookup agree: a literal is a key exactly when
      `FindInUnion` finds some member for it, and the key's value is what
      `FindInUnion` returns. */
  lemma MapAgreesWithFind(u: Union, d: string, c: string)
    requires Discriminated(u, d)
    ensures c in MapFromDiscriminatedUnion(u, d) <==> FindInUnion(u, d, c) != []
    ensures c in MapFromDiscriminatedUnion(u, d) ==> MapFromDiscriminatedUnion(u, d)[c] == FindInUnion(u, d, c)
  {
    var r := FindInUnion(u, d, c);
    if r != [] {
      assert r[0] in r;
      assert DeclaresLiteral(r[0], d, c);
    }
  }

  /** The two cases of the example in the documentation comment. */
  const CaseA := Shape([Field("type", false, Lit("A")), Field("firstProperty", false, Leaf("number"))])
  const CaseB := Shape([Field("type", false, Lit("B")), Field("secondProperty", false, Leaf("string"))])

  lemma CaseLiterals()
    ensures Discriminated([CaseA, CaseB], "type")
    ensures PropertyLiterals([CaseA, CaseB], "type") == {"A", "B"}
  {
    assert Lookup(CaseA, "type") == Some(Field("type", false, Lit("A")));
    assert Lookup(CaseB, "type") == Some(Field("type", false, Lit("B")));
    assert [CaseA, CaseB][1..] == [CaseB] && [CaseB][1..] == [];
    assert PropertyLiterals([CaseB], "type") == {"B"};
  }

  lemma CaseFilters()
    ensures FindInUnion([CaseA, CaseB], "type", "A") == [CaseA]
    ensures FindInUnion([CaseA, CaseB], "type", "B") == [CaseB]
  {
    assert Lookup(CaseA, "type") == Some(Field("type", false, Lit("A")));
    assert Lookup(CaseB, "type") == Some(Field("type", false, Lit("B")));
    assert [CaseA, CaseB][1..] == [CaseB] && [CaseB][1..] == [];
    assert FindInUnion([CaseB], "type", "A") == [];
    assert FindInUnion([CaseB], "type", "B") == [CaseB];
  }

  /** `{ type: "A", ... } | { type: "B", ... }` maps to exactly the keys `A`
      and `B`, each with its own case. */
  lemma TypeAorBExample()
    ensures Discriminated([CaseA, CaseB], "type")
    ensures MapFromDiscriminatedUnion([CaseA, CaseB], "type") == map["A" := [CaseA], "B" := [CaseB]]
  {
    CaseLiterals();
    CaseFilters();
    var r := MapFromDiscriminatedUnion([CaseA, CaseB], "type");
    assert r["A"] == [CaseA] && r["B"] == [CaseB];
  }
}
