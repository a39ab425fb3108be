/** `DeepPartial<Type>`: every key of `Type` is kept and made optional, and a
    key whose type is a plain object is mapped recursively. */
module DeepPartials {
  import opened Shapes

  /** The template of the mapped type for one key: the key becomes optional,
      a plain object type is replaced by its `DeepPartial`, any other type is
      kept as it is. */
  function PartialField(f: Field): (g: Field)
    ensures g.name == f.name && g.optional
    ensures g.kind.Rec? <==> f.kind.Rec?
    ensures !f.kind.Rec? ==> g.kind == f.kind
    ensures f.kind.Rec? ==> g.kind.shape == DeepPartial(f.kind.shape)
    decreases f, 0
  {
    Field(f.name, true, if f.kind.Rec? then Rec(DeepPartial(f.kind.shape)) else f.kind)
  }

  /** `{ [Property in keyof Type]?: ... }` */
  function DeepPartial(s: Shape): (r: Shape)
    ensures Names(r) == Names(s)
    ensures forall i :: 0 <= i < |r.fields| ==> r.fields[i].optional
    decreases s, 1
  {
    Shape(seq(|s.fields|, i requires 0 <= i < |s.fields| => PartialField(s.fields[i])))
  }

  /** Every key is optional, at every depth. */
  ghost predicate AllOptional(s: Shape)
    decreases s
  {
    forall i :: 0 <= i < |s.fields| ==>
      s.fields[i].optional && (s.fields[i].kind.Rec? ==> AllOptional(s.fields[i].kind.shape))
  }

  /** The shape with every `?` removed, at every depth: keys, their order, the
      kinds of leaves and the nesting of objects, and nothing else. */
  function Skeleton(s: Shape): (r: Shape)
    ensures Names(r) == Names(s)
    decreases s
  {
    Shape(seq(|s.fields|, i requires 0 <= i < |s.fields| =>
      var f := s.fields[i];
      Field(f.name, false, if f.kind.Rec? then Rec(Skeleton(f.kind.shape)) else f.kind)))
  }

  /** The number of nested object levels. */
  function Depth(s: Shape): nat
    decreases s, 1
  {
    DepthOfFirst(s, |s.fields|)
  }

  /** The number of nested object levels among the first `n` keys. */
  function DepthOfFirst(s: Shape, n: nat): nat
    requires n <= |s.fields|
    decreases s, 0, n
  {
    if n == 0 then 1
    else
      var f := s.fields[n - 1];
      var here := if f.kind.Rec? then 1 + Depth(f.kind.shape) else 1;
      var before := DepthOfFirst(s, n - 1);
      if here < before then before else here
  }

  /** Every key of the result is optional at every depth, as in the
      `contacts?: { primary?: ... }` example. */
  lemma {:induction false} DeepPartialAllOptional(s: Shape)
    ensures AllOptional(DeepPartial(s))
    decreases s
  {
    var r := DeepPartial(s);
    forall i | 0 <= i < |r.fields|
      ensures r.fields[i].optional && (r.fields[i].kind.Rec? ==> AllOptional(r.fields[i].kind.shape))
    {
      if s.fields[i].kind.Rec? {
        DeepPartialAllOptional(s.fields[i].kind.shape);
      }
    }
  }

  /** Only the `?` markers change: the keys, their order, every leaf type and
      the tree of nested objects are those of the input. */
  lemma {:induction false} DeepPartialSkeleton(s: Shape)
    ensures Skeleton(DeepPartial(s)) == Skeleton(s)
    decreases s
  {
    var a, b := Skeleton(DeepPartial(s)), Skeleton(s);
    forall i | 0 <= i < |s.fields| ensures a.fields[i] == b.fields[i] {
      if s.fields[i].kind.Rec? {
        DeepPartialSkeleton(s.fields[i].kind.shape);
      }
    }
  }

  /** Removing the `?` markers does not change the depth. */
  lemma {:induction false} SkeletonDepth(s: Shape)
    ensures Depth(Skeleton(s)) == Depth(s)
    decreases s, 1
  {
    SkeletonDepthOfFirst(s, |s.fields|);
  }

  lemma {:induction false} SkeletonDepthOfFirst(s: Shape, n: nat)
    requires n <= |s.fields|
    ensures DepthOfFirst(Skeleton(s), n) == DepthOfFirst(s, n)
    decreases s, 0, n
  {
    if n > 0 {
      SkeletonDepthOfFirst(s, n - 1);
      if s.fields[n - 1].kind.Rec? {
        SkeletonDepth(s.fields[n - 1].kind.shape);
      }
    }
  }

  /** The nesting depth is unchanged. */
  lemma DeepPartialDepth(s: Shape)
    ensures Depth(DeepPartial(s)) == Depth(s)
  {
    DeepPartialSkeleton(s);
    SkeletonDepth(s);
    SkeletonDepth(DeepPartial(s));
  }

  /** `DeepPartial` leaves a shape unchanged exactly when all its keys are
      already optional at every depth. */
  lemma {:induction false} DeepPartialFixpoint(s: Shape)
    ensures DeepPartial(s) == s <==> AllOptional(s)
    decreases s
  {
    var r := DeepPartial(s);
    if AllOptional(s) {
      forall i | 0 <= i < |s.fields| ensures r.fields[i] == s.fields[i] {
        if s.fields[i].kind.Rec? {
          DeepPartialFixpoint(s.fields[i].kind.shape);
        }
      }
    } else if r == s {
      DeepPartialAllOptional(s);
    }
  }

  /** Applying `DeepPartial` twice gives the same shape as applying it once. */
  lemma DeepPartialIdempotent(s: Shape)
    ensures DeepPartial(DeepPartial(s)) == DeepPartial(s)
  {
    DeepPartialAllOptional(s);
    DeepPartialFixpoint(DeepPartial(s));
  }

  /** `DeepPartial(s)` is the one shape that has the skeleton of `s` and all
      keys optional: the mapped type is determined by these two properties. */
  lemma {:induction false} DeepPartialUnique(s: Shape, t: Shape)
    requires Skeleton(t) == Skeleton(s) && AllOptional(t)
    ensures t == DeepPartial(s)
    decreases s
  {
    var r := DeepPartial(s);
    assert |t.fields| == |s.fields| by {
      assert |Skeleton(t).fields| == |Skeleton(s).fields|;
    }
    forall i | 0 <= i < |s.fields| ensures t.fields[i] == r.fields[i] {
      assert Skeleton(t).fields[i] == Skeleton(s).fields[i];
      if s.fields[i].kind.Rec? {
        DeepPartialUnique(s.fields[i].kind.shape, t.fields[i].kind.shape);
      }
    }
  }

  /** Unique keys stay unique, at every depth. */
  lemma {:induction false} DeepPartialWellFormed(s: Shape)
    requires WellFormed(s)
    ensures WellFormed(DeepPartial(s))
    decreases s
  {
    var r := DeepPartial(s);
    forall i | 0 <= i < |r.fields| && r.fields[i].kind.Rec?
      ensures WellFormed(r.fields[i].kind.shape)
    {
      DeepPartialWellFormed(s.fields[i].kind.shape);
    }
  }

  /** The `Person` example of the documentation comment. */
  lemma PersonExample()
    ensures
      var str := Leaf("string");
      var person := Shape([
        Field("firstName", false, str), Field("lastName", false, str),
        Field("contacts", false, Rec(Shape([Field("primary", false, str), Field("secondary", false, str)])))]);
      DeepPartial(person) == Shape([
        Field("firstName", true, str), Field("lastName", true, str),
        Field("contacts", true, Rec(Shape([Field("primary", true, str), Field("secondary", true, str)])))])
  {
    var str := Leaf("string");
    var contacts := Shape([Field("primary", false, str), Field("secondary", false, str)]);
    var partialContacts := Shape([Field("primary", true, str), Field("secondary", true, str)]);
    assert DeepPartial(contacts).fields == partialContacts.fields;
    var person := Shape([Field("firstName", false, str), Field("lastName", false, str), Field("contacts", false, Rec(contacts))]);
    assert DeepPartial(person).fields[2] == Field("contacts", true, Rec(partialContacts));
  }

  /* With strict null checks, `Type[Property]` of an optional key also admits
     `undefined`, which is no plain object: the conditional type at
     DeepPartial.ts:28 then takes its `false` branch, and the nested object
     type is kept as it is instead of being made partial. The two functions
     below are the rule as the compiler evaluates it in that setting. */

  function PartialFieldAsWritten(f: Field): (g: Field)
    ensures g.name == f.name && g.optional
    ensures !f.kind.Rec? ==> g.kind == f.kind
    ensures f.kind.Rec? && f.optional ==> g.kind == f.kind
    ensures f.kind.Rec? && !f.optional ==> g.kind == Rec(DeepPartialAsWritten(f.kind.shape))
    decreases f, 0
  {
    Field(f.name, true,
      if f.kind.Rec? && !f.optional then Rec(DeepPartialAsWritten(f.kind.shape)) else f.kind)
  }

  function DeepPartialAsWritten(s: Shape): (r: Shape)
    ensures Names(r) == Names(s)
    ensures forall i :: 0 <= i < |r.fields| ==> r.fields[i].optional
    decreases s, 1
  {
    Shape(seq(|s.fields|, i requires 0 <= i < |s.fields| => PartialFieldAsWritten(s.fields[i])))
  }

  /** No optional key at any depth has a plain object type. */
  ghost predicate NoOptionalObject(s: Shape)
    decreases s
  {
    forall i :: 0 <= i < |s.fields| && s.fields[i].kind.Rec? ==>
      !s.fields[i].optional && NoOptionalObject(s.fields[i].kind.shape)
  }

  /** An optional nested object keeps its required keys: `{ contacts?: {
      primary: string } }` is mapped to itself, so `primary` stays required. */
  lemma OptionalObjectNotRecursed()
    ensures
      var inner := Shape([Field("primary", false, Leaf("string"))]);
      var s := Shape([Field("contacts", true, Rec(inner))]);
      DeepPartialAsWritten(s) == s && !AllOptional(DeepPartialAsWritten(s)) && AllOptional(DeepPartial(s))
  {
    var inner := Shape([Field("primary", false, Leaf("string"))]);
    var s := Shape([Field("contacts", true, Rec(inner))]);
    assert DeepPartialAsWritten(s).fields == s.fields;
    assert !inner.fields[0].optional;
    assert !AllOptional(inner);
    assert s.fields[0].kind.shape == inner;
    DeepPartialAllOptional(s);
  }

  /** Where no optional key holds an object, the rule as evaluated and the
      documented rule agree. */
  lemma {:induction false} AsWrittenAgrees(s: Shape)
    requires NoOptionalObject(s)
    ensures DeepPartialAsWritten(s) == DeepPartial(s)
    decreases s
  {
    var a, b := DeepPartialAsWritten(s), DeepPartial(s);
    forall i | 0 <= i < |s.fields| ensures a.fields[i] == b.fields[i] {
      if s.fields[i].kind.Rec? {
        AsWrittenAgrees(s.fields[i].kind.shape);
      }
    }
  }
}
