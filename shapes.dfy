/** The shape model shared by every rule: an object type is an ordered list of
    named fields, each either required or optional (`?`), whose type is a
    primitive, a string literal type, or a nested plain object type. A union
    of object types is the list of its members; the empty union is `never`. */
module Shapes {

  datatype Option<T> = None | Some(value: T)

  /** The type of one field. `Rec` is the "plain object" case. */
  datatype Kind =
    | Leaf(tag: string)      // a primitive such as `string` or `number`
    | Lit(value: string)     // a string literal type such as `"usa"`
    | Rec(shape: Shape)      // a nested plain object type

  datatype Field = Field(name: string, optional: bool, kind: Kind)

  datatype Shape = Shape(fields: seq<Field>)

  /** A union of object types; `[]` is `never`. */
  type Union = seq<Shape>

  /** The keys of a shape, in declaration order (`keyof`). */
  function Names(s: Shape): (r: seq<string>)
    ensures |r| == |s.fields|
    ensures forall i :: 0 <= i < |s.fields| ==> r[i] == s.fields[i].name
  {
    seq(|s.fields|, i requires 0 <= i < |s.fields| => s.fields[i].name)
  }

  /** Keys are unique in a shape and in every shape nested in it. */
  ghost predicate WellFormed(s: Shape)
    decreases s
  {
    && (forall i, j :: 0 <= i < j < |s.fields| ==> s.fields[i].name != s.fields[j].name)
    && (forall i :: 0 <= i < |s.fields| && s.fields[i].kind.Rec? ==> WellFormed(s.fields[i].kind.shape))
  }

  /** The field named `p`, if the shape has one (the first, should names repeat). */
  function Lookup(s: Shape, p: string): (r: Option<Field>)
    ensures r.None? <==> p !in Names(s)
    ensures r.Some? ==> r.value in s.fields && r.value.name == p
    decreases |s.fields|
  {
    if |s.fields| == 0 then None
    else if s.fields[0].name == p then Some(s.fields[0])
    else
      var rest := Lookup(Shape(s.fields[1..]), p);
      assert Names(s) == [s.fields[0].name] + Names(Shape(s.fields[1..]));
      rest
  }

  /** Should names repeat, `Lookup` gives the first field with the name. */
  lemma {:induction false} LookupFirst(s: Shape, p: string, i: nat)
    requires i < |s.fields| && s.fields[i].name == p
    requires forall j :: 0 <= j < i ==> s.fields[j].name != p
    ensures Lookup(s, p) == Some(s.fields[i])
    decreases i
  {
    if i > 0 {
      var rest := Shape(s.fields[1..]);
      LookupFirst(rest, p, i - 1);
    }
  }

  /** `s extends { [property in p]: v }`: the field `p` is present, required,
      and of the literal type `v` (an optional `p` is not assignable to a
      required one, and a primitive `string` is not assignable to a literal). */
  predicate HasLiteral(s: Shape, p: string, v: string)
    ensures HasLiteral(s, p, v) ==> Field(p, false, Lit(v)) in s.fields
    ensures Lookup(s, p).Some? && Lookup(s, p).value.optional ==> !HasLiteral(s, p, v)
  {
    Lookup(s, p) == Some(Field(p, false, Lit(v)))
  }

  /** With unique keys, the test is simply whether `p: v`, required, is
      declared: the first-match rule of `Lookup` no longer matters. */
  lemma HasLiteralIffDeclared(s: Shape, p: string, v: string)
    requires forall i, j :: 0 <= i < j < |s.fields| ==> s.fields[i].name != s.fields[j].name
    ensures HasLiteral(s, p, v) <==> Field(p, false, Lit(v)) in s.fields
  {
  }
}
