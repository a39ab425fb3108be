# typescript-helper-types, modelled in Dafny

The library is a set of TypeScript type aliases with no runtime code. Four
of them are total shape-to-shape rules. This project gives each one as a
pure Dafny function over an explicit model of object types, and proves the
properties that the aliases and their documentation comments promise.

- `shapes.dfy` (module `Shapes`) holds the shape model. A `Shape` is an
  ordered list of `Field(name, optional, kind)`. A kind is a primitive
  (`Leaf`), a string literal type (`Lit`) or a nested plain object type
  (`Rec`). A `Union` is the list of its members, and `[]` is `never`.
  `Lookup` reads the type of one key. `HasLiteral(m, p, v)` is the test
  `m extends { [property in p]: v }`: the key `p` is present, required, and
  of literal type `v`. An optional key is never assignable to a required one.
- `deep_partial.dfy` (module `DeepPartials`) covers `DeepPartial<Type>`.
- `find_in_union.dfy` (module `UnionLookup`) covers `FindInUnion<Union,
  Property, Value>`. A distributive conditional type is a filter over the
  union's members.
- `map_from_discriminated_union.dfy` (module `DiscriminatedMap`) covers
  `ExtractCaseFromUnion` and `MapFromDiscriminatedUnion`.
- `factory_of.dfy` (module `Factories`) covers `FactoryOf<Type, WithArgs>`.
  Here a type is a primitive or a function type. The alias is the set of its
  two alternatives, and a candidate is accepted when its type is one of them.

The aliases have no error outcome. A runtime version of this library might
report "variant not found", "ambiguous variant" or "arity mismatch". The
model follows the types instead. A lookup with no match gives `never` (the
empty union). Several members that share a discriminant are all returned
together. A factory with the wrong parameters is simply not accepted.

`FindInUnion` is modelled for all arguments. Its constraints are
`Property extends keyof Union` (`KeyOfEvery`: every member has the key) and
`Value extends Union[Property]` (`Value` is in `PropertyLiterals`). These two
do not make the result non-empty. In `{ k?: "a" }` both hold for `"k"` and
`"a"`, yet the result is `never`, because an optional key does not extend a
required one (`OptionalKeyGivesNever`). `FindNonEmpty` therefore assumes the
stronger `Discriminated`: every member has the key as a required key of a
literal type. That is the constraint `Record<Discriminant, string>` of
`MapFromDiscriminatedUnion`, limited to literals.

## Model

| member | source | states |
|---|---|---|
| Shapes.Names | DeepPartial.ts:28 | `keyof`: one key per field, in declaration order, the i-th key being the i-th field's name |
| Shapes.Lookup | FindInUnion.ts:20 | `Type[Property]`: no result exactly when `Property` is not a key; otherwise a declared field carrying that name |
| Shapes.LookupFirst | FindInUnion.ts:20 | should names repeat, `Lookup` gives the first field with the name |
| Shapes.HasLiteral | FindInUnion.ts:21 | `m extends { [property in Property]: Value }`: a match declares `Property: Value` as a required field, and an optional `Property` never matches, whatever its type |
| Shapes.HasLiteralIffDeclared | FindInUnion.ts:21 | with unique keys, a member matches if and only if it declares the required field `Property: Value` |
| DeepPartials.PartialField | DeepPartial.ts:28-30 | the key keeps its name and becomes optional; an object-typed key is replaced by `DeepPartial` of its shape; any other type is kept unchanged |
| DeepPartials.DeepPartial | DeepPartial.ts:27-28 | the result has exactly the input's keys, in the same order, and every top-level key is optional |
| DeepPartials.DeepPartialAllOptional | DeepPartial.ts:3-24 | every key of the result is optional at every depth, not only at the top level |
| DeepPartials.DeepPartialSkeleton | DeepPartial.ts:28-30 | once the `?` markers are erased, result and input are equal: same keys, order, leaf types and tree of nested objects |
| DeepPartials.DeepPartialDepth | DeepPartial.ts:28-30 | the nesting depth of the result equals that of the input |
| DeepPartials.DeepPartialFixpoint | DeepPartial.ts:27-31 | `DeepPartial(s) == s` if and only if every key of `s` is already optional at every depth |
| DeepPartials.DeepPartialIdempotent | DeepPartial.ts:27-31 | applying `DeepPartial` twice gives the same shape as applying it once |
| DeepPartials.DeepPartialUnique | DeepPartial.ts:27-31 | any shape with the input's skeleton and all keys optional at every depth is `DeepPartial` of the input |
| DeepPartials.DeepPartialWellFormed | DeepPartial.ts:28 | if keys are unique at every depth of the input, they are unique at every depth of the result |
| DeepPartials.PersonExample | DeepPartial.ts:7-25 | the `Person` example: `firstName`, `lastName`, `contacts`, `contacts.primary` and `contacts.secondary` all become optional |
| DeepPartials.PartialFieldAsWritten | DeepPartial.ts:28-30 | under strict null checks, every key keeps its name and becomes optional; an optional object-typed key keeps its nested type, a required one is made partial, and any other type is kept unchanged |
| DeepPartials.DeepPartialAsWritten | DeepPartial.ts:27-31 | the rule as evaluated under strict null checks keeps exactly the input's keys, in order, and makes every top-level key optional |
| DeepPartials.OptionalObjectNotRecursed | DeepPartial.ts:28-30 | counterexample: `{ contacts?: { primary: string } }` is mapped to itself, so `primary` stays required, while `DeepPartial` makes it optional |
| DeepPartials.AsWrittenAgrees | DeepPartial.ts:27-31 | when no optional key at any depth has an object type, the evaluated rule and `DeepPartial` give the same shape |
| UnionLookup.FindInUnion | FindInUnion.ts:17-21 | a member is in the result if and only if it is in the union and its `Property` is required with literal type `Value`; the result is no longer than the union |
| UnionLookup.FindNeverIffNoMatch | FindInUnion.ts:2-3 | the result is `never` exactly when no member matches |
| UnionLookup.PropertyLiterals | FindInUnion.ts:20 | `Union[Property]`: exactly the literals that some member declares for the key |
| UnionLookup.KeyOfEvery | FindInUnion.ts:19 | `Property extends keyof Union`: every member has the key, required or optional, so `Union[Property]` is defined for every member |
| UnionLookup.Discriminated | MapFromDiscriminatedUnion.ts:21 | `DiscriminatedUnion extends Record<Discriminant, string>`, made stronger: every member has the key, required, with a string literal type (not plain `string`); it implies `KeyOfEvery` (`DiscriminatedIsKeyOf`), and `OptionalKeyGivesNever` shows that `KeyOfEvery` does not imply it |
| UnionLookup.DiscriminatedIsKeyOf | MapFromDiscriminatedUnion.ts:21-22 | every member of a discriminated union has the discriminant among its keys, so `Discriminant extends keyof DiscriminatedUnion` holds |
| UnionLookup.FindDistributes | FindInUnion.ts:21 | the result for the union of `U1` and `U2` is the result for `U1` joined with the result for `U2` |
| UnionLookup.FindIdempotent | FindInUnion.ts:21 | filtering the result again changes nothing |
| UnionLookup.FindKeepsEveryMatch | FindInUnion.ts:21 | every matching member occurs in the result as often as in the union, and no other member occurs: nothing picks one of several matches |
| UnionLookup.FindNonEmpty | FindInUnion.ts:19-21 | in a discriminated union, a `Value` drawn from `Union[Property]` selects at least one member |
| UnionLookup.OptionalKeyGivesNever | FindInUnion.ts:19-21 | for `{ k?: "a" }` with key `"k"` and value `"a"`, both constraints of the alias hold and the result is still `never`, since an optional key does not extend a required one |
| UnionLookup.FiscalIdsExample | FindInUnion.ts:5-15 | in the fiscal-id union, `"usa"` selects exactly the `usa` member; `"france"` breaks the constraint `Value extends Union[Property]`, which the compiler rejects, and the filter, defined for all arguments, gives `never` there |
| DiscriminatedMap.ExtractCaseFromUnion | MapFromDiscriminatedUnion.ts:20-26 | for a `Case` from `DiscriminatedUnion[Discriminant]`, the result is non-empty and holds exactly the members whose discriminant is `Case` |
| DiscriminatedMap.MapFromDiscriminatedUnion | MapFromDiscriminatedUnion.ts:28-37 | the key set is `DiscriminatedUnion[Discriminant]`, and each key maps to a non-empty union of exactly the members carrying that key |
| DiscriminatedMap.MapKeysAreDiscriminants | MapFromDiscriminatedUnion.ts:32 | a string is a key if and only if it is the discriminant of some member: no key is missing and none is invented |
| DiscriminatedMap.MapCoversUnion | MapFromDiscriminatedUnion.ts:31-36 | every member appears whole, discriminant included, under its own discriminant |
| DiscriminatedMap.MapAgreesWithFind | MapFromDiscriminatedUnion.ts:20-26 | a literal is a key if and only if `FindInUnion` finds a member for it, and then the key's value is `FindInUnion`'s result |
| DiscriminatedMap.TypeAorBExample | MapFromDiscriminatedUnion.ts:5-17 | the documented union of `{ type: "A", ... }` and `{ type: "B", ... }` maps to exactly `A` and `B`, each with its own case |
| Factories.FactoryOf | FactoryOf.ts:19-21 | there are exactly two alternatives: `Type` itself and the function from `WithArgs` to `Type` |
| Factories.Accepts | FactoryOf.ts:19-21 | a candidate is accepted when its type is one of the two alternatives: `Type` itself and the function from `WithArgs` to `Type` are both accepted |
| Factories.AcceptedProducesType | FactoryOf.ts:19-21 | a candidate is accepted if and only if it is `Type`, or a function whose parameters are exactly `WithArgs` and whose result is `Type` |
| Factories.WrongParamsRejected | FactoryOf.ts:10-15 | a function whose parameter types differ from `WithArgs` is rejected |
| Factories.DefaultIsThunk | FactoryOf.ts:19 | without `WithArgs`, the function alternative takes no argument |
| Factories.RectangleAreaExample | FactoryOf.ts:4-16 | `RectangleArea`: `123` and `(number, number) => number` are accepted, and `(number, string) => number` is rejected |

## Findings

| source | as written | input that shows it | evidently intended | confidence | as-written member | corrected member |
|---|---|---|---|---|---|---|
| DeepPartial.ts:28 | under strict null checks, `Type[Property]` of an optional key includes `undefined`. That type is not a plain object, so the conditional keeps the nested type as it is | `{ contacts?: { primary: string } }` gives back `{ contacts?: { primary: string } }` | `{ contacts?: { primary?: string } }`: all keys optional at all levels, as the documentation comment says | medium, not executed; depends on strict null checks and on `PlainObject` (not part of this model) excluding `undefined` | DeepPartials.OptionalObjectNotRecursed | DeepPartials.DeepPartialAllOptional |

## Left out

- Optional.ts: it only adds `undefined` to `Nullable<Type>`, and Nullable.ts is not part of this model.
- The definition of `PlainObject` is not part of this model. "Is a plain object" is the `Rec` kind. Arrays, functions and class instances are not modelled.
- Assignability is type identity, with literal equality for string literals. The model leaves out subtyping, `any`, widened `string` discriminants, parameter bivariance, and functions with fewer parameters being assignable.
- DiscriminatedMap.MapFromDiscriminatedUnion: the constraint `Record<Discriminant, string>` also admits a plain `string` discriminant, but the model requires a literal one.
- DiscriminatedMap.ExtractCaseFromUnion: it has the same `Discriminated` requirement, so a plain `string` discriminant is not modelled here either.
- DiscriminatedMap.MapFromDiscriminatedUnion: `Discriminant` is a single key here and in `ExtractCaseFromUnion`. It may also be a union of keys, and then `Record<Discriminant, Case>` demands every one of them.
- UnionLookup.FindInUnion: `Property` is a single key and `Value` is a single literal. `Property` may also be a union of keys, and then `{ [property in Property]: Value }` demands every one of them. The constraint `Value extends Union[Property]` also admits a union of literals such as `"usa" | "italy"`, which would select the members of every literal in it. `Case` in DiscriminatedMap.ExtractCaseFromUnion is a single literal too; the mapped type at MapFromDiscriminatedUnion.ts:32 only ever instantiates it with one.
- Union-typed fields, and `DeepPartial` distributing over them, are not modelled. The `readonly` modifier that homomorphic mapped types preserve is not modelled either.
- TypeScript unions are unordered and drop duplicates. The model keeps members as a list, in order and with repeats. Membership statements are independent of that choice.
- Resolving or calling a factory is not modelled. The alias only describes the type.
- There is no I/O, concurrency or arithmetic in the library.
