# ReflectionReader: eligibility rules and type walk, in Dafny

ReflectionReader loads a compiled type through Mono.Cecil and reports, for
each of its properties and fields, whether the member is eligible for XNA
content serialization: a valid member is reported with its name, its declared
type and whether that type is a value type, and an invalid one with the
message of the rule that rejected it.

This project models the two parts of `ReflectionReader/Program.cs` that hold
logic:

- **The eligibility rule chain** (`IsStaticType`, `IsValid`), in
  `Eligibility.dfy`, as a pure function over a member descriptor. Seven rules
  are applied in order and the first failure wins. `IsValid` returns `true`
  with a null error, or `false` with one of the code's fixed messages. Each
  rule gets its own lemma. The whole chain is also proved equal to an
  unordered eligibility condition (`Eligible`). The second getter test
  (line 102) repeats the first one (line 81), and a lemma proves that its
  message, "Can't read getter!", is never produced.
- **The type reader** (`ReadType`), in `Reader.dfy`. It is a method that
  first recurses into the base type when the guard at line 27 allows it, then
  loops over the properties and then over the fields, writing one line per
  member. It is proved equal to a specification function `Walk`. Lemmas about
  `Walk` state what the report looks like: the base type's lines come first,
  then one line per property, then one per field. Once a member's validation
  throws, nothing after it is written: within one loop (`EmitAllStopsAtFault`),
  from the property loop to the field loop (`OwnRunStopsAtFault`), and from
  the base type to the derived type (`WalkStopsAtFault`).

The descriptors (`Descriptors.dfy`) are values:

- A `Member` is a `Field` or a `Property`.
- The two content-serializer attributes are boolean tags.
- The declaring type is its name plus its abstract and sealed flags.
- A `TypeDef` holds its properties, its fields and its base-type reference.
  The resolved base definition is stored inside the reference. Base chains
  are therefore finite and acyclic by construction, and the walk terminates
  by structural recursion.

The code dereferences null in four places, and each of these is a `Fault`
rather than a precondition:

- a property with no getter, at line 81;
- a property with no setter and no `ContentSerializer` attribute, at line 109;
- a type with no base type, at line 27;
- a base type that does not resolve, at line 28.

A run of the reader is the lines written so far plus the exception that
ended it, if there was one.

How the code orders and shapes its report:

- The code writes a base type's lines before the derived type's lines,
  because the recursion at line 28 runs before the loops.
- Within one type, the code writes properties before fields.
- The code's error lines carry only the message, not the member's name.
- The code has no iteration cap on the base walk and no integrity error. A
  property without the accessor the code needs throws, as described above.

## Model

| member | source | states |
|---|---|---|
| `Eligibility.StaticContainerRejected` | ReflectionReader/Program.cs:50-68 | a member whose declaring type is abstract and sealed is rejected with "Cannot be static!", whatever its attributes and accessors |
| `Eligibility.IgnoreTagRejected` | ReflectionReader/Program.cs:70-75 | a member of a non-static type that carries ContentSerializerIgnore is rejected with "ContentSerializerIgnore decorated", even if it also carries ContentSerializer |
| `Eligibility.NonPublicGetterRejected` | ReflectionReader/Program.cs:78-85 | a property past rules 1 and 2 whose getter is not public is rejected with "Getter isn't public!", with or without ContentSerializer |
| `Eligibility.IndexPropertyRejected` | ReflectionReader/Program.cs:87-92 | a property past rules 1 and 2 with a public getter and index parameters is rejected with "Is an index property!", with or without ContentSerializer |
| `Eligibility.CantReadGetterUnreachable` | ReflectionReader/Program.cs:81-106 | no member is ever rejected with "Can't read getter!": the second getter test at line 102 can never fail |
| `Eligibility.SerializerPropertyAccepted` | ReflectionReader/Program.cs:95-129 | a property past rules 1 to 4 that carries ContentSerializer is valid whatever its setter is, even when it has no setter |
| `Eligibility.PropertySetterRule` | ReflectionReader/Program.cs:96-113 | without ContentSerializer, a property past rules 1 to 4 that has a setter is valid exactly when the setter is public, and is otherwise rejected with "Setter isn't public!" |
| `Eligibility.FieldRule` | ReflectionReader/Program.cs:96-124 | a field of a non-static type with no ignore attribute is valid if and only if it is public or carries ContentSerializer, and is otherwise rejected with "Field isn't public!" |
| `Eligibility.AcceptsExactlyEligible` | ReflectionReader/Program.cs:57-130 | the ordered rule chain accepts exactly the members that satisfy the unordered eligibility condition `Eligible` (both directions) |
| `Eligibility.ThrowsExactlyOnNullAccessor` | ReflectionReader/Program.cs:78-113 | the chain throws exactly when it dereferences a missing getter (line 81), or a missing setter of a property without ContentSerializer (line 109); it never throws on a field |
| `Eligibility.ToOut` | ReflectionReader/Program.cs:64-129 | the validator returns true exactly when its error out-parameter is null; every false return carries the rule's message, and every message starts with "INVALID: " |
| `Eligibility.MessagesDistinct` | ReflectionReader/Program.cs:66-121 | distinct rules have distinct messages, so the error text identifies the rule that rejected the member |
| `Reader.EmitAllLines` | ReflectionReader/Program.cs:33-47 | a loop over a member list writes one line per member, in order, each the line of that member's verdict, up to the first member whose validation throws; that member's exception ends the run |
| `Reader.EmitAllStopsAtFault` | ReflectionReader/Program.cs:33-39 | once a prefix of the member list has thrown, the members after it are never validated |
| `Reader.EmitMembers` | ReflectionReader/Program.cs:33-39 | the `foreach` loop over members computes exactly the run `EmitAll` specifies |
| `Reader.ReadType` | ReflectionReader/Program.cs:25-48 | the recursion on the base type followed by the property loop and the field loop computes exactly `Walk` with the guard as written |
| `Reader.OwnRunStopsAtFault` | ReflectionReader/Program.cs:33-47 | when the property loop throws, the field loop never runs and the run is the property loop's; otherwise the field lines follow the property lines and the field loop's exception, if any, ends the run |
| `Reader.WalkStopsAtFault` | ReflectionReader/Program.cs:27-33 | when the recursive call on the base type throws, none of the type's own members is validated and the run is the base type's run |
| `Reader.WalkSplit` | ReflectionReader/Program.cs:27-31 | a complete run is the recursive call's lines (when the guard recursed) followed by the property lines and then the field lines, and neither loop threw |
| `Reader.WalkOrder` | ReflectionReader/Program.cs:25-48 | in a complete run, the base type's lines come first, then one line per property in order, then one line per field in order |
| `Reader.StaticTypeRejectsOwnMembers` | ReflectionReader/Program.cs:33-68 | every property and field a static type declares is reported as "Cannot be static!", and none of them can throw |
| `Reader.AsWrittenNeverReportsBaseMembers` | ReflectionReader/Program.cs:27-28 | assuming the root object type has no base type, recursing under the guard as written always throws before writing anything: on that null base type, or because the base reference does not resolve; a run that completes reports only the type's own members |
| `Reader.BaseMemberMissedAsWritten` | ReflectionReader/Program.cs:27-28 | for `Foo : Bar : object`, where `Bar` declares a public field, the guard as written reports nothing, and the intended guard reports `Bar`'s field |
| `Reader.HierarchyStopsAtRoot` | ReflectionReader/Program.cs:27 | a type whose base is the root object type or a value type is the only type of its chain |
| `Reader.IntendedWalkIsBaseFirst` | ReflectionReader/Program.cs:25-48 | under the intended guard, a complete run reports every type of the base chain, root-most first, each with its own property and field lines |
| `Reader.ScenarioFoo` | ReflectionReader/Program.cs:25-47 | the reader on a type derived from `object`, with a public field `X`, a property `Y` with a private setter and a public property `Z`: when the comparison with `object` does not hold, it reports "Setter isn't public!", then `Z`, then `X`; when it holds, it throws on `object`'s null base type before writing anything |
| `Eligibility.IsValid` | ReflectionReader/Program.cs:57-130 | the rule chain itself; it has no contract of its own, and the rule lemmas above, `AcceptsExactlyEligible` and `ThrowsExactlyOnNullAccessor` describe it |
| `Eligibility.IsStaticType` | ReflectionReader/Program.cs:50 | abstract and sealed; no contract of its own, its effect is stated by `StaticContainerRejected` and `StaticTypeRejectsOwnMembers` |
| `Reader.LineOf` | ReflectionReader/Program.cs:35-38 | the line written for a member's verdict; no contract of its own, used by `Reports` in `EmitAllLines` and `WalkOrder` |
| `Reader.EmitAll` | ReflectionReader/Program.cs:33-47 | the specification of one `foreach` loop; no contract of its own, described by `EmitAllLines` and `EmitAllStopsAtFault` and implemented by `EmitMembers` |
| `Reader.Walk` | ReflectionReader/Program.cs:25-48 | the specification of the reader under either guard; no contract of its own, implemented by `ReadType` and described by `WalkSplit`, `WalkOrder`, `AsWrittenNeverReportsBaseMembers` and `IntendedWalkIsBaseFirst` |
| `Reader.Hierarchy` | ReflectionReader/Program.cs:27-28 | the chain of types the intended guard visits, most derived first; it starts with the type itself, so it is never empty |

## Findings

| source | as written | input that shows it | evidently intended | confidence | as-written member | corrected member |
|---|---|---|---|---|---|---|
| ReflectionReader/Program.cs:27 | recurses into the base type only when the base is not a value type and equals the root object type | `Foo : Bar : object` where `Bar` declares a public field: `Bar`'s field is never reported; if the comparison ever matched `object`, the recursion would throw on `object`'s null base type | recurse while the base is a reference type other than the root object type, so every type of the chain is reported | not executed; high | `Reader.BaseMemberMissedAsWritten` | `Reader.IntendedWalkIsBaseFirst` |

`ReadType` keeps the guard as written, because it models the code. The
corrected walk is `Walk(t, Intended)`, and `IntendedWalkIsBaseFirst` proves
its intended property. The same `Walk` function serves both guards, so the
corrected definition differs from the code only in the guard.
`AsWrittenNeverReportsBaseMembers` states the general form of the
discrepancy: under the guard as written, the walk never reports a base
type's members. Whether Cecil's equality ever lets a type reference equal
the runtime `object` type is not modelled (it is the flag `isObject`). If it
never does, the recursion never happens, and the outcome for the report is
the same: base types' members are missing.

## Left out

- `Main` is not modelled: argument checking, `ModuleDefinition.ReadModule`, `GetType`, the top-level `Resolve` call and `Console.ReadKey` are input, output and metadata-library plumbing.
- Output formatting is not modelled. A report line is a datatype (`Line`): the name, the declared type's full name and the value-type flag, or the rejection reason. The exact `Console.WriteLine` text and Cecil's `ToString` of a type reference are not reproduced.
- Comparing a base-type reference against the root object type depends on Cecil's equality, which is not modelled. It is the boolean `TypeRef.isObject`.
- Attribute matching is not modelled: the full-name string comparisons over `CustomAttributes` become the two boolean tags `ignoreTag` and `serializerTag`.
- Resolution is not modelled as a lookup: resolving a base-type reference is the `resolved` part of `BaseRef`, and `None` stands for a reference that does not resolve (the recursive call then throws).
- The code has no cap on base-chain iterations and no cycle check, so the model has neither. Termination comes from base chains being finite values.
- `Reader.EmitMembers`: the two `foreach` loops of `ReadType` have the same body, so the model writes that body once, as a method that `ReadType` calls for the properties and then for the fields.
- Purity and repeatability of the validator are not stated as a lemma: they hold by construction, since `IsValid` is a function.
