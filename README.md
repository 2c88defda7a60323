# Type-level core of the rambda declaration file

`immutable.d.ts` declares the functions of a Ramda-style utility library. None
of them has a body. The file's only logic lives in TypeScript's type language,
and this project models two parts of it:

- **Evolver typing.** `Evolvable`, `Evolver`, `Evolve`, `Evolved`,
  `EvolveNestedValue` and `EvolveValue` type the object form of
  `evolve(rules, obj)`. Given an object type and a tree of transformer rules,
  they compute the evolved object type. Fields without a rule keep their
  type. A function rule that accepts the field gives its return type. A
  nested rules object recurses into an object field that fits it. Any other
  pairing falls into a `never` branch.
- **Composition ladders.** `pipe` and `compose` have fixed-arity overloads
  for one to seven stages and a fallback for longer chains. `partial` has six
  typed overloads for functions of two to four parameters and an untyped
  fallback.

Everything is pure. TypeScript types are a datatype `Types.Ty` with five
cases: `never`, `unknown`, a named primitive, an object type with optional
keys, and a function type with a fixed parameter list. `Types.Assignable` is
the `extends` test. It is structural. `never` is the bottom type and
`unknown` the top type. Object types allow extra keys and optional keys. A
weak target (an object type whose keys are all optional) also needs a key in
common with a source that has keys. Primitives and functions fit the empty
object type `{}` and no other object type. Function types may take fewer
parameters, compare parameters contravariantly and compare results
covariantly. A rules object is a `Ty` as well, as `E` is a type in the
source.

A conditional type that takes a `never` branch is modelled as `None`. A
`never` that comes from distributing a conditional type over the empty union
is `Some(Never)`. For `pipe`, `compose` and `partial`, `None` means that no
overload accepts the call.

Files: `types.dfy` holds the type universe and assignability. `evolve.dfy`
holds the evolver typing and worked instances. `compose.dfy` holds `pipe` and
`compose`, and `partial.dfy` holds `partial`.

## Model

| member | source | states |
|---|---|---|
| `Types.FlipIsConverse` | immutable.d.ts:64 | The direction flag of the assignability relation swaps its arguments. So the contravariant parameter comparison inside `E extends (value: V) => any` is exactly "V is assignable to E's parameter". |
| `Types.AssignableToUnary` | immutable.d.ts:64 | A function type is assignable to `(value: V) => R` exactly when it takes at most one parameter, that parameter accepts `V`, and its result is assignable to `R`. |
| `Types.RelReflexive` | immutable.d.ts:44-47 | Every type is assignable to itself, in both directions. Fields that keep their type therefore still fit the shape they came from. |
| `EvolveTypes.EvolvableAccepts` | immutable.d.ts:38-39 | An object fits the shape derived from the rules exactly when every field that has a rule fits what that rule demands (`Evolved`), and, the shape being weak, the object shares a key with the rules unless one of the two has no keys. A primitive or function type fits only the shape of empty rules, and `unknown` fits none. |
| `EvolveTypes.Evolved` | immutable.d.ts:49-54 | For a function rule of at most one parameter, the demanded input is a `V` for which `A extends (value: V) => any` holds. Anything that is not a rule demands `never`. |
| `EvolveTypes.RuleIffApplicable` | immutable.d.ts:41-42 | An entry is admitted by `Evolver` (a function of at most one parameter, a nested `Evolver`, or `never`) exactly when it evolves some field without a `never` branch: the field typed by what it demands. |
| `EvolveTypes.EvolvedIsAcceptedInput` | immutable.d.ts:49-54 | For every rule other than `never`, a field resolves without a `never` branch if and only if its type is assignable to what `Evolved` derives from the rule. This covers a function's parameter (or `unknown` when it declares none) and the nested `Evolvable` of a rules object. It holds with `EvolveNestedValue` corrected as under "Findings". |
| `EvolveTypes.EvolveValue` | immutable.d.ts:63-68 | A function rule can only give its own return type. A nested rules object applied to an object field keeps that field's keys and optional modifiers. |
| `EvolveTypes.EvolveNestedValue` | immutable.d.ts:56-61 | A nested rules object resolves a field exactly when the field fits its `Evolvable`. An object field keeps its keys and optional modifiers, and a primitive field keeps its type. This is the corrected definition (see "Findings"). |
| `EvolveTypes.EvolveNestedValueAsWritten` | immutable.d.ts:56-61 | As declared at the top level, only `never`, object types and function types resolve: a primitive field always gives `never`. Deeper levels go through `Evolve` and so use the corrected `EvolveNestedValue`. |
| `EvolveTypes.ObjectTestRejectsOnlyPrimitivesUnderEmptyRules` | immutable.d.ts:49-61 | The declared `EvolveNestedValue` and the corrected one differ exactly on a primitive field under rules with no keys. That field fits `Evolvable<{}>`, and the declared version still sends it to `never`. |
| `EvolveTypes.Evolve` | immutable.d.ts:44-47 | The evolved object has exactly the keys and optional modifiers of the input object. Keys without a rule keep their type. Keys found only in the rules are ignored. Mapping over `never` gives `never`, and mapping over a primitive gives that primitive. |
| `EvolveTypes.EvolveResolvesEveryRuledField` | immutable.d.ts:44-68 | Under the constraints `E extends Evolver` and `O extends Evolvable<E>`, no ruled field takes a `never` branch. Every ruled field of the result is the value `EvolveValue` resolves to. |
| `EvolveTypes.FunctionRuleGivesReturnType` | immutable.d.ts:63-65 | A one-parameter function rule turns a field that its parameter accepts into the function's return type. It rejects every other field. |
| `EvolveTypes.NullaryRuleGivesReturnType` | immutable.d.ts:63-65 | A function rule without parameters accepts any field and gives its return type. |
| `EvolveTypes.NestedRuleRecurses` | immutable.d.ts:56-67 | A nested rules object applied to a field that fits its `Evolvable` gives `Evolve` of that field, one level down. A field that does not fit gives `never`. Rules with at least one key give `never` for every primitive, `unknown` or function-typed field. |
| `EvolveTypes.NonRuleRejects` | immutable.d.ts:63-68 | A rule that is neither `never`, nor a function of at most one parameter, nor a rules object gives `never` for every field. |
| `EvolveTypes.DisjointRulesAreIdentity` | immutable.d.ts:38-47 | Rules that share no key with an object accept it exactly when the rules or the object have no keys, because `Evolvable` is a weak type. An accepted object keeps its type unchanged. |
| `EvolveTypes.ConstrainedRulesNarrow` | immutable.d.ts:41-42 | Rules that respect `Evolver<T>` (`IsEvolverFor`/`IsEntryFor`: each entry a `(value: T[key]) => T[key]` function, or a nested `Evolver` of an object field) can only narrow. The evolved shape is assignable to the original. |
| `EvolveTypes.EvolveCall` | immutable.d.ts:1408-1409 | `evolve(rules, obj)` and `evolve(rules)(obj)` type-check exactly when `rules` is an `Evolver` and `obj` fits `Evolvable<rules>`. The result then keeps `obj`'s keys, and every ruled field is resolved. |
| `EvolveExamples.IncrementCount` | immutable.d.ts:1408 | `evolve({count: (n: number) => number}, {count, name})` has the type `{count: number, name: string}`. |
| `EvolveExamples.ThreeLevels` | immutable.d.ts:56-67 | Nested rules recurse once per level, so `{a: {b: {c: number}}}` under `{a: {b: {c: (x: number) => string}}}` becomes `{a: {b: {c: string}}}`. |
| `EvolveExamples.NestedRulesOnPrimitiveRejected` | immutable.d.ts:1408 | Nested rules against a `number` field give `never`. The call `evolve({a: {b: f}}, {a: 1})` does not type-check. |
| `EvolveExamples.EmptyNestedRulesOnPrimitive` | immutable.d.ts:1408 | `evolve({a: {}}, {a: 1})` type-checks, and the model keeps `a: number`. The declared `EvolveNestedValue` gives `never` for that field. |
| `Composition.PipeType` | immutable.d.ts:962-1016 | An accepted `pipe` call yields a function that takes the first stage's parameters and returns the last stage's result. Every stage after the first takes at most one parameter. |
| `Composition.FeedsIff` | immutable.d.ts:975-983 | A stage fits `(a: R) => R'`, with `R` the previous stage's result, exactly when it takes at most one parameter and that parameter accepts `R`. |
| `Composition.PipeChecksEveryStage` | immutable.d.ts:975-1016 | `pipe` with one to seven stages type-checks exactly when every stage accepts its predecessor's result. The composed function takes the first stage's parameters and returns the last stage's result. |
| `Composition.ExactChainAccepted` | immutable.d.ts:975-1016 | A chain in which each stage's parameter is exactly the previous stage's result is accepted. |
| `Composition.PipeAssociates` | immutable.d.ts:975-1016 | Within the exact overloads, `pipe(f1..fk, g1..gm)` has the type of `pipe(pipe(f1..fk), g1..gm)`, and one is rejected exactly when the other is. |
| `Composition.PipeFallback` | immutable.d.ts:962-974 | With eight or more stages, the call has the type of the seven-stage call on its first seven stages, provided every later stage takes at most one parameter. The result type is then taken from the last stage instead. |
| `Composition.FallbackSkipsEighthStage` | immutable.d.ts:962-974 | The fallback does not check the eighth stage against the seventh. A stage that expects `string` after seven `number` stages is accepted, although it would not be threaded. |
| `Composition.MismatchedStageRejected` | immutable.d.ts:1005-1009 | `string -> number`, `number -> boolean`, `boolean -> string` gives `(string) => string`. Putting a stage that expects `string` after the stage that returns `number` is rejected. |
| `Composition.ComposeType` | immutable.d.ts:253-316 | An accepted `compose` call yields a function that takes the last listed stage's parameters and returns the first listed stage's result. Every stage before the last listed takes at most one parameter. |
| `Composition.ComposeIsReversedPipe` | immutable.d.ts:253-316 | `compose` is `pipe` with its arguments reversed, overload for overload, including the fallback that threads the last seven listed stages. |
| `PartialApplication.Resolve` | immutable.d.ts:875-881 | Whichever overload resolves a `partial` call, the function it yields has `fn`'s return type. |
| `PartialApplication.PartialType` | immutable.d.ts:875-881 | `partial` accepts exactly function values, and always preserves the return type. |
| `PartialApplication.ResolveFirstMatch` | immutable.d.ts:875-880 | The first typed overload in declaration order that matches decides the result type. |
| `PartialApplication.PrefixGivesRemainingParameters` | immutable.d.ts:875-880 | For a function of two to four parameters, an args tuple that supplies a proper prefix accepted by those parameters gives a function of exactly the remaining parameters, with the same return type. |
| `PartialApplication.MismatchFallsBack` | immutable.d.ts:881 | A supplied argument that its parameter does not accept defeats every typed overload, and the call falls back to `(...x: any[]) => T`. |
| `PartialApplication.LongFunctionFallsBack` | immutable.d.ts:881 | A function of more than four parameters always gets the untyped fallback. |
| `PartialApplication.ShortFunctionGetsUnknownParameter` | immutable.d.ts:875 | A one-parameter function with its one argument supplied still matches the first overload. Its result is `(x1: unknown) => T`. |

The long-chain fallback of `pipe` and `compose` is more than a check of the
first and last functions. It threads seven adjacent stages: the first seven
for `pipe` and the last seven listed for `compose`. It asks only
`(a: any) => any` of the others.

## Findings

| source | as written | input that shows it | evidently intended | confidence | as-written member | corrected member |
|---|---|---|---|---|---|---|
| immutable.d.ts:56-61 | `EvolveNestedValue` demands `O extends object` on top of `O extends Evolvable<E>`. `Evolved` (lines 49-54) demands only `Evolvable<A>` of a nested rules object, so a primitive field under nested rules with no keys passes the constraint of `evolve` and still resolves to `never`. | `evolve({a: {}}, {a: 1})` type-checks with the result `{a: never}` | the constraint `V extends Evolvable<E>` and the resolution agree, so a field that passes the one does not reach `never` in the other. Two fixes give this: (i) drop the `object` test at line 57, so the primitive keeps its type, as the mapped type `Evolve` leaves a primitive unchanged; (ii) keep line 57 and have `Evolved` of a rules object demand an object type, so the call is rejected. Line 57 reads as deliberate, which favours (ii). The model takes (i) only because its type universe has no intersection to state `Evolvable<A> & object`; both fixes agree on every other input | low; not executed | `EvolveTypes.EvolveNestedValueAsWritten`, `EvolveTypes.ObjectTestRejectsOnlyPrimitivesUnderEmptyRules` | `EvolveTypes.EvolveNestedValue`, `EvolveTypes.EvolvedIsAcceptedInput`, `EvolveTypes.EvolveResolvesEveryRuledField` |

The rest of the model uses the corrected `EvolveNestedValue` of fix (i). It
agrees with the declaration on every input except a primitive field under
nested rules with no keys. Fix (ii) would instead reject such a call, so on
that one input the model's accepted result, not the declaration's intent, is
what `EvolveCall` states.

## Left out

- `EvolveTypes.EvolveCall`: a call with a primitive field under nested rules with no keys is accepted and keeps the field (fix (i) under "Findings"). Fix (ii), which line 57 of immutable.d.ts suggests, would reject it; the type universe has no intersection type in which to state `Evolvable<A> & object`.
- The runtime behaviour of the roughly 150 declared functions (`clamp`, `take`, `zip`, `equals`, `clone`, …): they have no bodies here, so there is nothing to model against.
- The array form of `evolve` (immutable.d.ts:1406-1407): it is a plain signature with no type-level computation.
- `Select` from ts-toolbelt: the declaration file defines no union-filtering helper, and unions are not part of the type universe.
- Unions in general, and so the distribution of conditional types over union members. Only the empty union `never` is distributed over.
- The special role of `any`. `unknown` stands for it in result positions. `(a: any) => any` is modelled as "a function of at most one parameter".
- `readonly` modifiers, `undefined` in optional fields, index signatures, and method-parameter bivariance.
- The apparent members of primitives and functions (`toFixed`, `call`, …). A primitive or function type fits an object type only when that object type has no keys.
- Callable objects that also have properties. A rule in the model is either a function or a rules object, never both. The source tries the function reading first, and the model keeps that order, but the two readings cannot overlap here.
- Rest parameters and optional parameters in function types. The untyped `partial` fallback is its own result case, `Untyped(res)`.
- Inference of the `R1..R7` type variables: each `Ri` is taken as stage i's declared result, which is the candidate TypeScript prefers when the chain type-checks.
- A stage or `partial` target of type `never`, which TypeScript would accept as any function type: the model requires a function type there.
- Async and Promise aliases and overloads, `Lens` and `over`/`set`/`view`, the floating-point functions `mean`, `median` and `divide`, and the `RambdaTypes` tag list: they hold no type-level logic.
