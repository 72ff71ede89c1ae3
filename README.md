# spec-trait core, modelled in Dafny

This project models the procedural-macro specialisation library `spec-trait`. A trait
implementation carries a `when(...)` condition on its generics. At each call site the macro
picks the most specific implementation whose condition holds.

The model covers the library's pure core:

- **Conditions.** The `when` condition language: how it is parsed and how it is normalised to
  disjunctive normal form.
- **Constraints.** The constraints a condition places on each generic, how constraints are
  ordered, and how the most specific implementation is chosen.
- **Types.** Matching, alias resolution and substitution over a small syntax tree of Rust types.
- **Generics and traits.** Generic parameter lists, and the rewriting of a trait body under a
  condition.
- **Smaller checks.** The lifetime checks, the call-site annotation parser, the variable
  information of a call, and the detection of the `when` attribute under an alias.

The library exists in three snapshots. Each source file is its own module, and modules of
different snapshots are not merged:

- `crates/…`: the `Utils*` and `Macro*` modules;
- `spec-trait-impl/…`: the `Impl*` modules;
- `spec-trait-impl.backup/…`: `BackupTypes`.

Four modules are shared helpers:

- `Wrappers`: `Option` and `Result`.
- `Strings`: splitting, trimming and joining.
- `Syntax`:
  - token trees;
  - the type tree `Ty`, with its rendering `Render` standing in for `quote`'s `to_string`;
  - generic parameter lists.
- `FreshNames`: the numbered fresh names that `replace_infers` and `get_unique_generic_name`
  produce.

How the source is represented:

- A panic and a `syn::Error` are both an `Err` carrying the source's message.
- A type rewrite that `syn` does in place is a function that returns the rewritten value.
- A loop in the source is a `method` whose `ensures` ties it to a specification function.
- The parser state of `crates/spec-trait-macro/src/conditions.rs` is a class over the token
  sequence (`MacroConditions.TokenIter`).

## Model

| member | source | states |
|---|---|---|
| UtilsConditions.ParseTrait | crates/spec-trait-utils/src/conditions.rs:54-72 | after `:`, succeeds exactly when a non-empty run of `+`-separated identifiers reaches `,` or the end; the result is `Trait(ident, names)` in written order and parsing resumes at that stop |
| UtilsConditions.ParseType | crates/spec-trait-utils/src/conditions.rs:48-52 | after `=`, succeeds exactly when the type parser does; the result is `Type(ident, parsed type)` and the position advances |
| UtilsConditions.ParseTypeOrTrait | crates/spec-trait-utils/src/conditions.rs:38-46 | a token other than `=` or `:` after the identifier is an error; `=` yields a Type atom and `:` a Trait atom, each well formed |
| UtilsConditions.ParseCondition | crates/spec-trait-utils/src/conditions.rs:28-35 | a non-identifier first token is an error; `all`/`any`/`not` yield the matching aggregation and any other identifier an atom |
| UtilsConditions.ParseAggregation | crates/spec-trait-utils/src/conditions.rs:74-102 | needs a parenthesised group; an empty group, no arguments, `not` with other than one argument and an unknown keyword are errors; every argument is well formed |
| UtilsConditions.FromTokens | crates/spec-trait-utils/src/conditions.rs:21-24 | empty or non-identifier input is rejected; a parsed condition is already normalised (a DNF fixpoint) |
| UtilsConditions.DedupFrom | crates/spec-trait-utils/src/conditions.rs:189-206 | keeps exactly the conditions not seen before, each once |
| UtilsConditions.DedupDistinct | crates/spec-trait-utils/src/conditions.rs:189-206 | a list that is already duplicate-free and unseen is kept as is |
| UtilsConditions.FlattenAndDeduplicate | crates/spec-trait-utils/src/conditions.rs:189-206 | the seen-set loop computes the specification; the result is a single survivor or the wrapper around the deduplicated list |
| UtilsConditions.Conjunctions | crates/spec-trait-utils/src/conditions.rs:125-150 | one flattened conjunction per disjunct, in order |
| UtilsConditions.Cross | crates/spec-trait-utils/src/conditions.rs:125-150 | the distribution of `all` over `any` yields one conjunction per pair |
| UtilsConditions.AllToDnfLoop | crates/spec-trait-utils/src/conditions.rs:125-150 | the loop over the arguments computes `all_to_dnf` |
| UtilsConditions.Normalize | crates/spec-trait-utils/src/conditions.rs:104-113 | the fixpoint loop ends at `ToDnf(c)`, which is in DNF, is its own fixpoint and has the same truth value as `c` under every assignment to atoms |
| UtilsConditions.EvalToDnf | crates/spec-trait-utils/src/conditions.rs:115-186 | `to_dnf` preserves the boolean value under every assignment |
| UtilsConditions.EvalConjunctions | crates/spec-trait-utils/src/conditions.rs:125-150 | flattening each conjunction preserves the disjunction's value |
| UtilsConditions.SameElements | crates/spec-trait-utils/src/conditions.rs:189-206 | lists with the same members have the same conjunction and disjunction value, so deduplication preserves meaning |
| UtilsConditions.DnfToDnf | crates/spec-trait-utils/src/conditions.rs:115-186 | the result of `to_dnf` is a disjunction of conjunctions of atoms and negated atoms |
| UtilsConditions.DnfFixed | crates/spec-trait-utils/src/conditions.rs:115-123 | a condition already in DNF, atoms included, is returned unchanged |
| UtilsConditions.ToDnfIdempotent | crates/spec-trait-utils/src/conditions.rs:104-113 | `to_dnf` is idempotent, so `normalize` stops after one more round |
| MacroConditions.ParseType | crates/spec-trait-macro/src/conditions.rs:67-86 | succeeds exactly when a type follows `=`; the result is `Type(ident, type)` and the iterator moves past it |
| MacroConditions.ParseTrait | crates/spec-trait-macro/src/conditions.rs:88-114 | succeeds exactly when an identifier follows `:`; the result is `Trait(ident, the `+`-separated run)` and the iterator moves past it |
| MacroConditions.HandleTypeOrTrait | crates/spec-trait-macro/src/conditions.rs:52-65 | a token other than `:` or `=` is an error; otherwise the result is that of the type or trait parser |
| MacroConditions.ParseTokens | crates/spec-trait-macro/src/conditions.rs:21-38 | the first token must be an identifier; `all`/`any`/`not` start an aggregation and any other identifier an atom; the result is well formed and input is consumed |
| MacroConditions.HandleAggr | crates/spec-trait-macro/src/conditions.rs:40-50 | a non-group token is an error; the aggregation matches its keyword |
| MacroConditions.Aggregate | crates/spec-trait-macro/src/conditions.rs:116-152 | no arguments, `not` with other than one argument or an unknown keyword are errors; otherwise `All`, `Any` or `Not` of the arguments |
| MacroConditions.ParseAggr | crates/spec-trait-macro/src/conditions.rs:116-152 | the comma-separated loop parses every argument, each well formed, with the same error cases as `Aggregate` |
| MacroConditions.ParseArgument | crates/spec-trait-macro/src/conditions.rs:116-152 | one argument re-read from the identifier already taken; the iterator only moves forward and a parsed argument is well formed |
| MacroConditions.Parse | crates/spec-trait-macro/src/conditions.rs:16-19 | non-identifier input is an error; the result is well formed, and it is an atom exactly when the keyword is not an aggregation |
| MacroConditions.AllToDnfLoop | crates/spec-trait-macro/src/conditions.rs:176-202 | the loop computes `all_to_dnf`, an `Any` of `All`s |
| MacroConditions.IterateOnce | crates/spec-trait-macro/src/conditions.rs:154-164 | any positive number of rounds gives `ToDnf(c)`, so the fixpoint loop stops after the second |
| MacroConditions.Normalize | crates/spec-trait-macro/src/conditions.rs:154-164 | ends at `ToDnf(c)`, in DNF, its own fixpoint, and equivalent to `c` under every assignment |
| MacroConditions.EvalToDnf | crates/spec-trait-macro/src/conditions.rs:166-240 | `to_dnf` preserves the boolean value |
| MacroConditions.EvalNotToDnf | crates/spec-trait-macro/src/conditions.rs:219-240 | pushing a negation inward negates the value |
| MacroConditions.EvalAllToDnf | crates/spec-trait-macro/src/conditions.rs:176-202 | the distributed form holds exactly when every argument holds |
| MacroConditions.DnfToDnf | crates/spec-trait-macro/src/conditions.rs:166-240 | the result of `to_dnf` is in DNF |
| MacroConditions.DnfFixed | crates/spec-trait-macro/src/conditions.rs:166-174 | a DNF input is returned unchanged |
| MacroConditions.ToDnfIdempotent | crates/spec-trait-macro/src/conditions.rs:154-164 | `to_dnf` is idempotent |
| MacroConstraints.Compare | crates/spec-trait-macro/src/constraints.rs:15-22 | two constraints are equal exactly when their four measures are |
| MacroConstraints.CompareLexicographic | crates/spec-trait-macro/src/constraints.rs:15-22 | greater means lexicographically greater on (has type, traits, not-types, not-traits) |
| MacroConstraints.CompareAntisymmetric | crates/spec-trait-macro/src/constraints.rs:15-22 | swapping the arguments reverses the ordering |
| MacroConstraints.CompareTransitive | crates/spec-trait-macro/src/constraints.rs:15-22 | greater is transitive |
| MacroConstraints.EqualConstraintsExample | crates/spec-trait-macro/src/constraints.rs:169-187 | constraints with the same shape but different names compare equal |
| MacroConstraints.Vote | crates/spec-trait-macro/src/constraints.rs:39-67 | a generic constrained on one side only votes for that side |
| MacroConstraints.CmpConstraints | crates/spec-trait-macro/src/constraints.rs:39-67 | the voting loop over all keys computes the vote-sum specification |
| MacroConstraints.CmpConstraintsAntisymmetric | crates/spec-trait-macro/src/constraints.rs:39-67 | swapping the arguments reverses the ordering |
| MacroConstraints.CmpConstraintsReflexive | crates/spec-trait-macro/src/constraints.rs:39-67 | every constraint set equals itself |
| MacroConstraints.CmpConstraintsExample | crates/spec-trait-macro/src/constraints.rs:190-221 | the expected result of the source's mixed example |
| MacroConstraints.Reverse | crates/spec-trait-macro/src/constraints.rs:71-81 | fails exactly with more than one forbidden type; otherwise swaps traits with forbidden traits and the type with the forbidden type |
| MacroConstraints.ReverseInvolution | crates/spec-trait-macro/src/constraints.rs:71-81 | reversing twice gives back the constraint |
| ImplConstraints.Norm | spec-trait-impl/crates/spec-trait-macro/src/constraints.rs:54-57 | `_` counts as no type |
| ImplConstraints.CmpTypeOrLifetime | spec-trait-impl/crates/spec-trait-macro/src/constraints.rs:49-78 | a type beats none, none ties none, and related types are ranked by the length of their erased rendering (which keeps `mut`) |
| ImplConstraints.Compare | spec-trait-impl/crates/spec-trait-macro/src/constraints.rs:26-32 | the type comparison decides first, then the lifetime comparison, then the counts; defined exactly when both comparisons are |
| ImplConstraints.CmpTypeOrLifetimeAntisymmetric | spec-trait-impl/crates/spec-trait-macro/src/constraints.rs:49-78 | swapping the arguments reverses the result |
| ImplConstraints.CompareAntisymmetric | spec-trait-impl/crates/spec-trait-macro/src/constraints.rs:26-32 | swapping reverses the result, and a constraint equals itself |
| ImplConstraints.WildcardIsAbsent | spec-trait-impl/crates/spec-trait-macro/src/constraints.rs:54-57 | a `_` type compares like no type |
| ImplConstraints.TypeBeatsNoType | spec-trait-impl/crates/spec-trait-macro/src/constraints.rs:49-78 | a constraint with a type is greater than one without |
| ImplConstraints.CountsDecide | spec-trait-impl/crates/spec-trait-macro/src/constraints.rs:26-32 | without types the trait, not-type and not-trait counts decide in that order |
| ImplConstraints.ByLength | spec-trait-impl/crates/spec-trait-macro/src/constraints.rs:80-92 | of two related types, the longer erased rendering is the more specific |
| ImplConstraints.ConcreteBeatsGenericExample | spec-trait-impl/crates/spec-trait-macro/src/constraints.rs:169-226 | a concrete `T` beats a generic `T` |
| ImplConstraints.ConcreteBeatsWildcardArgExample | spec-trait-impl/crates/spec-trait-macro/src/constraints.rs:403-422 | `TypeA<TypeB>` is more specific than `TypeA<_>` |
| ImplConstraints.ConcreteBeatsGenericArgExample | spec-trait-impl/crates/spec-trait-macro/src/constraints.rs:425-444 | `TypeA<TypeB>` is more specific than `TypeA<T>` with `T` generic |
| ImplConstraints.EqualConstraintsExample | spec-trait-impl/crates/spec-trait-macro/src/constraints.rs:380-400 | constraints of the same shape compare equal |
| ImplConstraints.OnlyWildcardExample | spec-trait-impl/crates/spec-trait-macro/src/constraints.rs:447-465 | a `_`-only constraint equals the default |
| ImplConstraints.StaticLifetimeExample | spec-trait-impl/crates/spec-trait-macro/src/constraints.rs:229-267 | `&'static T` is more specific than `&'a T` with `'a` generic |
| ImplConstraints.MutAssignable | spec-trait-impl.backup/crates/spec-trait-utils/src/types.rs:186-193 | `&mut u8` can be assigned to `&u8`: the matcher does not look at `mut` |
| ImplConstraints.MutRefErased | spec-trait-impl/crates/spec-trait-macro/src/constraints.rs:49-78 | as types and as lifetimes, `&mut u8` ranks above `&u8`, since `& mut u8` is the longer rendering |
| ImplConstraints.MutRefExample | spec-trait-impl/crates/spec-trait-macro/src/constraints.rs:26-32 | `T = &mut u8` is more specific than `T = &u8` |
| ImplConstraints.CompareIsAntisymmetric | spec-trait-impl/crates/spec-trait-macro/src/constraints.rs:26-32 | the constraint comparison is antisymmetric |
| ImplConstraints.Vote | spec-trait-impl/crates/spec-trait-macro/src/constraints.rs:108-137 | a key votes +1, -1 or 0 as the constraints at that key compare, using the default for a missing key |
| ImplConstraints.CmpSpecAntisymmetric | spec-trait-impl/crates/spec-trait-macro/src/constraints.rs:108-137 | the constraint-set comparison is antisymmetric |
| ImplConstraints.DefaultEntryChangesNothing | spec-trait-impl/crates/spec-trait-macro/src/constraints.rs:108-137 | adding a default entry for a missing key does not change the comparison |
| ImplConstraints.CmpConstraints | spec-trait-impl/crates/spec-trait-macro/src/constraints.rs:108-137 | the voting loop over all keys, taken in any order, computes the vote-sum specification |
| ImplConstraints.CompareConstraint | spec-trait-impl/crates/spec-trait-macro/src/constraints.rs:26-32 | the per-key comparison the loop body performs is `Compare` |
| ImplConstraints.CmpTypeOrLifetimeOf | spec-trait-impl/crates/spec-trait-macro/src/constraints.rs:49-78 | normalising and erasing both types, then comparing, is `CmpTypeOrLifetime` |
| ImplConstraints.ReplaceFn | spec-trait-impl/crates/spec-trait-macro/src/constraints.rs:81-90 | the step-by-step rewrite of a type computes its erased form `Erased` |
| ImplConstraints.EraseEach | spec-trait-impl/crates/spec-trait-macro/src/constraints.rs:81-90 | the loop over the generics erases them one at a time |
| ImplConstraints.FromIter | spec-trait-impl/crates/spec-trait-macro/src/constraints.rs:155-161 | the insertion loop builds the map in which a later pair overwrites an earlier one |
| ImplConstraints.FromPairsKeys | spec-trait-impl/crates/spec-trait-macro/src/constraints.rs:155-161 | the keys are exactly the generics of the pairs |
| ImplConstraints.FromPairsLast | spec-trait-impl/crates/spec-trait-macro/src/constraints.rs:155-161 | each key maps to its last pair's constraint |
| MacroSpec.Entry | crates/spec-trait-macro/src/spec.rs:82-173 | a generic without a constraint reads as the default constraint |
| MacroSpec.TypeCheck | crates/spec-trait-macro/src/spec.rs:88-110 | a type condition holds exactly when the generic's argument was called with that type, the type is not forbidden, and it implements the recorded traits; the type is recorded |
| MacroSpec.TraitCheck | crates/spec-trait-macro/src/spec.rs:111-133 | a trait condition holds exactly when the argument implements the traits, none is forbidden, and a recorded type also implements them; the traits are appended |
| MacroSpec.ReverseAll | crates/spec-trait-macro/src/spec.rs:162-172 | fails exactly when some constraint cannot be reversed; otherwise every constraint is reversed |
| MacroSpec.SatisfiesCondition | crates/spec-trait-macro/src/spec.rs:82-173 | the recursive check computes the specification `Satisfies` |
| MacroSpec.CheckAll | crates/spec-trait-macro/src/spec.rs:134-145 | the `all` loop threads constraints through the arguments and stops at the first failure |
| MacroSpec.CheckAny | crates/spec-trait-macro/src/spec.rs:146-161 | the `any` loop tries every argument from the same constraints |
| MacroSpec.ReverseConstraints | crates/spec-trait-macro/src/spec.rs:162-172 | the loop over the generics reverses each constraint or stops at the first that cannot be reversed, as `ReverseAll` says |
| MacroSpec.AnyErrorSticks | crates/spec-trait-macro/src/spec.rs:146-161 | once a prefix of the arguments panics, later arguments do not change the result of `any` |
| MacroSpec.AtomAgain | crates/spec-trait-macro/src/spec.rs:88-133 | checking an atom again under its own constraints gives the same answer |
| MacroSpec.AtomAndNotFails | crates/spec-trait-macro/src/spec.rs:257-296 | `all(A, not(A))` never holds |
| MacroSpec.AllAppend | crates/spec-trait-macro/src/spec.rs:134-145 | `all` over a concatenation is `all` over the first part followed by `all` over the second |
| MacroSpec.AnyOk | crates/spec-trait-macro/src/spec.rs:146-161 | `any` succeeds exactly when every argument's check does |
| MacroSpec.AnyHolds | crates/spec-trait-macro/src/spec.rs:146-161 | `any` holds exactly when some argument holds, keeping the constraints of one that held |
| MacroSpec.NotFlips | crates/spec-trait-macro/src/spec.rs:162-172 | `not` negates the answer and reverses the constraints it collected |
| MacroSpec.NotNot | crates/spec-trait-macro/src/spec.rs:162-172 | a double negation is the condition itself |
| MacroSpec.AllExample | crates/spec-trait-macro/src/spec.rs:198-224 | the source's test: two aliases of one type plus a trait hold together |
| MacroSpec.Insert | crates/spec-trait-macro/src/spec.rs:68 | stable insertion adds exactly the new candidate |
| MacroSpec.SortByConstraints | crates/spec-trait-macro/src/spec.rs:68 | sorting is a permutation |
| MacroSpec.SortSorted | crates/spec-trait-macro/src/spec.rs:68 | no neighbour in the sorted order is less than its predecessor |
| MacroSpec.InsertSorted | crates/spec-trait-macro/src/spec.rs:68 | inserting into a locally sorted run keeps it locally sorted |
| MacroSpec.InsertSpec | crates/spec-trait-macro/src/spec.rs:68 | one insertion step moves the candidate left past every candidate it is less than |
| MacroSpec.SortSpecs | crates/spec-trait-macro/src/spec.rs:68 | the sorting loop computes `SortByConstraints`, a locally sorted permutation |
| MacroSpec.FindTrait | crates/spec-trait-macro/src/spec.rs:30-34 | the search loop finds the first trait with the impl's trait name |
| MacroSpec.CandidateMeaning | crates/spec-trait-macro/src/spec.rs:30-66 | an unknown trait panics; a candidate has a satisfied condition or none |
| MacroSpec.CandidatesOk | crates/spec-trait-macro/src/spec.rs:30-66 | the candidates succeed exactly when each implementation's does, and each candidate comes from one |
| MacroSpec.CandidatesFirstError | crates/spec-trait-macro/src/spec.rs:30-66 | the first implementation that panics decides the error |
| MacroSpec.PickNone | crates/spec-trait-macro/src/spec.rs:70-71 | "No valid implementation found" exactly when there is no candidate |
| MacroSpec.PickSingle | crates/spec-trait-macro/src/spec.rs:69-78 | a single candidate is chosen |
| MacroSpec.PickChosen | crates/spec-trait-macro/src/spec.rs:69-78 | the choice is a candidate strictly greater than another one; otherwise the error is "Ambiguous implementation" |
| MacroSpec.GetMostSpecificImpl | crates/spec-trait-macro/src/spec.rs:23-80 | the collect, sort and pick loop computes the selection specification |
| UtilsTypes.FindAlias | crates/spec-trait-utils/src/types.rs:22-90 | the first alias entry listing the name, or none when no entry lists it |
| UtilsTypes.ResolveType | crates/spec-trait-utils/src/types.rs:22-90 | an aliased path resolves to its alias target; other leaf types are unchanged |
| UtilsTypes.ResolveTypeIdempotent | crates/spec-trait-utils/src/types.rs:22-90 | resolving twice equals resolving once when alias targets are resolved |
| UtilsTypes.ResolveTypeExample | crates/spec-trait-utils/src/types.rs:458-462 | the nested example resolves every occurrence |
| UtilsTypes.ResolveTypeParenExample | crates/spec-trait-utils/src/types.rs:444-448 | parentheses around an alias are dropped |
| UtilsTypes.ResolveAliasName | crates/spec-trait-utils/src/types.rs:409-413 | an alias name resolves to its target |
| UtilsTypes.ResolveOneArgPath | crates/spec-trait-utils/src/types.rs:22-90 | a non-alias path keeps its name and resolves its argument |
| UtilsTypes.GetConcreteType | crates/spec-trait-utils/src/types.rs:16-20 | the rendering of the alias-resolved type; an alias path renders as its target |
| UtilsTypes.GetConcreteTypeMutExample | crates/spec-trait-utils/src/types.rs:38-44 | a resolved reference keeps its lifetime and `mut`: `&'a mut MyType` renders as `& 'a mut u8` |
| UtilsTypes.SameType | crates/spec-trait-utils/src/types.rs:124-237 | `_` on either side matches; bindings keep their keys |
| UtilsTypes.CheckEqual | crates/spec-trait-utils/src/types.rs:243-274 | equal renderings or `_` match; different non-generic names do not |
| UtilsTypes.CheckKeys | crates/spec-trait-utils/src/types.rs:243-274 | an unbound generic binds to the other side; two non-generics match only when equal |
| UtilsTypes.SameTypeAgree | crates/spec-trait-utils/src/types.rs:124-274 | every depth at which the matcher finishes gives the same result |
| UtilsTypes.Matched | crates/spec-trait-utils/src/types.rs:124-274 | the source's answer whenever it returns; a rejection where it never returns |
| UtilsTypes.TypesEqualGenericConstraints | crates/spec-trait-utils/src/types.rs:97-116 | resolve both types, start with unbound generics, and return the bindings when the matcher accepts; `_` matches everything |
| UtilsTypes.SameTypeSymmetric | crates/spec-trait-utils/src/types.rs:124-237 | without generics, matching is symmetric and binds nothing |
| UtilsTypes.SameTypeReflexive | crates/spec-trait-utils/src/types.rs:465-500 | a comparable type matches itself |
| UtilsTypes.NamesMatch | crates/spec-trait-utils/src/types.rs:243-274 | two non-generic names match exactly when equal or `_` |
| UtilsTypes.BindUnbound | crates/spec-trait-utils/src/types.rs:243-274 | an unbound generic on either side binds to the other type |
| UtilsTypes.BindLeft | crates/spec-trait-utils/src/types.rs:243-274 | an unbound generic on the left binds to the right type |
| UtilsTypes.SameTypeTupleBindsExample | crates/spec-trait-utils/src/types.rs:503-532 | `(u8, T)` against `(u8, i32)` binds `T` to `i32` |
| UtilsTypes.SameTypeTupleRejectsExample | crates/spec-trait-utils/src/types.rs:503-532 | `(u8, i32)` against `(T, T)` fails |
| UtilsTypes.BoundMismatch | crates/spec-trait-utils/src/types.rs:243-274 | a generic bound to `u8` does not match `i32` |
| UtilsTypes.ChainAccepted | crates/spec-trait-utils/src/types.rs:97-116 | `(T, U, T)` against `(U, i32, i32)` follows `T` through `U` to `i32` and accepts |
| UtilsTypes.ChainFollowed | crates/spec-trait-utils/src/types.rs:243-274 | the matcher follows `T` through `U` to `i32` and binds both |
| UtilsTypes.SameTypeAsWrittenDiverges | crates/spec-trait-utils/src/types.rs:243-274 | as written, `(T, U, T)` against `(U, T, i32)` recurses forever |
| UtilsTypes.CycleDiverges | crates/spec-trait-utils/src/types.rs:243-274 | with `T` bound to `U` and `U` to `T`, matching either against `i32` never finishes at any depth |
| UtilsTypes.CycleNeverFinishes | crates/spec-trait-utils/src/types.rs:124-274 | no depth suffices for the cyclic input, so the depth-independent outcome rejects it |
| UtilsTypes.CycleRejected | crates/spec-trait-utils/src/types.rs:97-116 | the model answers `None` on that input |
| UtilsTypes.ReplaceType | crates/spec-trait-utils/src/types.rs:286-332 | a one-segment path named the generic becomes the new type; a type without the generic is unchanged; after replacement by a type without it, the generic is gone |
| UtilsTypes.ReplaceTypeCarries | crates/spec-trait-utils/src/types.rs:286-332 | every occurrence is replaced at any depth: when the type mentions the generic, the result mentions every name the new type mentions |
| UtilsTypes.ReplaceTypeIdempotent | crates/spec-trait-utils/src/types.rs:286-332 | replacing twice equals replacing once |
| UtilsTypes.ReplaceTypeNestedExample | crates/spec-trait-utils/src/types.rs:828-838 | every nested occurrence is replaced |
| UtilsTypes.TypeContains | crates/spec-trait-utils/src/types.rs:276-283 | containment implies the generic is mentioned |
| UtilsTypes.TypeContainsMentions | crates/spec-trait-utils/src/types.rs:276-283 | containment holds exactly when the generic is mentioned (for generics not made of placeholder characters) |
| UtilsTypes.TypeContainsPlaceholder | crates/spec-trait-utils/src/types.rs:276-283 | the one exception: the placeholder `__G__` mentions itself but is not contained in itself |
| UtilsTypes.TypeContainsExample | crates/spec-trait-utils/src/types.rs:746-752 | `Vec<U>` does not contain `T` |
| UtilsTypes.GetUniqueGenericName | crates/spec-trait-utils/src/types.rs:385-394 | the name is fresh, is added, and is the first free numbered name from the counter |
| UtilsTypes.ReplaceInfers | crates/spec-trait-utils/src/types.rs:335-383 | each `_` is filled left to right with a fresh name, and the names are added to the generics |
| UtilsTypes.ReplaceInfersNestedExample | crates/spec-trait-utils/src/types.rs:936-949 | the nested example has two `_`, filled in order with `__G_0__` and `__G_1__` |
| UtilsTypes.ReplaceInfersFirstNames | crates/spec-trait-utils/src/types.rs:841-949 | from no generics and counter 0 the first two fresh names are `__G_0__` and `__G_1__` |
| BackupTypes.FindAlias | spec-trait-impl.backup/crates/spec-trait-utils/src/types.rs:20-87 | the first alias entry listing the name |
| BackupTypes.ResolveType | spec-trait-impl.backup/crates/spec-trait-utils/src/types.rs:20-87 | an aliased path resolves to its target; other leaves are unchanged |
| BackupTypes.ResolveTypeIdempotent | spec-trait-impl.backup/crates/spec-trait-utils/src/types.rs:20-87 | resolution is idempotent when alias targets are resolved |
| BackupTypes.ResolveTypeExample | spec-trait-impl.backup/crates/spec-trait-utils/src/types.rs:675-682 | the nested example resolves every occurrence |
| BackupTypes.ResolveTypeParenExample | spec-trait-impl.backup/crates/spec-trait-utils/src/types.rs:661-666 | `(MyType)` resolves to `u8` |
| BackupTypes.ResolveAliasName | spec-trait-impl.backup/crates/spec-trait-utils/src/types.rs:626-631 | an alias name resolves to its target |
| BackupTypes.FromGenerics | spec-trait-impl.backup/crates/spec-trait-utils/src/types.rs:98-118 | the type and lifetime keys are exactly the declared ones, all unbound |
| BackupTypes.CheckLifetime | spec-trait-impl.backup/crates/spec-trait-utils/src/types.rs:280-301 | a declared unbound lifetime binds to the concrete one; a lifetime the impl does not declare fits only when it is the wildcard or the concrete lifetime is `'static`; a concrete `'static` always fits; with the correction a bound lifetime fits its own binding again |
| BackupTypes.CheckType | spec-trait-impl.backup/crates/spec-trait-utils/src/types.rs:252-278 | the bindings keep their names |
| BackupTypes.Go | spec-trait-impl.backup/crates/spec-trait-utils/src/types.rs:152-242 | `_` on either side fits; bindings keep their names |
| BackupTypes.CanAssignAsWritten | spec-trait-impl.backup/crates/spec-trait-utils/src/types.rs:152-242 | `can_assign` as written with a recursion depth; `_` fits |
| BackupTypes.GoAgree | spec-trait-impl.backup/crates/spec-trait-utils/src/types.rs:152-278 | every depth at which the matcher finishes gives the same result |
| BackupTypes.CheckBound | spec-trait-impl.backup/crates/spec-trait-utils/src/types.rs:252-278 | the bindings keep their names, and no depth left means no answer |
| BackupTypes.Matched | spec-trait-impl.backup/crates/spec-trait-utils/src/types.rs:152-278 | the matcher's answer whenever it returns at some depth; a rejection with bindings unchanged where it never returns |
| BackupTypes.NamesMatch | spec-trait-impl.backup/crates/spec-trait-utils/src/types.rs:152-242 | two non-generic names match exactly when equal or the declared one is `_`, binding nothing |
| BackupTypes.BindUnbound | spec-trait-impl.backup/crates/spec-trait-utils/src/types.rs:252-278 | an unbound generic binds to the concrete type |
| BackupTypes.CanAssign | spec-trait-impl.backup/crates/spec-trait-utils/src/types.rs:152-242 | an unbound declared generic binds to the concrete type; the matcher's answer whenever it returns; a rejection where it never returns |
| BackupTypes.TypeAssignableGenericConstraints | spec-trait-impl.backup/crates/spec-trait-utils/src/types.rs:121-139 | bindings exactly when the resolved concrete type can be assigned to the resolved declared one; a `_` declared type gives unbound generics |
| BackupTypes.CanAssignReflexive | spec-trait-impl.backup/crates/spec-trait-utils/src/types.rs:685-712 | a plain type is assignable to itself |
| BackupTypes.CanAssignDirectional | spec-trait-impl.backup/crates/spec-trait-utils/src/types.rs:685-712 | `u8` fits a generic `T`, but `T` does not fit `u8` |
| BackupTypes.CanAssignSameGenericExample | spec-trait-impl.backup/crates/spec-trait-utils/src/types.rs:715-744 | `(u8, i32)` does not fit `(T, T)` |
| BackupTypes.CanAssignStaticExample | spec-trait-impl.backup/crates/spec-trait-utils/src/types.rs:774-819 | `&'a u8` does not fit `&'static u8` |
| BackupTypes.CanAssignFromStaticExample | spec-trait-impl.backup/crates/spec-trait-utils/src/types.rs:774-819 | `&'static u8` fits `&u8` |
| BackupTypes.CanAssignArrayExamples | spec-trait-impl.backup/crates/spec-trait-utils/src/types.rs:849-881 | array lengths must agree unless the declared one is `_` |
| BackupTypes.CanAssignNestedExample | spec-trait-impl.backup/crates/spec-trait-utils/src/types.rs:946-965 | the nested example fits |
| BackupTypes.ChainAccepted | spec-trait-impl.backup/crates/spec-trait-utils/src/types.rs:252-278 | `(U, i32)` fits `(T, T)`, binding both to `i32` |
| BackupTypes.CanAssignAsWrittenDiverges | spec-trait-impl.backup/crates/spec-trait-utils/src/types.rs:252-278 | as written, `(T, T)` against `(T, T)` recurses forever |
| BackupTypes.SelfBoundDiverges | spec-trait-impl.backup/crates/spec-trait-utils/src/types.rs:252-278 | with `T` bound to `T`, matching `T` against `T` never finishes at any depth |
| BackupTypes.SelfBoundCycle | spec-trait-impl.backup/crates/spec-trait-utils/src/types.rs:252-278 | `(T, T)` against `(T, T)` never finishes at any depth |
| BackupTypes.CanAssignSelfBound | spec-trait-impl.backup/crates/spec-trait-utils/src/types.rs:252-278 | the model rejects that input and leaves `T` unbound |
| BackupTypes.LifetimeRebindAsWritten | spec-trait-impl.backup/crates/spec-trait-utils/src/types.rs:280-301 | as written, `(&'b u8, &'b u8)` is rejected against `(&'a u8, &'a u8)` |
| BackupTypes.LifetimeRebind | spec-trait-impl.backup/crates/spec-trait-utils/src/types.rs:280-301 | the corrected check accepts it |
| BackupTypes.WildcardLifetimeRejectedAsWritten | spec-trait-impl.backup/crates/spec-trait-utils/src/types.rs:280-301 | as written, `&'x u8` is rejected against `&'_ u8` |
| BackupTypes.WildcardLifetimeAccepted | spec-trait-impl.backup/crates/spec-trait-utils/src/types.rs:280-301 | the corrected check accepts it |
| BackupTypes.ReplaceType | spec-trait-impl.backup/crates/spec-trait-utils/src/types.rs:322-384 | a type rendered as the target becomes the replacement; an identifier replacement never fails; a type without the target is unchanged |
| BackupTypes.TypeContainsOccursIff | spec-trait-impl.backup/crates/spec-trait-utils/src/types.rs:303-310 | containment holds exactly when the type occurs |
| BackupTypes.TypeContainsOccurs | spec-trait-impl.backup/crates/spec-trait-utils/src/types.rs:303-310 | replacing by the placeholder never fails, and containment implies occurrence |
| BackupTypes.TypeContainsPlaceholder | spec-trait-impl.backup/crates/spec-trait-utils/src/types.rs:303-310 | the one exception: `__G__` occurs in itself but is not contained in itself |
| BackupTypes.ReplaceTypeNestedExample | spec-trait-impl.backup/crates/spec-trait-utils/src/types.rs:1122-1139 | nested path segments named like the target are renamed |
| BackupTypes.ReplaceTypeTupleExample | spec-trait-impl.backup/crates/spec-trait-utils/src/types.rs:1014-1029 | each tuple element named like the target is replaced |
| BackupTypes.StripLifetimes | spec-trait-impl.backup/crates/spec-trait-utils/src/types.rs:421-467 | exactly the declared lifetimes are removed; the rest of the type is unchanged |
| BackupTypes.StripLifetimesIdempotent | spec-trait-impl.backup/crates/spec-trait-utils/src/types.rs:421-467 | stripping twice equals stripping once |
| BackupTypes.StripLifetimesNestedExample | spec-trait-impl.backup/crates/spec-trait-utils/src/types.rs:1312-1320 | nested references lose their declared lifetimes |
| BackupTypes.StripLifetimesTupleExample | spec-trait-impl.backup/crates/spec-trait-utils/src/types.rs:1285-1293 | only declared lifetimes are stripped |
| BackupTypes.ReplaceLifetime | spec-trait-impl.backup/crates/spec-trait-utils/src/types.rs:387-418 | the lifetime is renamed everywhere and the type is otherwise unchanged |
| BackupTypes.ReplaceLifetimeRoundTrip | spec-trait-impl.backup/crates/spec-trait-utils/src/types.rs:387-418 | renaming `a` to a fresh `b` and back restores the type |
| BackupTypes.TypeContainsLifetime | spec-trait-impl.backup/crates/spec-trait-utils/src/types.rs:312-319 | containment implies the lifetime occurs |
| BackupTypes.AssignedLifetime | spec-trait-impl.backup/crates/spec-trait-utils/src/types.rs:471-543 | copies the declared side's lifetime or its binding, and keeps the concrete one otherwise |
| BackupTypes.AssignLifetimesShape | spec-trait-impl.backup/crates/spec-trait-utils/src/types.rs:471-543 | only lifetimes change |
| BackupTypes.AssignLifetimesSelf | spec-trait-impl.backup/crates/spec-trait-utils/src/types.rs:471-543 | assigning a type's lifetimes to itself changes nothing |
| BackupTypes.AssignLifetimesExamples | spec-trait-impl.backup/crates/spec-trait-utils/src/types.rs:1402-1412 | a bound `'b` and the concrete `'static` are written into `&'a Option<&'a u8>` |
| BackupTypes.AssignLifetimesElidedExample | spec-trait-impl.backup/crates/spec-trait-utils/src/types.rs:1339-1343 | `&u8` against `&'a u8` becomes `&'a u8` |
| BackupTypes.GetUniqueGenericName | spec-trait-impl.backup/crates/spec-trait-utils/src/types.rs:597-611 | the name is fresh, added, and the first free numbered name with the prefix |
| BackupTypes.ReplaceInfers | spec-trait-impl.backup/crates/spec-trait-utils/src/types.rs:547-595 | each `_` is filled left to right with a fresh name |
| BackupTypes.ReplaceInfersNestedExample | spec-trait-impl.backup/crates/spec-trait-utils/src/types.rs:1258-1274 | the nested example is filled in order |
| BackupTypes.ReplaceInfersFirstNames | spec-trait-impl.backup/crates/spec-trait-utils/src/types.rs:1142-1274 | from no generics and counter 0 the first two fresh names are `__G_0__` and `__G_1__` |
| MacroTypes.FindVar | crates/spec-trait-macro/src/types.rs:11-79 | the concrete type of the first variable listing the name as an alias |
| MacroTypes.ResolveType | crates/spec-trait-macro/src/types.rs:11-79 | an alias of a variable's type resolves to its concrete type; without aliases only parentheses go |
| MacroTypes.GetConcreteType | crates/spec-trait-macro/src/types.rs:5-9 | the rendering of the resolved type; a variable's alias renders as its type |
| MacroTypes.GetConcreteTypeMutExample | crates/spec-trait-macro/src/types.rs:27-34 | a resolved reference keeps its `mut`: `&mut MyType` renders as `& mut u8` |
| MacroTypes.ResolveTypeNestedExample | crates/spec-trait-macro/src/types.rs:225-229 | the nested example resolves every occurrence |
| MacroTypes.ResolveTypeParenExample | crates/spec-trait-macro/src/types.rs:211-215 | parentheses are removed |
| MacroTypes.ResolveSingleSegment | crates/spec-trait-macro/src/types.rs:11-79 | a one-segment path that is not an alias is resolved inside its segment |
| MacroTypes.ResolveOneArg | crates/spec-trait-macro/src/types.rs:11-79 | a segment with one type argument resolves that argument |
| MacroTypes.CompareTypesSymmetric | crates/spec-trait-macro/src/types.rs:90-155 | the comparison is symmetric |
| MacroTypes.CompareTypesReflexive | crates/spec-trait-macro/src/types.rs:90-155 | every comparable type equals itself |
| MacroTypes.OpaqueNeverEqual | crates/spec-trait-macro/src/types.rs:90-155 | an unsupported type equals nothing but `_` |
| MacroTypes.CompareTypesIgnoresLifetimes | crates/spec-trait-macro/src/types.rs:90-155 | lifetimes do not affect the comparison |
| MacroTypes.CompareTypesExamples | crates/spec-trait-macro/src/types.rs:262-274 | references with and without lifetimes are equal; `_` matches anything |
| MacroTypes.CompareTypesArrayExamples | crates/spec-trait-macro/src/types.rs:292-312 | array lengths must agree unless one is `_` |
| UtilsParsing.ParseTrait | crates/spec-trait-utils/src/parsing.rs:50-68 | succeeds exactly when identifiers follow `:` up to the stop; the result holds them in order |
| UtilsParsing.ParseTypeOrTrait | crates/spec-trait-utils/src/parsing.rs:31-48 | other tokens are errors; `=` parses a type and `:` a trait |
| UtilsParsing.AddNewKeeps | crates/spec-trait-utils/src/parsing.rs:104-146 | merging keeps existing bounds and adds exactly the missing ones |
| UtilsParsing.AddNewNoDuplicates | crates/spec-trait-utils/src/parsing.rs:104-146 | merging creates no duplicates |
| UtilsParsing.AddNewPresent | crates/spec-trait-utils/src/parsing.rs:352-359 | merging bounds already present changes nothing |
| UtilsParsing.PushNew | crates/spec-trait-utils/src/parsing.rs:104-146 | the push loop computes the merge |
| UtilsParsing.FindParam | crates/spec-trait-utils/src/parsing.rs:104-146 | the first parameter of the right kind and name |
| UtilsParsing.Target | crates/spec-trait-utils/src/parsing.rs:104-146 | a where-predicate targets its lifetime or the first path segment of its bounded type; other types are errors |
| UtilsParsing.ApplyOne | crates/spec-trait-utils/src/parsing.rs:104-146 | succeeds exactly when the target is declared; only the target's bounds grow |
| UtilsParsing.ApplyOneCovers | crates/spec-trait-utils/src/parsing.rs:104-146 | after applying, the target carries every bound of the predicate |
| UtilsParsing.ApplyAllCovers | crates/spec-trait-utils/src/parsing.rs:83-102 | after all predicates, each is covered and parameters only grew |
| UtilsParsing.ApplyAllFixed | crates/spec-trait-utils/src/parsing.rs:83-102 | already covered predicates change nothing |
| UtilsParsing.CoveredFixed | crates/spec-trait-utils/src/parsing.rs:104-146 | a predicate whose bounds are already present changes nothing |
| UtilsParsing.FindParamIndex | crates/spec-trait-utils/src/parsing.rs:104-146 | the search loop finds the first parameter of the right kind and name, as `FindParam` says |
| UtilsParsing.ApplyAllFails | crates/spec-trait-utils/src/parsing.rs:83-102 | fails exactly when some predicate's target is missing |
| UtilsParsing.ParseGenericsIdempotent | crates/spec-trait-utils/src/parsing.rs:83-102 | parsing the result again changes nothing |
| UtilsParsing.HandleTypePredicate | crates/spec-trait-utils/src/parsing.rs:104-126 | a type predicate's bounds are merged into its parameter, or the error is raised |
| UtilsParsing.HandleLifetimePredicate | crates/spec-trait-utils/src/parsing.rs:128-146 | a lifetime predicate's bounds are merged into its lifetime, or the error is raised |
| UtilsParsing.ParseGenerics | crates/spec-trait-utils/src/parsing.rs:83-102 | the loop over the where-clause computes the specification |
| UtilsParsing.ParseGenericsTraitExamples | crates/spec-trait-utils/src/parsing.rs:342-372 | the source's trait-bound examples |
| UtilsParsing.ParseGenericsMixedExample | crates/spec-trait-utils/src/parsing.rs:395-405 | the source's mixed example |
| UtilsParsing.ParseGenericsMissingParam | crates/spec-trait-utils/src/parsing.rs:104-126 | a predicate on an undeclared parameter is an error |
| UtilsParsing.ReplaceTypeExamples | crates/spec-trait-utils/src/parsing.rs:149-195 | the source's replacement examples |
| UtilsParsing.ReplaceInfers | crates/spec-trait-utils/src/parsing.rs:198-254 | each `_` becomes a fresh `__W` name, left to right |
| UtilsParsing.ReplaceInfersTupleExample | crates/spec-trait-utils/src/parsing.rs:507-521 | `(_, Other, _)` becomes `(__W0, Other, __W1)` |
| UtilsParsing.ReplaceInfersFirstNames | crates/spec-trait-utils/src/parsing.rs:494-602 | from no generics and counter 0 the first two fresh names are `__W0` and `__W1` |
| UtilsSpecialize.TypesOfMembers | crates/spec-trait-utils/src/specialize.rs:48-60 | exactly the types of the generic's type conditions |
| UtilsSpecialize.SortByKeyCorrect | crates/spec-trait-utils/src/specialize.rs:48-60 | the stable sort by rendered length is sorted, a permutation, and keeps the order of equal keys |
| UtilsSpecialize.GenericTypesCorrect | crates/spec-trait-utils/src/specialize.rs:48-60 | the generic's types, sorted by specificity, with input order kept among equals |
| UtilsSpecialize.GenericTypesOrderingExample | crates/spec-trait-utils/src/specialize.rs:250-266 | the source's ordering example |
| UtilsSpecialize.GenericTypesFilteringExample | crates/spec-trait-utils/src/specialize.rs:250-266 | types of other generics are filtered out |
| UtilsSpecialize.NoTypes | crates/spec-trait-utils/src/specialize.rs:48-60 | no type condition gives no types |
| UtilsSpecialize.GenericTypesAbsentExample | crates/spec-trait-utils/src/specialize.rs:250-266 | a generic without type conditions gets no types |
| UtilsSpecialize.Keep | crates/spec-trait-utils/src/specialize.rs:17-46 | exactly the assignable conditions, in order |
| UtilsSpecialize.GetAssignableConditions | crates/spec-trait-utils/src/specialize.rs:17-46 | only trait and type conditions taken from the input |
| UtilsSpecialize.KeepAppend | crates/spec-trait-utils/src/specialize.rs:17-46 | the filter keeps input order: it distributes over concatenation |
| UtilsSpecialize.AssignableKeepsTraits | crates/spec-trait-utils/src/specialize.rs:17-46 | every trait condition is kept |
| UtilsSpecialize.AssignableOnePerGeneric | crates/spec-trait-utils/src/specialize.rs:17-46 | at most one type per generic survives; it is the longest of that generic's types and equal to each of them |
| UtilsSpecialize.AssignableConflict | crates/spec-trait-utils/src/specialize.rs:236-247 | two conflicting types drop both |
| UtilsSpecialize.AssignableUniform | crates/spec-trait-utils/src/specialize.rs:224-233 | a single type is kept |
| UtilsSpecialize.RemoveGeneric | crates/spec-trait-utils/src/specialize.rs:114-120 | exactly the named type parameter goes |
| UtilsSpecialize.AddGenericType | crates/spec-trait-utils/src/specialize.rs:146-157 | an unbounded type parameter is appended |
| UtilsSpecialize.CollectGenericsTypes | crates/spec-trait-utils/src/specialize.rs:122-132 | exactly the declared type parameter names |
| UtilsSpecialize.CollectGenericsLifetimes | crates/spec-trait-utils/src/specialize.rs:134-144 | exactly the declared lifetime names |
| UtilsSpecialize.CollectAfterRemove | crates/spec-trait-utils/src/specialize.rs:114-144 | removing drops that name from the type names only |
| UtilsSpecialize.CollectAfterAdd | crates/spec-trait-utils/src/specialize.rs:122-157 | adding appends the name; removal undoes it |
| UtilsSpecialize.CollectAddRemoveExample | crates/spec-trait-utils/src/specialize.rs:166-178 | the source's add and remove example |
| UtilsSpecialize.ReplaceAll | crates/spec-trait-utils/src/specialize.rs:181-188 | each type has the generic replaced; types without it are unchanged |
| UtilsSpecialize.ApplyTypeCondition | crates/spec-trait-utils/src/specialize.rs:74-112 | `_`s get fresh names, the generic is replaced and removed, and the new names are declared on both sides |
| UtilsSpecialize.AddGenerics | crates/spec-trait-utils/src/specialize.rs:74-112 | the loop pushes each fresh name, unbounded, onto both generic lists |
| UtilsSpecialize.ApplyTypeConditionEffect | crates/spec-trait-utils/src/specialize.rs:74-112 | the generic is gone and the fresh names are present |
| ImplSpecialize.Keep | spec-trait-impl/crates/spec-trait-utils/src/specialize.rs:29-59 | exactly the assignable conditions, in order |
| ImplSpecialize.GetAssignableConditions | spec-trait-impl/crates/spec-trait-utils/src/specialize.rs:29-59 | only trait and type conditions from the input |
| ImplSpecialize.KeepAppend | spec-trait-impl/crates/spec-trait-utils/src/specialize.rs:29-59 | the filter keeps input order: it distributes over concatenation |
| ImplSpecialize.AssignableKeepsTraits | spec-trait-impl/crates/spec-trait-utils/src/specialize.rs:29-59 | every trait condition is kept |
| ImplSpecialize.AssignableOnePerGeneric | spec-trait-impl/crates/spec-trait-utils/src/specialize.rs:29-59 | at most one type per generic survives; it is the longest of that generic's types and conflicts with none of them |
| ImplSpecialize.AssignableConflict | spec-trait-impl/crates/spec-trait-utils/src/specialize.rs:29-59 | mutually unassignable types drop both |
| ImplSpecialize.AssignableUniform | spec-trait-impl/crates/spec-trait-utils/src/specialize.rs:29-59 | a single self-assignable type is kept |
| ImplSpecialize.AssignableSimpleExample | spec-trait-impl/crates/spec-trait-utils/src/specialize.rs:293-303 | the source's simple example |
| ImplSpecialize.AssignableConflictExample | spec-trait-impl/crates/spec-trait-utils/src/specialize.rs:305-317 | the source's conflicting example keeps only the trait |
| ImplSpecialize.RemoveGeneric | spec-trait-impl/crates/spec-trait-utils/src/specialize.rs:127-137 | exactly the type or lifetime parameter of that name goes |
| ImplSpecialize.RemoveParamsMembers | spec-trait-impl/crates/spec-trait-utils/src/specialize.rs:127-137 | the retained parameters are exactly those not declaring the name |
| ImplSpecialize.AddGenericLifetime | spec-trait-impl/crates/spec-trait-utils/src/specialize.rs:176-185 | an unbounded lifetime is appended |
| ImplSpecialize.CollectTypesAfterRemove | spec-trait-impl/crates/spec-trait-utils/src/specialize.rs:127-161 | removal drops the name from the type names |
| ImplSpecialize.CollectLifetimesAfterRemove | spec-trait-impl/crates/spec-trait-utils/src/specialize.rs:127-161 | removal drops the name from the lifetime names |
| ImplSpecialize.CollectAfterAddLifetime | spec-trait-impl/crates/spec-trait-utils/src/specialize.rs:139-185 | adding appends the lifetime; removal undoes it |
| ImplSpecialize.RemoveAfterAddType | spec-trait-impl/crates/spec-trait-utils/src/specialize.rs:127-174 | removing an added type is removal alone |
| ImplSpecialize.CollectAddRemoveExample | spec-trait-impl/crates/spec-trait-utils/src/specialize.rs:231-243 | the source's example |
| ImplSpecialize.ReplaceAllCorrect | spec-trait-impl/crates/spec-trait-utils/src/specialize.rs:75-85 | each type is `replace_type` of the input; an identifier replacement never fails |
| ImplSpecialize.ApplyTypeCondition | spec-trait-impl/crates/spec-trait-utils/src/specialize.rs:87-125 | fresh names for `_`, the generic replaced and removed, fresh names declared |
| ImplSpecialize.ApplyTypeConditionTypes | spec-trait-impl/crates/spec-trait-utils/src/specialize.rs:87-125 | the generic is gone and the fresh names are added |
| ImplSpecialize.ApplyTypeConditionLifetimes | spec-trait-impl/crates/spec-trait-utils/src/specialize.rs:87-125 | lifetimes are kept except a lifetime of that name |
| ImplSpecialize.WildcardsFresh | spec-trait-impl/crates/spec-trait-utils/src/specialize.rs:87-125 | no fresh name equals the removed generic |
| ImplSpecialize.ApplyTypeConditionExampleTarget | spec-trait-impl/crates/spec-trait-utils/src/specialize.rs:272-291 | the target type `T` becomes the condition's type |
| ImplSpecialize.ApplyTypeConditionExampleGenerics | spec-trait-impl/crates/spec-trait-utils/src/specialize.rs:272-291 | applying `T` to generics `<T>` leaves no type generics |
| ImplSpecialize.Declared | spec-trait-impl/crates/spec-trait-utils/src/specialize.rs:212-223 | the declared type and lifetime names |
| ImplSpecialize.UsedIn | spec-trait-impl/crates/spec-trait-utils/src/specialize.rs:187-223 | exactly the candidates that some type uses |
| ImplSpecialize.VisitType | spec-trait-impl/crates/spec-trait-utils/src/specialize.rs:187-210 | a visited type moves the names it uses from unused to used |
| ImplSpecialize.GetUsedGenerics | spec-trait-impl/crates/spec-trait-utils/src/specialize.rs:212-223 | the visitor loop finds exactly the declared generics used |
| ImplSpecialize.RemoveAll | spec-trait-impl/crates/spec-trait-utils/src/specialize.rs:187-210 | the loop removes exactly the given names from the set |
| ImplSpecialize.UsedInAppend | spec-trait-impl/crates/spec-trait-utils/src/specialize.rs:187-223 | use distributes over concatenation |
| ImplSpecialize.UsedOccurs | spec-trait-impl/crates/spec-trait-utils/src/specialize.rs:187-210 | a used type generic occurs in some type |
| UtilsTraits.CountFnArgs | crates/spec-trait-utils/src/traits.rs:231-236 | counts exactly the typed inputs |
| UtilsTraits.GetParamTypes | crates/spec-trait-utils/src/traits.rs:238-251 | one rendered type per typed input |
| UtilsTraits.GetParamTypesMutExample | crates/spec-trait-utils/src/traits.rs:238-251 | the receiver gives no type; `&mut T` renders as `& mut T` |
| UtilsTraits.ParamTypesAppend | crates/spec-trait-utils/src/traits.rs:238-251 | parameter types distribute over concatenation |
| UtilsTraits.FindFn | crates/spec-trait-utils/src/traits.rs:66-80 | none exactly when no fn has the name and arity; otherwise the first such fn |
| UtilsTraits.FindFnFirst | crates/spec-trait-utils/src/traits.rs:66-80 | the first matching fn is returned |
| UtilsTraits.Specialize | crates/spec-trait-utils/src/traits.rs:82-90 | only the trait name changes |
| UtilsTraits.GetCorrespondingGeneric | crates/spec-trait-utils/src/traits.rs:210-228 | the trait generic at the position of the impl generic, exactly when both exist |
| UtilsTraits.RemoveTypeParamMembers | crates/spec-trait-utils/src/traits.rs:104-193 | exactly the named type parameter goes |
| UtilsTraits.Unbounded | crates/spec-trait-utils/src/traits.rs:104-193 | one unbounded type parameter per name, in order |
| UtilsTraits.ReplaceInItem | crates/spec-trait-utils/src/traits.rs:104-193 | an item without the generic is unchanged; after replacement by a type without it, the generic is gone |
| UtilsTraits.ReplaceInArg | crates/spec-trait-utils/src/traits.rs:166-186 | a typed input has the generic replaced in its type; the receiver is left alone |
| UtilsTraits.ReplaceInItems | crates/spec-trait-utils/src/traits.rs:166-186 | each item is rewritten on its own |
| UtilsTraits.ReplaceItems | crates/spec-trait-utils/src/traits.rs:166-186 | the loop over the items computes `ReplaceInItems` |
| UtilsTraits.ReplaceOnce | crates/spec-trait-utils/src/traits.rs:166-186 | when the new type does not mention the generic, a second replacement changes nothing |
| UtilsTraits.PushGenerics | crates/spec-trait-utils/src/traits.rs:104-193 | the loop appends one unbounded parameter per fresh name |
| UtilsTraits.SwapParams | crates/spec-trait-utils/src/traits.rs:104-193 | after the filter and the pushes the generic is gone (unless reintroduced), other parameters stay and each fresh name is declared |
| UtilsTraits.TraitBounds | crates/spec-trait-utils/src/traits.rs:194-208 | one trait bound per trait name, in order |
| UtilsTraits.ApplyType | crates/spec-trait-utils/src/traits.rs:104-193 | one distinct `__W` name per `_` of the type, none already taken, and the state rewritten by the type rule with those names |
| UtilsTraits.ApplyTrait | crates/spec-trait-utils/src/traits.rs:194-208 | the traits are merged into the bounds of the corresponding trait generic, or the missing-generic error |
| UtilsTraits.ApplyCondition | crates/spec-trait-utils/src/traits.rs:92-208 | the result is one the specification `Applied` allows: the type rule with some fresh names, the trait rule, `all` as repeated passes over its conditions, and `any` and `not` leaving the state unchanged |
| UtilsTraits.ApplyAll | crates/spec-trait-utils/src/traits.rs:94-103 | the `all` arm makes as many passes over its conditions as there are conditions, each applying them in order; the first error stops everything |
| UtilsTraits.Pass | crates/spec-trait-utils/src/traits.rs:94-103 | one pass applies the conditions in order; an error ends it |
| UtilsTraits.WildcardNamesFresh | crates/spec-trait-utils/src/traits.rs:104-193 | the fresh names are distinct and unused |
| UtilsTraits.TypeAppliedGenerics | crates/spec-trait-utils/src/traits.rs:104-193 | the generic is removed and the fresh names are added on both sides |
| UtilsTraits.TypeAppliedItems | crates/spec-trait-utils/src/traits.rs:104-193 | the items no longer mention the generic |
| UtilsTraits.TraitAppliedBounds | crates/spec-trait-utils/src/traits.rs:194-208 | the traits are merged into the trait generic's bounds |
| UtilsTraits.TraitAppliedMissing | crates/spec-trait-utils/src/traits.rs:194-208 | a missing generic is the source's error |
| UtilsTraits.CorrespondingExample | crates/spec-trait-utils/src/traits.rs:265-274 | the positional mapping of the test trait |
| UtilsTraits.TraitConditionExample | crates/spec-trait-utils/src/traits.rs:277-288 | the source's trait-condition test |
| UtilsTraits.TypeConditionExample | crates/spec-trait-utils/src/traits.rs:291-309 | the source's type-condition test |
| UtilsTraits.WildcardConditionExample | crates/spec-trait-utils/src/traits.rs:312-335 | the source's wildcard test |
| UtilsTraits.AllConditionExample | crates/spec-trait-utils/src/traits.rs:338-363 | the source's `all` test |
| UtilsTraits.BreakAttr | crates/spec-trait-utils/src/traits.rs:254-259 | the attributes are split off and putting them back restores the item |
| UtilsLifetimes.FirstLifetime | crates/spec-trait-utils/src/lifetimes.rs:82-103 | the first lifetime bound, or none when there is none |
| UtilsLifetimes.ParseGenericsLifetimesEntries | crates/spec-trait-utils/src/lifetimes.rs:82-103 | one entry per type parameter, holding its first lifetime |
| UtilsLifetimes.LookupLifetime | crates/spec-trait-utils/src/lifetimes.rs:63-79 | the first entry's lifetime for a name |
| UtilsLifetimes.GetLifetimesAt | crates/spec-trait-utils/src/lifetimes.rs:63-79 | one lifetime per trait generic, found by name |
| UtilsLifetimes.FindConflict | crates/spec-trait-utils/src/lifetimes.rs:14-35 | a conflicting impl exactly when one exists |
| UtilsLifetimes.AssertConsistency | crates/spec-trait-utils/src/lifetimes.rs:14-35 | accepts exactly when no two impls of the same type and trait disagree on lifetimes |
| UtilsLifetimes.ConsistencyIgnoresOtherImpls | crates/spec-trait-utils/src/lifetimes.rs:14-35 | an impl of another type or trait cannot break consistency |
| UtilsLifetimes.AssertUniqueness | crates/spec-trait-utils/src/lifetimes.rs:38-60 | accepts exactly when no impl gives one lifetime to two generics |
| UtilsLifetimes.AssertConstraints | crates/spec-trait-utils/src/lifetimes.rs:8-11 | both checks, consistency first |
| UtilsLifetimes.ParseGenericsLifetimesExample | crates/spec-trait-utils/src/lifetimes.rs:111-126 | each type parameter gets its first lifetime bound, or none |
| UtilsLifetimes.GetLifetimesExample | crates/spec-trait-utils/src/lifetimes.rs:129-147 | trait generics, repeats included, get the lifetime of the impl parameter they name |
| UtilsLifetimes.ConsistencyReorderedAgrees | crates/spec-trait-utils/src/lifetimes.rs:170-187 | a different generic order is consistent |
| UtilsLifetimes.ConsistencyReorderedConflicts | crates/spec-trait-utils/src/lifetimes.rs:239-256 | a swapped order conflicts |
| UtilsLifetimes.ConsistencyConflictExample | crates/spec-trait-utils/src/lifetimes.rs:218-235 | the source's conflict test |
| UtilsLifetimes.ConsistencyOtherTypeOrTrait | crates/spec-trait-utils/src/lifetimes.rs:190-214 | other types or traits never conflict |
| UtilsLifetimes.UniquenessSharedExample | crates/spec-trait-utils/src/lifetimes.rs:270-277 | a shared lifetime is rejected |
| UtilsLifetimes.UniquenessDistinctExample | crates/spec-trait-utils/src/lifetimes.rs:259-266 | distinct lifetimes, `'static` among them, pass |
| UtilsLifetimes.UniquenessStaticExample | crates/spec-trait-utils/src/lifetimes.rs:281-288 | a shared `'static` is rejected |
| UtilsLifetimes.UniquenessIgnoresUnbound | crates/spec-trait-utils/src/lifetimes.rs:291-298 | generics without lifetimes are ignored |
| MacroAnnotations.Runs | crates/spec-trait-macro/src/annotations.rs:30-41 | one run per `;`-separated part, none holding a `;` |
| MacroAnnotations.RunsJoin | crates/spec-trait-macro/src/annotations.rs:30-41 | joining the runs gives back the tokens |
| MacroAnnotations.SegmentsAreRuns | crates/spec-trait-macro/src/annotations.rs:30-41 | the segments are the trimmed runs, with a trailing empty run dropped |
| MacroAnnotations.CutSegments | crates/spec-trait-macro/src/annotations.rs:27-41 | the loop over the tokens produces exactly the segments `Segments` |
| MacroAnnotations.ParseCall | crates/spec-trait-macro/src/annotations.rs:101-115 | fails exactly without `(` or without `.` before it; there is always at least one argument |
| MacroAnnotations.ParseCallRendered | crates/spec-trait-macro/src/annotations.rs:101-115 | parsing a rendered call gives back its parts |
| MacroAnnotations.ParseCallNoArgs | crates/spec-trait-macro/src/annotations.rs:101-115 | `v.f()` yields one empty argument |
| MacroAnnotations.ParseArgsTypes | crates/spec-trait-macro/src/annotations.rs:57-77 | succeeds exactly on a bracketed list without `:` or `=` in its entries; keeps the non-empty entries |
| MacroAnnotations.ParseArgsTypesRendered | crates/spec-trait-macro/src/annotations.rs:57-77 | parsing a rendered list gives it back |
| MacroAnnotations.ParseArgsTypesEmpty | crates/spec-trait-macro/src/annotations.rs:57-77 | `[]` gives no types |
| MacroAnnotations.NonEmptyKeeps | crates/spec-trait-macro/src/annotations.rs:57-77 | the filter keeps exactly the non-empty entries, and a list without empty entries unchanged |
| MacroAnnotations.FirstBad | crates/spec-trait-macro/src/annotations.rs:57-77 | an entry with `:` or `=` exists exactly when one is found, and the one found is such an entry |
| MacroAnnotations.ParseAnnotation | crates/spec-trait-macro/src/annotations.rs:117-129 | fails exactly without `:` and `=`; `:` gives a trait annotation and otherwise `=` an alias |
| MacroAnnotations.ParseTraitRendered | crates/spec-trait-macro/src/annotations.rs:117-129 | `T: A + B` round-trips |
| MacroAnnotations.ParseAliasRendered | crates/spec-trait-macro/src/annotations.rs:117-129 | `T = U` round-trips |
| MacroAnnotations.ParseSegments | crates/spec-trait-macro/src/annotations.rs:43-99 | no segment gives "Method call not found"; on success there are as many argument types as arguments |
| MacroAnnotations.ParseSegmentsOk | crates/spec-trait-macro/src/annotations.rs:43-99 | a success is built from the call, the variable type, the argument types and the annotations |
| MacroAnnotations.ParseSegmentsMissing | crates/spec-trait-macro/src/annotations.rs:46-49 | a call alone gives "Variable type not found" |
| MacroAnnotations.NoArgsCallRejected | crates/spec-trait-macro/src/annotations.rs:79-82 | a call without arguments and without argument types fails the count check |
| MacroAnnotations.ParseSegmentsRendered | crates/spec-trait-macro/src/annotations.rs:43-99 | a rendered annotation round-trips |
| MacroAnnotations.ParseSegmentsFrom | crates/spec-trait-macro/src/annotations.rs:43-99 | conversely, segments whose parts each parse, with as many argument types as arguments, give the body built from those parts |
| MacroAnnotations.ParseTokens | crates/spec-trait-macro/src/annotations.rs:26-99 | the loop cuts the tokens at `;` into the trimmed segments and the result is that of parsing those segments |
| MacroAnnotations.GetTypeAliases | crates/spec-trait-macro/src/annotations.rs:131-140 | exactly the aliases declared for the type |
| MacroAnnotations.GetTypeTraits | crates/spec-trait-macro/src/annotations.rs:142-152 | exactly the traits declared for the type |
| MacroAnnotations.GetTypeAliasesAppend | crates/spec-trait-macro/src/annotations.rs:131-140 | the alias lookup distributes over concatenation of the annotations |
| MacroAnnotations.GetTypeTraitsAppend | crates/spec-trait-macro/src/annotations.rs:142-152 | the trait lookup distributes over concatenation of the annotations |
| MacroVars.GetTypeAliases | crates/spec-trait-macro/src/vars.rs:33-43 | a type is a key exactly when it has aliases, and its entry lists them in order |
| MacroVars.GetTypeTraitsMembers | crates/spec-trait-macro/src/vars.rs:72-81 | a trait is listed exactly when an annotation for an equal type gives it |
| MacroVars.GetTypeTraitsAppend | crates/spec-trait-macro/src/vars.rs:72-81 | the lookup distributes over concatenation |
| MacroVars.GetTypeTraitsExact | crates/spec-trait-macro/src/vars.rs:72-81 | with plain equality the lookup is the annotation parser's |
| MacroVars.ZipVars | crates/spec-trait-macro/src/vars.rs:53-69 | as many records as the shorter list |
| MacroVars.ZipVarsCorrect | crates/spec-trait-macro/src/vars.rs:53-69 | fails exactly when a paired parameter has no impl generic; record `i` comes from pair `i` |
| MacroVars.GetVars | crates/spec-trait-macro/src/vars.rs:45-70 | a missing fn panics; at most one record per argument type |
| MacroVars.GetVarsCorrect | crates/spec-trait-macro/src/vars.rs:45-70 | each record names the impl generic, the concrete type and the traits of its pair; fails exactly on a missing correspondence |
| MacroVars.GetVarsArity | crates/spec-trait-macro/src/vars.rs:45-70 | one record per argument when the counts agree |
| ImplVars.AliasesOfMembers | spec-trait-impl/crates/spec-trait-macro/src/vars.rs:51-64 | exactly the aliases declared for the type |
| ImplVars.GetTypeAliases | spec-trait-impl/crates/spec-trait-macro/src/vars.rs:51-64 | a type is a key exactly when it has aliases, with its aliases in order |
| ImplVars.AliasesExample | spec-trait-impl/crates/spec-trait-macro/src/vars.rs:295-311 | aliases are grouped per type in annotation order; an unaliased type has none |
| ImplVars.ParamTypesSkipReceiver | spec-trait-impl/crates/spec-trait-macro/src/vars.rs:141-151 | the receiver contributes no type |
| ImplVars.ParamTypesExample | spec-trait-impl/crates/spec-trait-macro/src/vars.rs:313-318 | `(&self, x: T, y: u32)` gives `[T, u32]` |
| ImplVars.GetTypeTraitsMembers | spec-trait-impl/crates/spec-trait-macro/src/vars.rs:239-248 | a trait is listed exactly when an annotation for an assignable type gives it |
| ImplVars.GetTypeTraitsAppend | spec-trait-impl/crates/spec-trait-macro/src/vars.rs:239-248 | the lookup distributes over concatenation |
| ImplVars.AnnLifetimes | spec-trait-impl/crates/spec-trait-macro/src/vars.rs:251-287 | the annotated lifetimes hold no duplicates |
| ImplVars.AnnLifetimesMembers | spec-trait-impl/crates/spec-trait-macro/src/vars.rs:251-287 | exactly the lifetimes annotated for the type |
| ImplVars.GetConcreteTypeWithLifetimeCases | spec-trait-impl/crates/spec-trait-macro/src/vars.rs:251-287 | a non-reference or no lifetime leaves the type; one lifetime is placed on the reference; more than one panics |
| ImplVars.WithLifetimeCases | spec-trait-impl/crates/spec-trait-macro/src/vars.rs:251-287 | the same four cases, stated on the set of lifetimes in play |
| ImplVars.WithLifetimeMutExample | spec-trait-impl/crates/spec-trait-macro/src/vars.rs:266-281 | the lifetime is placed on the reference with its `mut` kept: `& 'a mut u8` |
| ImplVars.VarsOf | spec-trait-impl/crates/spec-trait-macro/src/vars.rs:198-205 | fails exactly when one binding's record does; otherwise one record per binding |
| ImplVars.CollectTraitBindings | spec-trait-impl/crates/spec-trait-macro/src/vars.rs:187-196 | the loop over the bound generics computes the binding set, panicking on a missing impl generic |
| ImplVars.FirstWhere | spec-trait-impl/crates/spec-trait-macro/src/vars.rs:164-175 | the first parameter that mentions the generic, or none |
| ImplVars.FromParam | spec-trait-impl/crates/spec-trait-macro/src/vars.rs:175-205 | every record from the trait side names its trait generic |
| ImplVars.FromTrait | spec-trait-impl/crates/spec-trait-macro/src/vars.rs:153-206 | every record names its trait generic; a missing fn panics |
| ImplVars.FromTraitUnused | spec-trait-impl/crates/spec-trait-macro/src/vars.rs:170-173 | a generic no parameter mentions gives no records |
| ImplVars.FromTraitFirstOnly | spec-trait-impl/crates/spec-trait-macro/src/vars.rs:175-176 | only the first mentioning parameter's argument type matters |
| ImplVars.FromType | spec-trait-impl/crates/spec-trait-macro/src/vars.rs:208-236 | a self type without the generic gives no records; records have no trait generic |
| ImplVars.Union | spec-trait-impl/crates/spec-trait-macro/src/vars.rs:94 | the chain of two record sets |
| ImplVars.VarsFor | spec-trait-impl/crates/spec-trait-macro/src/vars.rs:74-130 | an impl without a specialised copy panics |
| ImplVars.VarsOverCorrect | spec-trait-impl/crates/spec-trait-macro/src/vars.rs:72-131 | fails exactly when some generic does; otherwise the union of their records |
| ImplVars.ToVec | spec-trait-impl/crates/spec-trait-macro/src/vars.rs:131-133 | the set becomes a list without duplicates and with the same members |
| ImplVars.GetVars | spec-trait-impl/crates/spec-trait-macro/src/vars.rs:66-134 | fails exactly when the record set does; otherwise a duplicate-free list of it |
| MacroGenerics.FindTrait | crates/spec-trait-macro/src/generics.rs:5-45 | the first trait with the name, or none |
| MacroGenerics.GenericNamesShape | crates/spec-trait-macro/src/generics.rs:5-45 | one trimmed name per comma-separated piece |
| MacroGenerics.TypeFor | crates/spec-trait-macro/src/generics.rs:5-45 | the first fixed type of the generic, or `_` |
| MacroGenerics.TypesFor | crates/spec-trait-macro/src/generics.rs:5-45 | one type per generic, in order |
| MacroGenerics.GetForImpl | crates/spec-trait-macro/src/generics.rs:5-45 | fails exactly on an unknown trait; otherwise the bracketed list of types |
| MacroGenerics.GetForImplBracketed | crates/spec-trait-macro/src/generics.rs:5-45 | a successful result is always a bracketed list |
| MacroGenerics.GetForImplNoGenerics | crates/spec-trait-macro/src/generics.rs:5-45 | a trait without generics gives `<_>` |
| MacroGenerics.GenericNamesOfBracketed | crates/spec-trait-macro/src/generics.rs:5-45 | splitting a rendered list gives it back |
| MacroGenerics.TypesForExample | crates/spec-trait-macro/src/generics.rs:5-45 | the first type of `T` is used; `U` has none |
| MacroGenerics.GetForImplExample | crates/spec-trait-macro/src/generics.rs:5-45 | the whole chain on a two-trait example |
| ImplAliases.CollectAliasesFromTree | spec-trait-impl/crates/spec-trait-order/src/aliases.rs:19-51 | the walk adds exactly the tree's aliases |
| ImplAliases.CollectWhenAliases | spec-trait-impl/crates/spec-trait-order/src/aliases.rs:7-17 | the loop over the items computes their aliases |
| ImplAliases.OnlyUseItems | spec-trait-impl/crates/spec-trait-order/src/aliases.rs:7-17 | non-`use` items add nothing |
| ImplAliases.ItemsAliasesCommute | spec-trait-impl/crates/spec-trait-order/src/aliases.rs:7-17 | the order of the items does not matter |
| ImplAliases.ItemsAliasesAppend | spec-trait-impl/crates/spec-trait-order/src/aliases.rs:7-17 | the aliases of a file are the union of those of its parts |
| ImplAliases.PrefixSticks | spec-trait-impl/crates/spec-trait-order/src/aliases.rs:19-51 | once the path has passed the crate, further segments change nothing |
| ImplAliases.ItemsAliasesAreRenames | spec-trait-impl/crates/spec-trait-order/src/aliases.rs:7-51 | every alias of a file is `when` or a rename of it in one of its `use` items |
| ImplAliases.NoImportNoAliases | spec-trait-impl/crates/spec-trait-order/src/aliases.rs:7-51 | a file none of whose `use` items names the crate has no aliases |
| ImplAliases.OtherCrateNothing | spec-trait-impl/crates/spec-trait-order/src/aliases.rs:19-51 | a tree that never names the crate gives nothing |
| ImplAliases.AliasesAreRenames | spec-trait-impl/crates/spec-trait-order/src/aliases.rs:19-51 | every alias is `when` or one of its renames |
| ImplAliases.SimpleImport | spec-trait-impl/crates/spec-trait-order/src/aliases.rs:76-79 | a plain import gives `when` |
| ImplAliases.RenamedImport | spec-trait-impl/crates/spec-trait-order/src/aliases.rs:82-86 | a rename gives the new name |
| ImplAliases.GroupImport | spec-trait-impl/crates/spec-trait-order/src/aliases.rs:89-93 | a group gives its rename |
| ImplAliases.GlobImport | spec-trait-impl/crates/spec-trait-order/src/aliases.rs:96-99 | a glob gives `when` |
| ImplAliases.OtherPackageImport | spec-trait-impl/crates/spec-trait-order/src/aliases.rs:102-106 | another crate gives nothing |
| ImplAliases.IsWhenMacro | spec-trait-impl/crates/spec-trait-order/src/aliases.rs:53-65 | an empty path panics; a path whose last segment is an alias is recognised; otherwise a path is recognised exactly when it has more than one segment, starts at the crate and ends in `when`, so a bare `when` needs an import; a recognised path ends in `when` or an alias |
| ImplAliases.IsWhenMacroExamples | spec-trait-impl/crates/spec-trait-order/src/aliases.rs:108-135 | `when`, an alias and the full crate path are recognised; `when` under another crate is not, nor a bare `when` that was not imported |
| ImplAliases.OnlyWhenOrRename | spec-trait-impl/crates/spec-trait-order/src/aliases.rs:53-65 | any other last segment is not the attribute |
| ImplAliases.NoImportFullPathOnly | spec-trait-impl/crates/spec-trait-order/src/aliases.rs:53-65 | without an import, an empty path panics and a path is recognised exactly when it has more than one segment, starts at the crate and ends in `when`; a bare `when` is not |

## Left out

- `Ty` is a small tree of Rust types. A reference keeps its lifetime and whether it is `mut`;
  the rendering prints `mut`, and every matcher ignores it, as the source's do. Trait objects,
  fn pointers, `impl Trait`, qualified paths,
  const generics and macros in type position become the opaque leaf `Other(text)`. `syn`'s and
  `quote`'s parsing and printing are the parameter `parse` or the function `Syntax.Render`.
- HashMap and HashSet iteration order is not modelled. Maps are Dafny maps or lists in a given
  order. A result the source collects through a `HashSet` is a set or a duplicate-free list.
- Not modelled: the files that only convert, read or print:
  - `conversions.rs`, `impls.rs`, `body.rs`, `lib.rs` and `main.rs`;
  - the on-disk cache, `TokenStream` plumbing, `quote!` output and all I/O.
- The instrumentation crate under `spec-trait-inst/` is not modelled, because it records nothing.
- The `types.rs` of `spec-trait-impl/crates/spec-trait-utils/src/` is not part of this model.
  `ImplConstraints` and `ImplSpecialize` use the backup snapshot's helpers (`BackupTypes`) in
  its place, since their signatures match the calls.
- UtilsTypes.TypesEqualGenericConstraints: where `same_type` recurses forever, the model returns
  `None`; on every other input it returns what the source returns (Findings, row 1).
- BackupTypes.CanAssign: matches the backup snapshot except in three cases, each in Findings:
  - it rejects where `can_assign` recurses forever;
  - it treats `'_` as the wildcard lifetime;
  - it compares a bound lifetime with the concrete one.
  `TypeAssignable`, and through it `ImplConstraints` and `ImplSpecialize`, inherit these
  corrections.
- UtilsTraits.ApplyCondition: the item rewrite covers only fn parameter and return types. The
  source's `TypeReplacer` visits every type of every item: default bodies, associated types,
  consts, fn generics, where clauses, and types inside fn pointers or trait objects. It also
  revisits a replaced subtree, so it never finishes when the new type mentions the generic.
  `ReplaceOnce` assumes it does not. `apply_condition` has no caller in the snapshot, because
  its call site at crates/spec-trait-utils/src/traits.rs:85-88 is commented out.
- UtilsTraits.ReplaceInItem: same scope as `ApplyCondition`, fn signatures only.
- UtilsSpecialize.ReplaceAll: the `TypeReplacer` visitor
  (crates/spec-trait-utils/src/specialize.rs:67-72) is one replacement per type the target
  holds. Other parts of the item are not visited. The visitor also revisits the subtree it has
  just replaced. When the new type mentions the generic (`when(T = Vec<T>)`), every pass makes
  a new copy of the generic, so the source never finishes. The model returns one level of
  replacement there. When the new type does not mention the generic, the revisit changes
  nothing: no result mentions the generic (the second `ensures` of `ReplaceAll`), and
  `UtilsTypes.ReplaceType` leaves such a type as it is.
- UtilsSpecialize.ApplyTypeCondition: its `ensures` describe the source only when the new type
  does not mention the target's generic, or no type of the target mentions it. Otherwise the
  source never returns (see `UtilsSpecialize.ReplaceAll`).
- ImplSpecialize.ReplaceAllCorrect: the same visitor in
  spec-trait-impl/crates/spec-trait-utils/src/specialize.rs:80-85, with the same scope and the
  same non-termination when the new type mentions the generic. The model replaces one level.
- ImplSpecialize.ApplyTypeCondition: as `UtilsSpecialize.ApplyTypeCondition`, its `ensures`
  describe the source only when the new type does not mention the target's generic, or no
  type of the target mentions it.
- MacroSpec.SatisfiesCondition: `get_concrete_type` and `get_var_info_for_trait` are
  parameters.
- MacroSpec.GetMostSpecificImpl: `sort_by` is a stable insertion sort. `cmp_constraints` is not
  transitive, so Rust's `sort_by` may order some inputs differently. The model claims only
  that the choice is strictly greater than the candidate sorted before it.
- MacroVars.GetVars: three functions it calls are parameters (`Env`):
  - `types_equal`, called with three arguments where the utilities crate's takes four;
  - `ImplBody::get_corresponding_generic`, which the utilities crate does not define;
  - the type parser.
  `VarBody::from` is not modelled.
- ImplVars.GetVars: its `ensures` ties it to the record set `GetVarsSet`, not to the lines of
  `get_vars` directly. `VarsOverCorrect` describes that set generically.
- ImplVars.FromTrait: three operations are parameters (`Env`):
  - `type_assignable_generic_constraints` of this snapshot;
  - `ImplBody::get_corresponding_generic`;
  - the type parser.
- ImplVars.CollectTraitBindings: the keys of the bindings map are visited in an arbitrary order.
  The result is the same set whatever the order.
- UtilsConditions.Normalize and MacroConditions.Normalize: the source iterates until nothing
  changes. The model proves that one round of `to_dnf` already reaches the fixpoint.
- ImplConstraints.Compare: a comparison that panics is `None`, because the empty replacement
  type is not an identifier.

## Findings

| source | as written | input that shows it | evidently intended | confidence | as-written member | corrected member |
|---|---|---|---|---|---|---|
| crates/spec-trait-utils/src/types.rs:243-274 | a bound generic is checked by calling `same_type` on its binding with the same bindings, so a cycle `T := U, U := T` is followed forever | `types_equal_generic_constraints((T, U, T), (U, T, i32), {T, U})` | a cyclic binding rejects the match | not executed; high (proved for every recursion depth) | UtilsTypes.SameTypeAsWrittenDiverges | UtilsTypes.CycleRejected |
| spec-trait-impl.backup/crates/spec-trait-utils/src/types.rs:252-278 | a bound type generic re-enters `can_assign` against its binding, so `T := T` recurses forever | `can_assign((T, T), (T, T))` with `T` generic | the second `T` fails instead of looping | not executed; high (proved for every recursion depth) | BackupTypes.CanAssignAsWrittenDiverges | BackupTypes.CanAssignSelfBound |
| spec-trait-impl.backup/crates/spec-trait-utils/src/types.rs:280-301 | a bound lifetime is compared with the declared lifetime's own name (`d == &assigned`), not with the concrete lifetime | `(&'b u8, &'b u8)` against `(&'a u8, &'a u8)` with `'a` generic | the same concrete lifetime fits a second time | not executed; medium | BackupTypes.LifetimeRebindAsWritten | BackupTypes.LifetimeRebind |
| spec-trait-impl.backup/crates/spec-trait-utils/src/types.rs:280-301 | the wildcard lifetime is tested as `"_"`, which no rendered lifetime equals | `&'x u8` against `&'_ u8` | `'_` accepts any lifetime | not executed; medium | BackupTypes.WildcardLifetimeRejectedAsWritten | BackupTypes.WildcardLifetimeAccepted |
