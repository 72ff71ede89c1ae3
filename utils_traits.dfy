// crates/spec-trait-utils/src/traits.rs: the stored body of a specialisable trait, the search
// for one of its functions, the mapping from an impl's generics to the trait's, and the
// rewriting of the trait's generics and items under a `when` condition.

module UtilsTraits {
  import opened Wrappers
  import opened Syntax
  import opened FreshNames
  import Strings
  import UtilsTypes
  import UtilsParsing
  import C = UtilsConditions

  // ============================================================ the trait body

  /** `syn::FnArg`: `self` in any of its forms, or `pattern: Type`. */
  datatype FnArg = Receiver | Typed(ty: Ty)

  /** The signature of a trait function: its name, its inputs and its return type. */
  datatype Signature = Signature(name: string, inputs: seq<FnArg>, output: Option<Ty>)

  /** `syn::TraitItem`: a function, an associated type, or anything else (a const, a macro). */
  datatype TraitItem = FnItem(sig: Signature) | TypeItem(name: string) | OtherItem(text: string)

  /** `TraitBody`: the trait's name, its generics and its items, held parsed. */
  datatype TraitBody = TraitBody(name: string, generics: Generics, items: seq<TraitItem>)

  /** `syn::ItemTrait`: the attributes written on the trait, and the rest. */
  datatype ItemTrait = ItemTrait(attrs: seq<string>, body: TraitBody)

  // ============================================================ count_fn_args / get_param_types

  /** `count_fn_args(inputs)`: how many inputs are typed arguments; the receiver is not counted. */
  function CountFnArgs(inputs: seq<FnArg>): (r: nat)
    ensures r <= |inputs|
    ensures r == |inputs| <==> forall i :: 0 <= i < |inputs| ==> inputs[i].Typed?
  {
    if inputs == [] then 0
    else
      var init := inputs[..|inputs| - 1];
      assert forall i :: 0 <= i < |init| ==> init[i] == inputs[i];
      CountFnArgs(init) + (if inputs[|inputs| - 1].Typed? then 1 else 0)
  }

  /** `get_param_types(trait_fn)`: the rendered type of every typed argument, in order; there is
    * one for each argument `count_fn_args` counts. */
  function GetParamTypes(inputs: seq<FnArg>): (r: seq<string>)
    ensures |r| == CountFnArgs(inputs)
  {
    if inputs == [] then []
    else
      var last := inputs[|inputs| - 1];
      GetParamTypes(inputs[..|inputs| - 1]) + (if last.Typed? then [Render(last.ty)] else [])
  }

  /** The receiver gives no type, and a `&mut T` parameter keeps its `mut`. */
  lemma GetParamTypesMutExample()
    ensures GetParamTypes([Receiver, Typed(Ref(None, true, Named("T"))), Typed(Named("u8"))]) == ["& mut T", "u8"]
  {
    var inputs := [Receiver, Typed(Ref(None, true, Named("T"))), Typed(Named("u8"))];
    RenderNamed("T");
    RenderNamed("u8");
    assert Render(Ref(None, true, Named("T"))) == "& " + "mut " + "T" == "& mut T";
    assert [Receiver][..0] == [];
    assert GetParamTypes([Receiver]) == [];
    var two := inputs[..2];
    assert two == [Receiver, Typed(Ref(None, true, Named("T")))] && two[..1] == [Receiver];
    assert GetParamTypes(two) == ["& mut T"];
  }

  /** Both are taken argument by argument: a list of arguments counts and renders as its two
    * halves do, one after the other. */
  lemma {:induction false} ParamTypesAppend(a: seq<FnArg>, b: seq<FnArg>)
    ensures GetParamTypes(a + b) == GetParamTypes(a) + GetParamTypes(b)
    ensures CountFnArgs(a + b) == CountFnArgs(a) + CountFnArgs(b)
    decreases |b|
  {
    if b == [] {
      assert a + b == a;
    } else {
      var b' := b[..|b| - 1];
      assert (a + b)[..|a + b| - 1] == a + b';
      ParamTypesAppend(a, b');
    }
  }

  /** A single argument: the receiver gives nothing, a typed argument its rendered type. */
  lemma ParamTypesOne(x: FnArg)
    ensures GetParamTypes([x]) == (if x.Typed? then [Render(x.ty)] else [])
    ensures CountFnArgs([x]) == (if x.Typed? then 1 else 0)
  {
    assert [x][..0] == [];
  }

  // ============================================================ find_fn / specialize

  /** `item` is a function called `fnName` with `argsLen` typed arguments. */
  predicate IsFnWith(item: TraitItem, fnName: string, argsLen: nat) {
    item.FnItem? && item.sig.name == fnName && CountFnArgs(item.sig.inputs) == argsLen
  }

  function FnWith(fnName: string, argsLen: nat): TraitItem -> bool {
    item => IsFnWith(item, fnName, argsLen)
  }

  /** `find_fn(fn_name, args_len)`: the signature of a function item with that name and that many
    * typed arguments, or `None` when the trait has none. */
  function FindFn(body: TraitBody, fnName: string, argsLen: nat): (r: Option<Signature>)
    ensures r.None? <==> forall i :: 0 <= i < |body.items| ==> !IsFnWith(body.items[i], fnName, argsLen)
    ensures r.Some? ==> r.value.name == fnName && CountFnArgs(r.value.inputs) == argsLen
    ensures r.Some? ==> FnItem(r.value) in body.items
  {
    match Find(body.items, FnWith(fnName, argsLen))
    case None => None
    case Some(item) => Some(item.sig)
  }

  /** It is the first such function in the trait. */
  lemma FindFnFirst(body: TraitBody, fnName: string, argsLen: nat, i: nat)
    requires i < |body.items| && IsFnWith(body.items[i], fnName, argsLen)
    requires forall j :: 0 <= j < i ==> !IsFnWith(body.items[j], fnName, argsLen)
    ensures FindFn(body, fnName, argsLen) == Some(body.items[i].sig)
  {
    FindFirst(body.items, FnWith(fnName, argsLen), i);
  }

  /** `specialize(impl_body)`: a copy of the trait under the impl's specialised trait name; the
    * generics and the items are the trait's own. */
  function Specialize(body: TraitBody, specTraitName: string): (r: TraitBody)
    ensures r.name == specTraitName && r.(name := body.name) == body
  {
    body.(name := specTraitName)
  }

  // ============================================================ get_corresponding_generic

  /** Index `i` holds the first type parameter called `name`. */
  predicate IsFirstTypeParam(ps: seq<GenericParam>, name: string, i: int) {
    0 <= i < |ps| && IsTypeParamNamed(ps[i], name) &&
    forall j :: 0 <= j < i ==> !IsTypeParamNamed(ps[j], name)
  }

  /** `get_corresponding_generic(impl_generics, impl_generic)`: the trait's type parameter at the
    * position of the impl's type parameter `implGeneric`; `None` when the impl has no such
    * parameter or the trait has no type parameter at that position. */
  function GetCorrespondingGeneric(body: TraitBody, implGenerics: Generics, implGeneric: string): (r: Option<string>)
    ensures r.Some? <==> exists i :: IsFirstTypeParam(implGenerics.params, implGeneric, i) &&
                                    i < |body.generics.params| && body.generics.params[i].TypeParam?
    ensures forall i :: IsFirstTypeParam(implGenerics.params, implGeneric, i) &&
                        i < |body.generics.params| && body.generics.params[i].TypeParam? ==>
                        r == Some(body.generics.params[i].name)
  {
    var ps := body.generics.params;
    match UtilsParsing.FindParam(implGenerics.params, false, implGeneric, 0)
    case None => None
    case Some(i) =>
      assert IsFirstTypeParam(implGenerics.params, implGeneric, i);
      if i < |ps| && ps[i].TypeParam? then Some(ps[i].name) else None
  }

  /** The trait generic a condition on `implGeneric` is about: the corresponding one, or the
    * name itself (`unwrap_or_else`). */
  function TraitGeneric(s: State, implGeneric: string): string {
    match GetCorrespondingGeneric(s.body, s.implGenerics, implGeneric)
    case Some(t) => t
    case None => implGeneric
  }

  // ============================================================ apply_condition: the state

  /** What `apply_condition` changes: the trait body (`&mut self`) and the generics of the impl's
    * trait reference (`&mut Generics`). */
  datatype State = State(body: TraitBody, implGenerics: Generics)

  /** The `filter` that drops every type parameter called `name` and keeps the rest in order. */
  function RemoveTypeParam(ps: seq<GenericParam>, name: string): (r: seq<GenericParam>)
    ensures |r| <= |ps|
  {
    if ps == [] then []
    else
      var last := ps[|ps| - 1];
      RemoveTypeParam(ps[..|ps| - 1], name) + (if IsTypeParamNamed(last, name) then [] else [last])
  }

  /** What is kept is exactly what is not a type parameter called `name`; a list without one
    * is kept whole. */
  lemma {:induction false} RemoveTypeParamMembers(ps: seq<GenericParam>, name: string)
    ensures forall p :: p in RemoveTypeParam(ps, name) <==> p in ps && !IsTypeParamNamed(p, name)
    ensures (forall i :: 0 <= i < |ps| ==> !IsTypeParamNamed(ps[i], name)) ==> RemoveTypeParam(ps, name) == ps
    decreases |ps|
  {
    if ps != [] {
      var init, last := ps[..|ps| - 1], ps[|ps| - 1];
      assert ps == init + [last];
      assert forall i :: 0 <= i < |init| ==> init[i] == ps[i];
      RemoveTypeParamMembers(init, name);
    }
  }

  /** Order is kept: removing from a list is removing from its two halves. */
  lemma {:induction false} RemoveTypeParamAppend(a: seq<GenericParam>, b: seq<GenericParam>, name: string)
    ensures RemoveTypeParam(a + b, name) == RemoveTypeParam(a, name) + RemoveTypeParam(b, name)
    decreases |b|
  {
    if b == [] {
      assert a + b == a;
      assert RemoveTypeParam(b, name) == [];
      assert RemoveTypeParam(a, name) + [] == RemoveTypeParam(a, name);
    } else {
      var b', last := b[..|b| - 1], b[|b| - 1];
      var tail := if IsTypeParamNamed(last, name) then [] else [last];
      assert (a + b)[..|a + b| - 1] == a + b' && (a + b)[|a + b| - 1] == last;
      assert RemoveTypeParam(a + b, name) == RemoveTypeParam(a + b', name) + tail;
      assert RemoveTypeParam(b, name) == RemoveTypeParam(b', name) + tail;
      RemoveTypeParamAppend(a, b', name);
      var ra, rb' := RemoveTypeParam(a, name), RemoveTypeParam(b', name);
      assert (ra + rb') + tail == ra + (rb' + tail);
    }
  }

  /** The names of the type parameters, as the `HashSet` `replace_infers` starts from. */
  function TypeParamSet(ps: seq<GenericParam>): (r: set<string>)
    ensures forall n :: n in r <==> n in TypeParamNames(ps)
  {
    set n | n in TypeParamNames(ps)
  }

  /** One parameter per new name, without bounds, in order. */
  function Unbounded(names: seq<string>): (r: seq<GenericParam>)
    ensures |r| == |names| && forall i :: 0 <= i < |names| ==> r[i] == TypeParam(names[i], [])
  {
    seq(|names|, i requires 0 <= i < |names| => TypeParam(names[i], []))
  }

  /** The trait generic is mentioned by a typed argument or the return type of a function. */
  predicate ItemMentions(item: TraitItem, g: string) {
    item.FnItem? &&
    ((exists i :: 0 <= i < |item.sig.inputs| && item.sig.inputs[i].Typed? && UtilsTypes.Mentions(item.sig.inputs[i].ty, g)) ||
     (item.sig.output.Some? && UtilsTypes.Mentions(item.sig.output.value, g)))
  }

  function ReplaceInArg(a: FnArg, g: string, ty: Ty): (r: FnArg)
    ensures r.Typed? == a.Typed?
    ensures a.Typed? && !UtilsTypes.Mentions(a.ty, g) ==> r == a
    ensures a.Typed? && !UtilsTypes.Mentions(ty, g) ==> !UtilsTypes.Mentions(r.ty, g)
  {
    if a.Typed? then Typed(UtilsTypes.ReplaceType(a.ty, g, ty)) else a
  }

  /** What the `TypeReplacer` visitor does to one item: `replace_type` on each type of a function
    * signature; other items are kept. */
  function ReplaceInItem(item: TraitItem, g: string, ty: Ty): (r: TraitItem)
    ensures !ItemMentions(item, g) ==> r == item
    ensures !UtilsTypes.Mentions(ty, g) ==> !ItemMentions(r, g)
  {
    match item
    case FnItem(Signature(name, inputs, output)) =>
      var inputs' := seq(|inputs|, i requires 0 <= i < |inputs| => ReplaceInArg(inputs[i], g, ty));
      var output' := if output.Some? then Some(UtilsTypes.ReplaceType(output.value, g, ty)) else None;
      assert !ItemMentions(item, g) ==> inputs' == inputs;
      FnItem(Signature(name, inputs', output'))
    case _ => item
  }

  function ReplaceInItems(items: seq<TraitItem>, g: string, ty: Ty): (r: seq<TraitItem>)
    ensures |r| == |items| && forall i :: 0 <= i < |items| ==> r[i] == ReplaceInItem(items[i], g, ty)
  {
    seq(|items|, i requires 0 <= i < |items| => ReplaceInItem(items[i], g, ty))
  }

  // ============================================================ apply_condition: one step

  /** The names `replace_infers` gives the `n` wildcards of a condition type, starting from the
    * taken names `taken` and counter 0: fresh, distinct, and `__W0`, `__W1`, … when none of
    * those is taken. */
  ghost predicate WildcardNames(taken: set<string>, n: nat, names: seq<string>) {
    exists s1: Namer :: Extends(UtilsParsing.W, Namer(taken, 0, []), s1, n) && s1.newGenerics == names
  }

  /** The names the wildcards must avoid: the trait's type parameters once `tg` is removed. */
  function TakenAfter(s: State, tg: string): set<string> {
    TypeParamSet(RemoveTypeParam(s.body.generics.params, tg))
  }

  /** A `Type(implGeneric, ty)` condition with the wildcards of `ty` named `names`: the trait
    * generic leaves the trait's generics and `implGeneric` the impl's; the new names are
    * appended to both, unbounded; every mention of the trait generic in the items becomes the
    * filled-in type. */
  function TypeApplied(s: State, implGeneric: string, ty: Ty, names: seq<string>): State
    requires |names| == InferCount(ty)
  {
    var tg := TraitGeneric(s, implGeneric);
    var newTy := FillInfers(ty, names);
    var gens := s.body.generics;
    State(s.body.(generics := gens.(params := RemoveTypeParam(gens.params, tg) + Unbounded(names)),
                  items := ReplaceInItems(s.body.items, tg, newTy)),
          s.implGenerics.(params := RemoveTypeParam(s.implGenerics.params, implGeneric) + Unbounded(names)))
  }

  function TraitBounds(traits: seq<string>): (r: seq<Bound>)
    ensures |r| == |traits| && forall i :: 0 <= i < |traits| ==> r[i] == TraitBound(traits[i])
  {
    seq(|traits|, i requires 0 <= i < |traits| => TraitBound(traits[i]))
  }

  /** The where predicate `generic: Trait1 + Trait2` a trait condition stands for. */
  function TraitPredicate(generic: string, traits: seq<string>): WherePredicate {
    TypePredicate(Named(generic), TraitBounds(traits))
  }

  /** A `Trait(implGeneric, traits)` condition: `handle_type_predicate` with the trait generic
    * and the traits; it panics when the trait has no type parameter of that name. */
  function TraitApplied(s: State, implGeneric: string, traits: seq<string>): Result<State> {
    var tg := TraitGeneric(s, implGeneric);
    match UtilsParsing.ApplyOne(s.body.generics.params, TraitPredicate(tg, traits))
    case Err(e) => Err(e)
    case Ok(ps) => Ok(s.(body := s.body.(generics := s.body.generics.(params := ps))))
  }

  // ============================================================ apply_condition: the relation

  /** `apply_condition(impl_trait_generics, condition)` may turn `s` into `r`: a type or trait
    * condition is one step; `All(conds)` passes over `conds`, in order, `|conds|` times so that
    * chained conditions resolve; `Any` and `Not` change nothing. A panic is `Err`. */
  ghost predicate Applied(s: State, c: C.WhenCondition, r: Result<State>)
    decreases c, 3
  {
    match c
    case Type(g, ty) =>
      exists names :: WildcardNames(TakenAfter(s, TraitGeneric(s, g)), InferCount(ty), names) &&
                      |names| == InferCount(ty) && r == Ok(TypeApplied(s, g, ty, names))
    case Trait(g, traits) => r == TraitApplied(s, g, traits)
    case All(conds) => Rounds(s, c, |conds|, r)
    case Any(_) => r == Ok(s)
    case Not(_) => r == Ok(s)
  }

  /** `k` passes of an `All`; a panic stops everything. */
  ghost predicate Rounds(s: State, c: C.WhenCondition, k: nat, r: Result<State>)
    requires c.All?
    decreases c, 2, k
  {
    if k == 0 then r == Ok(s)
    else exists m {:trigger Rounds(s, c, k - 1, m)} :: Rounds(s, c, k - 1, m) && (m.Err? ==> r == m) && (m.Ok? ==> Each(m.value, c, |c.conds|, r))
  }

  /** The first `i` conditions of an `All`, applied in order. */
  ghost predicate Each(s: State, c: C.WhenCondition, i: nat, r: Result<State>)
    requires c.All? && i <= |c.conds|
    decreases c, 1, i
  {
    if i == 0 then r == Ok(s)
    else exists m {:trigger Each(s, c, i - 1, m)} :: Each(s, c, i - 1, m) && (m.Err? ==> r == m) && (m.Ok? ==> Applied(m.value, c.conds[i - 1], r))
  }

  lemma EachStep(s: State, c: C.WhenCondition, i: nat, cur: State, r: Result<State>)
    requires c.All? && i < |c.conds|
    requires Each(s, c, i, Ok(cur)) && Applied(cur, c.conds[i], r)
    ensures Each(s, c, i + 1, r)
  {
    var m := Ok(cur);
    assert Each(s, c, i, m);
  }

  /** A panic inside a pass ends the pass with that panic. */
  lemma {:induction false} EachErr(s: State, c: C.WhenCondition, i: nat, r: Result<State>)
    requires c.All? && i <= |c.conds| && Each(s, c, i, r)
    ensures r.Err? ==> Each(s, c, |c.conds|, r)
    decreases |c.conds| - i
  {
    if i < |c.conds| && r.Err? {
      EachErrStep(s, c, i, r.msg);
      EachErr(s, c, i + 1, r);
    }
  }

  lemma EachErrStep(s: State, c: C.WhenCondition, i: nat, e: string)
    requires c.All? && i < |c.conds| && Each(s, c, i, Err(e))
    ensures Each(s, c, i + 1, Err(e))
  {
    var m: Result<State> := Err(e);
    assert Each(s, c, i, m) && m.Err? && Err(e) == m;
  }

  lemma RoundsStep(s: State, c: C.WhenCondition, k: nat, cur: State, r: Result<State>)
    requires c.All? && Rounds(s, c, k, Ok(cur)) && Each(cur, c, |c.conds|, r)
    ensures Rounds(s, c, k + 1, r)
  {
    var m := Ok(cur);
    assert Rounds(s, c, k, m);
  }

  /** A panic in one pass is the outcome of all of them. */
  lemma {:induction false} RoundsErr(s: State, c: C.WhenCondition, k: nat, n: nat, r: Result<State>)
    requires c.All? && k <= n && Rounds(s, c, k, r)
    ensures r.Err? ==> Rounds(s, c, n, r)
    decreases n - k
  {
    if k < n && r.Err? {
      RoundsErrStep(s, c, k, r.msg);
      RoundsErr(s, c, k + 1, n, r);
    }
  }

  lemma RoundsErrStep(s: State, c: C.WhenCondition, k: nat, e: string)
    requires c.All? && Rounds(s, c, k, Err(e))
    ensures Rounds(s, c, k + 1, Err(e))
  {
    var m: Result<State> := Err(e);
    assert Rounds(s, c, k, m) && m.Err? && Err(e) == m;
  }

  /** A type condition, once its wildcards are named, is one step of the relation. */
  lemma TypeStep(s: State, implGeneric: string, ty: Ty, names: seq<string>)
    requires |names| == InferCount(ty)
    requires WildcardNames(TakenAfter(s, TraitGeneric(s, implGeneric)), InferCount(ty), names)
    ensures Applied(s, C.Type(implGeneric, ty), Ok(TypeApplied(s, implGeneric, ty, names)))
  {
  }

  // ============================================================ apply_condition: the code

  /** The `for ident in new_generics` loop: each new name is pushed, unbounded, onto a list. */
  method PushGenerics(params: seq<GenericParam>, names: seq<string>) returns (r: seq<GenericParam>)
    ensures r == params + Unbounded(names)
  {
    r := params;
    for i := 0 to |names|
      invariant r == params + Unbounded(names[..i])
    {
      var param := TypeParam(names[i], []);
      assert Unbounded(names[..i + 1]) == Unbounded(names[..i]) + [param];
      r := r + [param];
    }
    assert names[..|names|] == names;
  }

  /** The `for mut item in items` loop: the `TypeReplacer` visits each item in turn. */
  method ReplaceItems(items: seq<TraitItem>, g: string, ty: Ty) returns (r: seq<TraitItem>)
    ensures r == ReplaceInItems(items, g, ty)
  {
    r := [];
    for j := 0 to |items|
      invariant |r| == j
      invariant forall k :: 0 <= k < j ==> r[k] == ReplaceInItem(items[k], g, ty)
    {
      r := r + [ReplaceInItem(items[j], g, ty)];
    }
  }

  /** The `Type` arm: remove the generic from both lists, name the wildcards, push the new
    * generics onto both lists, and rewrite every item. */
  method ApplyType(s: State, implGeneric: string, ty: Ty) returns (r: State, ghost names: seq<string>)
    ensures WildcardNames(TakenAfter(s, TraitGeneric(s, implGeneric)), InferCount(ty), names)
    ensures |names| == InferCount(ty) && r == TypeApplied(s, implGeneric, ty, names)
  {
    var tg := TraitGeneric(s, implGeneric);
    var generics := RemoveTypeParam(s.body.generics.params, tg);
    var implParams := RemoveTypeParam(s.implGenerics.params, implGeneric);
    var start := Namer(TypeParamSet(generics), 0, []);
    var newTy, namer := UtilsParsing.ReplaceInfers(ty, start);
    assert Added(start, namer) == namer.newGenerics;
    names := namer.newGenerics;
    var gens := PushGenerics(generics, namer.newGenerics);
    var igs := PushGenerics(implParams, namer.newGenerics);
    var items := ReplaceItems(s.body.items, tg, newTy);
    r := State(s.body.(generics := s.body.generics.(params := gens), items := items),
               s.implGenerics.(params := igs));
  }

  /** The `Trait` arm: the bounds of `trait_generic: traits` are merged into the trait's
    * generics. */
  method ApplyTrait(s: State, implGeneric: string, traits: seq<string>) returns (r: Result<State>)
    ensures r == TraitApplied(s, implGeneric, traits)
  {
    var tg := TraitGeneric(s, implGeneric);
    var pred := TraitPredicate(tg, traits);
    var generics := UtilsParsing.HandleTypePredicate(pred.bounded, pred.bounds, s.body.generics);
    if generics.Err? {
      return Err(generics.msg);
    }
    r := Ok(s.(body := s.body.(generics := generics.value)));
  }

  /** `apply_condition(impl_trait_generics, condition)`. */
  method ApplyCondition(s: State, c: C.WhenCondition) returns (r: Result<State>)
    ensures Applied(s, c, r)
    decreases c, 3
  {
    match c {
      case Type(g, ty) =>
        var next, names := ApplyType(s, g, ty);
        TypeStep(s, g, ty, names);
        r := Ok(next);
      case Trait(g, traits) =>
        r := ApplyTrait(s, g, traits);
      case All(conds) =>
        r := ApplyAll(s, c);
      case Any(_) =>
        r := Ok(s);
      case Not(_) =>
        r := Ok(s);
    }
  }

  /** The `All` arm: `|conds|` passes over the conditions; a panic ends it. */
  method ApplyAll(s: State, c: C.WhenCondition) returns (r: Result<State>)
    requires c.All?
    ensures Rounds(s, c, |c.conds|, r)
    decreases c, 2
  {
    r := Ok(s);
    var k := 0;
    // pass multiple times to handle chained dependencies
    while k < |c.conds| && r.Ok?
      invariant k <= |c.conds| && Rounds(s, c, k, r)
    {
      var next := Pass(r.value, c);
      RoundsStep(s, c, k, r.value, next);
      r, k := next, k + 1;
    }
    RoundsErr(s, c, k, |c.conds|, r);
  }

  /** One pass of the `All` arm: each condition in order; a panic ends it. */
  method Pass(s: State, c: C.WhenCondition) returns (r: Result<State>)
    requires c.All?
    ensures Each(s, c, |c.conds|, r)
    decreases c, 1
  {
    r := Ok(s);
    var i := 0;
    while i < |c.conds| && r.Ok?
      invariant i <= |c.conds| && Each(s, c, i, r)
    {
      r := PassStep(s, c, i, r.value);
      i := i + 1;
    }
    EachErr(s, c, i, r);
  }

  /** `self.apply_condition(impl_trait_generics, c)` for the `i`-th condition of a pass. */
  method PassStep(s: State, c: C.WhenCondition, i: nat, cur: State) returns (next: Result<State>)
    requires c.All? && i < |c.conds| && Each(s, c, i, Ok(cur))
    ensures Each(s, c, i + 1, next)
    decreases c, 0
  {
    next := ApplyCondition(cur, c.conds[i]);
    EachStep(s, c, i, cur, next);
  }

  // ============================================================ apply_condition: properties

  /** The wildcard names are as many as the wildcards, distinct and not taken; when no `__W{k}`
    * is taken they are `__W0`, `__W1`, … in order. */
  lemma WildcardNamesFresh(taken: set<string>, n: nat, names: seq<string>)
    requires WildcardNames(taken, n, names)
    ensures |names| == n && Strings.NoDuplicates(names)
    ensures forall i :: 0 <= i < |names| ==> names[i] !in taken
    ensures Clean(UtilsParsing.W, Namer(taken, 0, [])) ==> names == Names(UtilsParsing.W, 0, n)
  {
    var s0 := Namer(taken, 0, []);
    var s1 :| Extends(UtilsParsing.W, s0, s1, n) && s1.newGenerics == names;
    assert Added(s0, s1) == names;
  }

  /** The filter, then the pushes: `name` is gone unless a new name is `name`, every other
    * parameter is kept, and each new name is an unbounded parameter. */
  lemma SwapParams(ps: seq<GenericParam>, name: string, names: seq<string>)
    ensures var qs := RemoveTypeParam(ps, name) + Unbounded(names);
      (name !in names ==> name !in TypeParamNames(qs)) &&
      (forall p :: p in ps && !IsTypeParamNamed(p, name) ==> p in qs) &&
      (forall i :: 0 <= i < |names| ==> TypeParam(names[i], []) in qs)
  {
    var kept := RemoveTypeParam(ps, name);
    var extra := Unbounded(names);
    var qs := kept + extra;
    RemoveTypeParamMembers(ps, name);
    if name !in names {
      forall i | 0 <= i < |qs| ensures !IsTypeParamNamed(qs[i], name) {
        if i < |kept| {
          assert qs[i] in kept;
        } else {
          assert qs[i] == extra[i - |kept|];
        }
      }
    }
    forall i | 0 <= i < |names| ensures TypeParam(names[i], []) in qs {
      assert qs[|kept| + i] == extra[i];
    }
  }

  /** A type condition takes the trait generic out of the trait's type parameters and the impl
    * generic out of the impl's (unless a wildcard was given the same name), keeps every other
    * parameter, and adds one unbounded parameter per wildcard to both. */
  lemma TypeAppliedGenerics(s: State, implGeneric: string, ty: Ty, names: seq<string>)
    requires |names| == InferCount(ty)
    ensures var tg := TraitGeneric(s, implGeneric);
      var r := TypeApplied(s, implGeneric, ty, names);
      (tg !in names ==> tg !in TypeParamNames(r.body.generics.params)) &&
      (implGeneric !in names ==> implGeneric !in TypeParamNames(r.implGenerics.params)) &&
      (forall p :: p in s.body.generics.params && !IsTypeParamNamed(p, tg) ==> p in r.body.generics.params) &&
      (forall p :: p in s.implGenerics.params && !IsTypeParamNamed(p, implGeneric) ==> p in r.implGenerics.params) &&
      (forall i :: 0 <= i < |names| ==> TypeParam(names[i], []) in r.body.generics.params &&
                                        TypeParam(names[i], []) in r.implGenerics.params)
  {
    var tg := TraitGeneric(s, implGeneric);
    var r := TypeApplied(s, implGeneric, ty, names);
    assert r.body.generics.params == RemoveTypeParam(s.body.generics.params, tg) + Unbounded(names);
    assert r.implGenerics.params == RemoveTypeParam(s.implGenerics.params, implGeneric) + Unbounded(names);
    SwapParams(s.body.generics.params, tg, names);
    SwapParams(s.implGenerics.params, implGeneric, names);
  }

  /** Every item keeps its place; once the filled-in type does not mention the trait generic,
    * no item does; an item that did not mention it is unchanged. */
  lemma TypeAppliedItems(s: State, implGeneric: string, ty: Ty, names: seq<string>)
    requires |names| == InferCount(ty)
    ensures var tg := TraitGeneric(s, implGeneric);
      var items := TypeApplied(s, implGeneric, ty, names).body.items;
      |items| == |s.body.items| &&
      (!UtilsTypes.Mentions(FillInfers(ty, names), tg) ==> forall i :: 0 <= i < |items| ==> !ItemMentions(items[i], tg)) &&
      (forall i :: 0 <= i < |items| && !ItemMentions(s.body.items[i], tg) ==> items[i] == s.body.items[i])
  {
  }

  /** The `TypeReplacer` calls `replace_type` again inside what it has just replaced; when the
    * new type does not mention the generic that finds nothing more, so one replacement per item
    * is the whole rewrite. */
  lemma ReplaceOnce(items: seq<TraitItem>, g: string, ty: Ty)
    requires !UtilsTypes.Mentions(ty, g)
    ensures ReplaceInItems(ReplaceInItems(items, g, ty), g, ty) == ReplaceInItems(items, g, ty)
  {
  }

  /** A trait condition on a declared type parameter merges the traits into that parameter's
    * bounds: old bounds first, each trait once, nothing duplicated; every other parameter and
    * the impl's generics are unchanged. */
  lemma TraitAppliedBounds(s: State, implGeneric: string, traits: seq<string>, i: nat)
    requires IsFirstTypeParam(s.body.generics.params, TraitGeneric(s, implGeneric), i)
    ensures var ps := s.body.generics.params;
      var r := TraitApplied(s, implGeneric, traits);
      r.Ok? && r.value.implGenerics == s.implGenerics && |r.value.body.generics.params| == |ps| &&
      (forall j :: 0 <= j < |ps| && j != i ==> r.value.body.generics.params[j] == ps[j]) &&
      r.value.body.generics.params[i] == TypeParam(ps[i].name, UtilsParsing.AddNew(ps[i].bounds, TraitBounds(traits))) &&
      ps[i].bounds <= r.value.body.generics.params[i].bounds &&
      (forall t :: t in traits ==> TraitBound(t) in r.value.body.generics.params[i].bounds) &&
      (Strings.NoDuplicates(ps[i].bounds) ==> Strings.NoDuplicates(r.value.body.generics.params[i].bounds))
  {
    var ps := s.body.generics.params;
    var tg := TraitGeneric(s, implGeneric);
    var pred := TraitPredicate(tg, traits);
    assert UtilsParsing.Target(pred) == Ok((false, tg));
    var found := UtilsParsing.FindParam(ps, false, tg, 0);
    assert found == Some(i) by {
      if found != Some(i) {
        assert UtilsParsing.Binds(ps[i], false, tg);
      }
    }
    var bounds := TraitBounds(traits);
    UtilsParsing.AddNewKeeps(ps[i].bounds, bounds);
    if Strings.NoDuplicates(ps[i].bounds) {
      UtilsParsing.AddNewNoDuplicates(ps[i].bounds, bounds);
    }
    forall t | t in traits ensures TraitBound(t) in bounds {
      var k :| 0 <= k < |traits| && traits[k] == t;
      assert bounds[k] == TraitBound(t);
    }
  }

  /** A trait condition on a name the trait does not declare as a type parameter panics. */
  lemma TraitAppliedMissing(s: State, implGeneric: string, traits: seq<string>)
    requires TraitGeneric(s, implGeneric) !in TypeParamNames(s.body.generics.params)
    ensures TraitApplied(s, implGeneric, traits) == Err("Type parameter not found in generics")
  {
    var tg := TraitGeneric(s, implGeneric);
    assert UtilsParsing.Target(TraitPredicate(tg, traits)) == Ok((false, tg));
    assert UtilsParsing.FindParam(s.body.generics.params, false, tg, 0).None?;
  }

  // ============================================================ apply_condition: the tests

  /** `Vec<t>`. */
  function VecOf(t: Ty): Ty {
    Path([Segment("Vec", Angle([TypeArg(t)]))])
  }

  /** `fn foo(&self, arg1: Vec<t>, arg2: U) -> t;` */
  function FooFn(t: Ty): TraitItem {
    FnItem(Signature("foo", [Receiver, Typed(VecOf(t)), Typed(Named("U"))], Some(t)))
  }

  /** `trait Foo<T: Clone, U: Copy> { type Bar; fn foo(&self, arg1: Vec<T>, arg2: U) -> T; }`
    * with the impl's trait generics `<T, A>`. */
  function FooState(): State {
    State(TraitBody("Foo", Generics([TypeParam("T", [TraitBound("Clone")]), TypeParam("U", [TraitBound("Copy")])], []),
                    [TypeItem("Bar"), FooFn(Named("T"))]),
          Generics([TypeParam("T", []), TypeParam("A", [])], []))
  }

  /** The trait generics at the positions of the impl's: `T` is `T`, `A` is `U`, `B` has none. */
  lemma CorrespondingExample()
    ensures GetCorrespondingGeneric(FooState().body, FooState().implGenerics, "T") == Some("T")
    ensures GetCorrespondingGeneric(FooState().body, FooState().implGenerics, "A") == Some("U")
    ensures GetCorrespondingGeneric(FooState().body, FooState().implGenerics, "B") == None
  {
    var ps := FooState().implGenerics.params;
    assert IsFirstTypeParam(ps, "T", 0);
    assert IsFirstTypeParam(ps, "A", 1);
    assert forall i :: IsFirstTypeParam(ps, "B", i) ==> ps[i].name == "B";
  }

  /** A one-argument list has the wildcards of its argument. */
  lemma FillOneArg(arg: GenericArg, names: seq<string>)
    requires |names| == InferCountArg(arg)
    ensures InferCountArgs([arg]) == |names| && FillInfersArgs([arg], names) == [FillInfersArg(arg, names)]
  {
    assert [arg][..0] == [];
  }

  /** A one-segment path has the wildcards of its segment. */
  lemma FillOneSeg(seg: Segment, names: seq<string>)
    requires |names| == InferCountSeg(seg)
    ensures InferCountSegs([seg]) == |names| && FillInfersSegs([seg], names) == [FillInfersSeg(seg, names)]
  {
    assert [seg][..0] == [];
  }

  /** `Vec<t>` has the wildcards of `t`, filled in place. */
  lemma FillVec(t: Ty, names: seq<string>)
    requires |names| == InferCount(t)
    ensures InferCount(VecOf(t)) == InferCount(t) && FillInfers(VecOf(t), names) == VecOf(FillInfers(t, names))
  {
    FillOneArg(TypeArg(t), names);
    FillOneSeg(Segment("Vec", Angle([TypeArg(t)])), names);
  }

  /** A condition on the impl's `T` is about the trait's `T`. */
  lemma TraitGenericFooT()
    ensures TraitGeneric(FooState(), "T") == "T"
  {
    CorrespondingExample();
  }

  /** Merging `Copy + Clone` into `Clone` appends `Copy` only. */
  lemma MergeCopyClone()
    ensures UtilsParsing.AddNew([TraitBound("Clone")], TraitBounds(["Copy", "Clone"])) == [TraitBound("Clone"), TraitBound("Copy")]
  {
    var clone, copy := TraitBound("Clone"), TraitBound("Copy");
    var bounds := TraitBounds(["Copy", "Clone"]);
    assert bounds == [copy, clone];
    assert UtilsParsing.AddNew([clone, copy], [clone]) == [clone, copy] by {
      assert clone in [clone, copy];
      assert [clone][1..] == [];
    }
    assert bounds[1..] == [clone];
    assert copy !in [clone];
  }

  /** From the tests: `Trait(T, [Copy, Clone])` gives `Foo<T: Clone + Copy, U: Copy>`. */
  lemma TraitConditionExample()
    ensures TraitApplied(FooState(), "T", ["Copy", "Clone"]) ==
      Ok(FooState().(body := FooState().body.(generics :=
        Generics([TypeParam("T", [TraitBound("Clone"), TraitBound("Copy")]), TypeParam("U", [TraitBound("Copy")])], []))))
  {
    var s := FooState();
    TraitGenericFooT();
    assert IsFirstTypeParam(s.body.generics.params, "T", 0);
    TraitAppliedBounds(s, "T", ["Copy", "Clone"], 0);
    MergeCopyClone();
    var ps := TraitApplied(s, "T", ["Copy", "Clone"]).value.body.generics.params;
    assert ps == [ps[0], ps[1]];
  }

  /** The state after a type condition on `T` whose filled-in type is `t`, with `extra` new
    * parameters. */
  function FooWith(t: Ty, extra: seq<GenericParam>): State {
    State(TraitBody("Foo", Generics([TypeParam("U", [TraitBound("Copy")])] + extra, []), [TypeItem("Bar"), FooFn(t)]),
          Generics([TypeParam("A", [])] + extra, []))
  }

  /** Taking `T` out of `Foo`'s and the impl's generics leaves `U: Copy` and `A`. */
  lemma RemoveT()
    ensures RemoveTypeParam(FooState().body.generics.params, "T") == [TypeParam("U", [TraitBound("Copy")])]
    ensures RemoveTypeParam(FooState().implGenerics.params, "T") == [TypeParam("A", [])]
  {
    var t, u := TypeParam("T", [TraitBound("Clone")]), TypeParam("U", [TraitBound("Copy")]);
    assert [t, u][..1] == [t] && [t][..0] == [];
    var t', a := TypeParam("T", []), TypeParam("A", []);
    assert [t', a][..1] == [t'] && [t'][..0] == [];
  }

  /** `replace_type` goes into the argument of `Vec`. */
  lemma ReplaceVec(x: Ty, g: string, t: Ty)
    requires g != "Vec"
    ensures UtilsTypes.ReplaceType(VecOf(x), g, t) == VecOf(UtilsTypes.ReplaceType(x, g, t))
  {
    var seg := Segment("Vec", Angle([TypeArg(x)]));
    assert UtilsTypes.ReplaceInSegment(seg, g, t) == Segment("Vec", Angle([TypeArg(UtilsTypes.ReplaceType(x, g, t))]));
  }

  /** Replacing `g` in `foo` over `x` replaces it in `x`. */
  lemma ReplaceInFooFn(x: Ty, g: string, t: Ty)
    requires g != "U" && g != "Vec"
    ensures ReplaceInItem(FooFn(x), g, t) == FooFn(UtilsTypes.ReplaceType(x, g, t))
  {
    var x' := UtilsTypes.ReplaceType(x, g, t);
    ReplaceVec(x, g, t);
    assert !UtilsTypes.Mentions(Named("U"), g);
    var inputs := [Receiver, Typed(VecOf(x)), Typed(Named("U"))];
    var inputs' := seq(|inputs|, i requires 0 <= i < |inputs| => ReplaceInArg(inputs[i], g, t));
    assert inputs' == [Receiver, Typed(VecOf(x')), Typed(Named("U"))];
  }

  /** A type condition on `T` whose filled-in type is `t`: `Foo<U: Copy, extra>` with `foo` over
    * `t`, and `<A, extra>` for the impl. */
  lemma TypeAppliedFoo(ty: Ty, names: seq<string>)
    requires |names| == InferCount(ty)
    ensures TypeApplied(FooState(), "T", ty, names) == FooWith(FillInfers(ty, names), Unbounded(names))
  {
    var t := FillInfers(ty, names);
    TraitGenericFooT();
    RemoveT();
    ReplaceInFooFn(Named("T"), "T", t);
    assert UtilsTypes.ReplaceType(Named("T"), "T", t) == t;
    var items := [TypeItem("Bar"), FooFn(Named("T"))];
    assert ReplaceInItems(items, "T", t) == [TypeItem("Bar"), FooFn(t)];
  }

  /** A type condition whose type has no wildcard gives no new names. */
  lemma NoWildcards(s: State, implGeneric: string, ty: Ty, r: Result<State>)
    requires InferCount(ty) == 0 && Applied(s, C.Type(implGeneric, ty), r)
    ensures r == Ok(TypeApplied(s, implGeneric, ty, []))
  {
  }

  /** From the tests: `Type(T, String)` gives `Foo<U: Copy>` with `fn foo(&self, arg1:
    * Vec<String>, arg2: U) -> String;`, and the impl keeps `<A>`. */
  lemma TypeConditionExample(r: Result<State>)
    requires Applied(FooState(), C.Type("T", Named("String")), r)
    ensures r == Ok(FooWith(Named("String"), []))
  {
    UtilsParsing.NamedFilled("String");
    NoWildcards(FooState(), "T", Named("String"), r);
    TypeAppliedFoo(Named("String"), []);
    assert Unbounded([]) == [];
  }

  /** No `__W{k}` is `U`: they start with `_`. */
  lemma WildcardsAreNotU()
    ensures Clean(UtilsParsing.W, Namer({"U"}, 0, []))
    ensures Names(UtilsParsing.W, 0, 1) == ["__W0"]
  {
    forall k: nat ensures Name(UtilsParsing.W, k) !in {"U"} {
      var d := Strings.Decimal(k);
      assert Name(UtilsParsing.W, k) == "__W" + d + "";
      assert |"__W" + d + ""| >= 4;
    }
    assert Strings.Decimal(0) == "0";
    assert Name(UtilsParsing.W, 0) == "__W0";
    var ns := Names(UtilsParsing.W, 0, 1);
    assert ns == [ns[0]];
  }

  /** The trait's type parameters once `T` is removed. */
  lemma TakenAfterT()
    ensures TakenAfter(FooState(), TraitGeneric(FooState(), "T")) == {"U"}
  {
    TraitGenericFooT();
    RemoveT();
    assert TypeParamNames([TypeParam("U", [TraitBound("Copy")])]) == ["U"];
  }

  /** With only `U` taken, one wildcard is named `__W0`. */
  lemma OneWildcardName(names: seq<string>)
    requires WildcardNames({"U"}, 1, names)
    ensures names == ["__W0"]
  {
    WildcardsAreNotU();
    WildcardNamesFresh({"U"}, 1, names);
  }

  /** `Vec<_>` for `T` with the wildcard named `__W0`. */
  lemma WildcardApplied(names: seq<string>)
    requires WildcardNames({"U"}, 1, names) && |names| == 1
    ensures InferCount(VecOf(Infer)) == 1
    ensures TypeApplied(FooState(), "T", VecOf(Infer), names) == FooWith(VecOf(Named("__W0")), [TypeParam("__W0", [])])
  {
    OneWildcardName(names);
    FillVec(Infer, names);
    TypeAppliedFoo(VecOf(Infer), names);
    assert Unbounded(names) == [TypeParam("__W0", [])];
  }

  /** `Vec<_>` has one wildcard. */
  lemma VecOneWildcard()
    ensures InferCount(VecOf(Infer)) == 1
  {
    FillVec(Infer, ["__W0"]);
  }

  /** From the tests: `Type(T, Vec<_>)` gives `Foo<U: Copy, __W0>` with `fn foo(&self, arg1:
    * Vec<Vec<__W0>>, arg2: U) -> Vec<__W0>;`, and the impl gets `<A, __W0>`: whichever names
    * `apply_condition` may pick (see `Applied`), the one wildcard is `__W0`. */
  lemma WildcardConditionExample(names: seq<string>)
    requires WildcardNames(TakenAfter(FooState(), TraitGeneric(FooState(), "T")), InferCount(VecOf(Infer)), names)
    requires |names| == InferCount(VecOf(Infer))
    ensures TypeApplied(FooState(), "T", VecOf(Infer), names) == FooWith(VecOf(Named("__W0")), [TypeParam("__W0", [])])
  {
    VecOneWildcard();
    TakenAfterT();
    WildcardApplied(names);
  }

  // ============================================================ apply_condition: `All` of plain types

  /** Type conditions without `_`: each has exactly one outcome. */
  predicate PlainTypes(conds: seq<C.WhenCondition>) {
    forall j | 0 <= j < |conds| :: conds[j].Type? && InferCount(conds[j].ty) == 0
  }

  /** One pass over plain type conditions, in order. */
  function PassTypes(s: State, conds: seq<C.WhenCondition>): State
    requires PlainTypes(conds)
    decreases |conds|
  {
    if conds == [] then s
    else
      var d := conds[|conds| - 1];
      TypeApplied(PassTypes(s, conds[..|conds| - 1]), d.generic, d.ty, [])
  }

  /** `k` passes over plain type conditions. */
  function RoundsTypes(s: State, conds: seq<C.WhenCondition>, k: nat): State
    requires PlainTypes(conds)
  {
    if k == 0 then s else PassTypes(RoundsTypes(s, conds, k - 1), conds)
  }

  /** The pass over a prefix one longer is one more step. */
  lemma PassTypesLast(s: State, conds: seq<C.WhenCondition>, i: nat)
    requires PlainTypes(conds) && 0 < i <= |conds|
    ensures PlainTypes(conds[..i]) && PlainTypes(conds[..i - 1])
    ensures PassTypes(s, conds[..i]) == TypeApplied(PassTypes(s, conds[..i - 1]), conds[i - 1].generic, conds[i - 1].ty, [])
  {
    assert conds[..i][..i - 1] == conds[..i - 1];
  }

  /** The last step of the first `i` conditions. */
  lemma EachLast(s: State, c: C.WhenCondition, i: nat, r: Result<State>) returns (m: Result<State>)
    requires c.All? && 0 < i <= |c.conds| && Each(s, c, i, r)
    ensures Each(s, c, i - 1, m) && (m.Err? ==> r == m) && (m.Ok? ==> Applied(m.value, c.conds[i - 1], r))
  {
    m :| Each(s, c, i - 1, m) && (m.Err? ==> r == m) && (m.Ok? ==> Applied(m.value, c.conds[i - 1], r));
  }

  /** The first `i` plain type conditions of an `All` have one outcome: the pass over them. */
  lemma {:induction false} EachPlain(s: State, c: C.WhenCondition, i: nat, r: Result<State>)
    requires c.All? && PlainTypes(c.conds) && i <= |c.conds| && Each(s, c, i, r)
    ensures PlainTypes(c.conds[..i]) && r == Ok(PassTypes(s, c.conds[..i]))
    decreases i, 1
  {
    if i == 0 {
      assert c.conds[..0] == [];
    } else {
      var m := EachLast(s, c, i, r);
      EachPlainStep(s, c, i, m, r);
    }
  }

  /** The step of `EachPlain`: the outcome before the `i`-th condition, then that condition. */
  lemma EachPlainStep(s: State, c: C.WhenCondition, i: nat, m: Result<State>, r: Result<State>)
    requires c.All? && PlainTypes(c.conds) && 0 < i <= |c.conds| && Each(s, c, i - 1, m)
    requires m.Err? ==> r == m
    requires m.Ok? ==> Applied(m.value, c.conds[i - 1], r)
    ensures PlainTypes(c.conds[..i]) && r == Ok(PassTypes(s, c.conds[..i]))
    decreases i, 0
  {
    EachPlain(s, c, i - 1, m);
    PlainLast(s, c.conds, i, m.value, r);
  }

  /** The `i`-th plain type condition, applied after the pass over the ones before it. */
  lemma PlainLast(s: State, conds: seq<C.WhenCondition>, i: nat, cur: State, r: Result<State>)
    requires PlainTypes(conds) && 0 < i <= |conds| && PlainTypes(conds[..i - 1])
    requires cur == PassTypes(s, conds[..i - 1]) && Applied(cur, conds[i - 1], r)
    ensures PlainTypes(conds[..i]) && r == Ok(PassTypes(s, conds[..i]))
  {
    var d := conds[i - 1];
    assert d.Type? && InferCount(d.ty) == 0;
    NoWildcards(cur, d.generic, d.ty, r);
    PassTypesLast(s, conds, i);
  }

  /** `k` rounds of plain type conditions have one outcome: `k` passes. */
  lemma {:induction false} RoundsPlain(s: State, c: C.WhenCondition, k: nat, r: Result<State>)
    requires c.All? && PlainTypes(c.conds) && Rounds(s, c, k, r)
    ensures r == Ok(RoundsTypes(s, c.conds, k))
    decreases k
  {
    if k > 0 {
      var m :| Rounds(s, c, k - 1, m) && (m.Err? ==> r == m) && (m.Ok? ==> Each(m.value, c, |c.conds|, r));
      RoundsPlain(s, c, k - 1, m);
      EachPlain(m.value, c, |c.conds|, r);
      assert c.conds[..|c.conds|] == c.conds;
    }
  }

  /** `All` of plain type conditions never panics and is deterministic: `|conds|` passes. */
  lemma AllPlain(s: State, c: C.WhenCondition, r: Result<State>)
    requires c.All? && PlainTypes(c.conds) && Applied(s, c, r)
    ensures r == Ok(RoundsTypes(s, c.conds, |c.conds|))
  {
    RoundsPlain(s, c, |c.conds|, r);
  }

  /** Two conditions make one pass of two steps. */
  lemma PassTwo(s: State, a: C.WhenCondition, b: C.WhenCondition)
    requires a.Type? && b.Type? && InferCount(a.ty) == 0 && InferCount(b.ty) == 0
    ensures PlainTypes([a, b])
    ensures PassTypes(s, [a, b]) == TypeApplied(TypeApplied(s, a.generic, a.ty, []), b.generic, b.ty, [])
  {
    var conds := [a, b];
    assert PlainTypes(conds);
    PassTypesLast(s, conds, 2);
    PassTypesLast(s, conds, 1);
    assert conds[..2] == conds && conds[..0] == [];
  }

  /** A name that is none of `U`, `A` and `Vec` neither corresponds to a trait parameter nor
    * occurs in `FooWith(x, [])` other than in `x`: a type condition on it replaces it in `x`. */
  lemma TypeAppliedFooWith(x: Ty, g: string, ty: Ty)
    requires g != "U" && g != "A" && g != "Vec" && InferCount(ty) == 0
    ensures TypeApplied(FooWith(x, []), g, ty, []) == FooWith(UtilsTypes.ReplaceType(x, g, FillInfers(ty, [])), [])
  {
    var s := FooWith(x, []);
    var a, u := TypeParam("A", []), TypeParam("U", [TraitBound("Copy")]);
    assert forall i :: !IsFirstTypeParam([a], g, i);
    assert TraitGeneric(s, g) == g;
    assert [a][..0] == [] && [u][..0] == [];
    assert RemoveTypeParam([a], g) == [a] && RemoveTypeParam([u], g) == [u];
    var t := FillInfers(ty, []);
    ReplaceInFooFn(x, g, t);
    assert ReplaceInItems([TypeItem("Bar"), FooFn(x)], g, t) == [TypeItem("Bar"), FooFn(UtilsTypes.ReplaceType(x, g, t))];
  }

  /** The conditions of the `All` test: `T = Vec<V>`, then `V = String`. */
  function VecVThenString(): seq<C.WhenCondition> {
    [C.Type("T", VecOf(Named("V"))), C.Type("V", Named("String"))]
  }

  lemma VecVThenStringPlain()
    ensures PlainTypes(VecVThenString())
  {
    UtilsParsing.NamedFilled("V");
    UtilsParsing.NamedFilled("String");
    FillVec(Named("V"), []);
  }

  /** The first pass: `T` becomes `Vec<V>`, then `V` becomes `String`. */
  lemma FirstPass()
    ensures PlainTypes(VecVThenString())
    ensures PassTypes(FooState(), VecVThenString()) == FooWith(VecOf(Named("String")), [])
  {
    VecVThenStringPlain();
    UtilsParsing.NamedFilled("V");
    UtilsParsing.NamedFilled("String");
    FillVec(Named("V"), []);
    PassTwo(FooState(), C.Type("T", VecOf(Named("V"))), C.Type("V", Named("String")));
    TypeAppliedFoo(VecOf(Named("V")), []);
    assert Unbounded([]) == [];
    TypeAppliedFooWith(VecOf(Named("V")), "V", Named("String"));
    ReplaceVec(Named("V"), "V", Named("String"));
    assert UtilsTypes.ReplaceType(Named("V"), "V", Named("String")) == Named("String");
  }

  /** `Vec<a>` mentions only `Vec` and `a`. */
  lemma VecNamedMentions(a: string, p: string)
    requires a != p && p != "Vec"
    ensures !UtilsTypes.Mentions(VecOf(Named(a)), p)
  {
    var arg := TypeArg(Named(a));
    assert !UtilsTypes.SegmentMentions(Segment(a, NoArgs), p);
    assert [Segment(a, NoArgs)][0] == Segment(a, NoArgs);
    assert !UtilsTypes.Mentions(Named(a), p);
    assert !UtilsTypes.ArgMentions(arg, p);
    assert !UtilsTypes.SegmentMentions(Segment("Vec", Angle([arg])), p);
  }

  /** The second pass changes nothing: neither `T` nor `V` is left. */
  lemma SecondPass()
    ensures PlainTypes(VecVThenString())
    ensures PassTypes(FooWith(VecOf(Named("String")), []), VecVThenString()) == FooWith(VecOf(Named("String")), [])
  {
    VecVThenStringPlain();
    var x := VecOf(Named("String"));
    PassTwo(FooWith(x, []), C.Type("T", VecOf(Named("V"))), C.Type("V", Named("String")));
    VecNamedMentions("String", "T");
    VecNamedMentions("String", "V");
    TypeAppliedFooWith(x, "T", VecOf(Named("V")));
    TypeAppliedFooWith(x, "V", Named("String"));
  }

  /** From the tests: `All([Type(T, Vec<V>), Type(V, String)])` gives `Foo<U: Copy>` with `fn
    * foo(&self, arg1: Vec<Vec<String>>, arg2: U) -> Vec<String>;` and the impl's `<A>`. */
  lemma AllConditionExample()
    ensures PlainTypes(VecVThenString())
    ensures RoundsTypes(FooState(), VecVThenString(), 2) == FooWith(VecOf(Named("String")), [])
  {
    FirstPass();
    SecondPass();
  }

  // ============================================================ break_attr

  /** `break_attr(trait_)`: the trait without its attributes, and the attributes; putting them
    * back gives the trait again. */
  function BreakAttr(t: ItemTrait): (r: (ItemTrait, seq<string>))
    ensures r.0.attrs == [] && r.0.(attrs := r.1) == t
  {
    (t.(attrs := []), t.attrs)
  }
}
