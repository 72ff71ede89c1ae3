/** Variable information of the later macro crate
  * (`spec-trait-impl/crates/spec-trait-macro/src/vars.rs`): the alias table, and for every type
  * parameter of the impl the concrete types the call binds it to, found through the trait fn's
  * parameters (`get_generic_constraints_from_trait`) or through the impl's self type
  * (`get_generic_constraints_from_type`), with the lifetimes and traits the annotations give.
  *
  * The type helpers of this snapshot (`spec-trait-impl/crates/spec-trait-utils/src/types.rs`)
  * and `ImplBody::get_corresponding_generic` are not part of this model: the matcher
  * `can_assign`, syn's type parser and the impl-side correspondence are parameters (`Env`);
  * alias resolution and `type_contains` are the earlier snapshot's (`BackupTypes`), and the
  * trait-side `get_corresponding_generic` and `get_param_types` are the utilities crate's
  * (`UtilsTraits`). Every panic (`unwrap`, `panic!`, an index out of range) is an `Err`. */
module ImplVars {
  import opened Wrappers
  import opened Syntax
  import B = BackupTypes
  import UT = UtilsTraits

  /** An annotation of this snapshot: traits, an alias or a lifetime for a type. */
  datatype Annotation =
    | Trait(ty: string, traits: seq<string>)
    | Alias(ty: string, alias: string)
    | Lifetime(ty: string, lifetime: string)

  /** The parsed macro argument: the called fn, its arguments and their types, the receiver's
    * type and the annotations. */
  datatype AnnotationBody = AnnotationBody(
    fnName: string, args: seq<string>, argsTypes: seq<string>, varType: string, annotations: seq<Annotation>)

  /** `VarInfo`: an impl generic, the trait generic it came through (if any), the concrete type
    * it is bound to, and the traits annotated for that type. */
  datatype VarInfo = VarInfo(implGeneric: string, traitGeneric: Option<string>, concreteType: string, traits: seq<string>)

  /** What `ImplBody` contributes here: its generics, the generics of its trait reference, its
    * self type, and the specialised impl (`specialized`, absent on a body not yet specialised). */
  datatype ImplBody = ImplBody(implGenerics: Generics, traitGenerics: Generics, typeName: string, specialized: Option<ImplBody>)

  /** The trait with its specialised copy, if any. */
  datatype TraitSide = TraitSide(body: UT.TraitBody, specialized: Option<UT.TraitBody>)

  /** `Aliases`: each aliased type with its aliases. */
  type AliasTable = map<string, seq<string>>

  /** What the file takes from code outside this model: syn's type parser, the alias table in
    * the order the lookup searches it, `type_assignable_generic_constraints` with that table
    * (the bindings of the declared type's generics when the concrete type can be assigned to
    * it), and `ImplBody::get_corresponding_generic`. */
  datatype Env = Env(
    parse: string -> Ty,
    aliases: B.Aliases,
    constraints: (string, string, Generics) -> Option<B.ConstrainedGenerics>,
    implCorresponding: (ImplBody, Generics, string) -> Option<string>)

  const NoParams: Generics := Generics([], [])

  predicate Distinct<T(==)>(s: seq<T>) {
    forall i, j :: 0 <= i < j < |s| ==> s[i] != s[j]
  }

  // ============================================================ get_type_aliases

  /** The aliases annotated for `ty`, in annotation order. */
  function AliasesOf(ty: string, anns: seq<Annotation>): (r: seq<string>)
    ensures |r| <= |anns|
  {
    if anns == [] then []
    else
      var last := anns[|anns| - 1];
      AliasesOf(ty, anns[..|anns| - 1]) + (if last.Alias? && last.ty == ty then [last.alias] else [])
  }

  /** An alias is listed for `ty` exactly when an annotation declares it. */
  lemma {:induction false} AliasesOfMembers(ty: string, anns: seq<Annotation>)
    ensures forall x :: x in AliasesOf(ty, anns) <==> Alias(ty, x) in anns
  {
    if anns != [] {
      var init := anns[..|anns| - 1];
      AliasesOfMembers(ty, init);
      assert anns == init + [anns[|anns| - 1]];
    }
  }

  /** `get_type_aliases`: every alias annotation appends its alias to the entry of its type,
    * creating the entry on first use; other annotations are skipped. A type is a key exactly
    * when it has an alias, and its entry lists them in annotation order. */
  method GetTypeAliases(ann: seq<Annotation>) returns (aliases: AliasTable)
    ensures forall ty :: ty in aliases <==> AliasesOf(ty, ann) != []
    ensures forall ty :: ty in aliases ==> aliases[ty] == AliasesOf(ty, ann)
  {
    aliases := map[];
    for i := 0 to |ann|
      invariant forall ty :: ty in aliases <==> AliasesOf(ty, ann[..i]) != []
      invariant forall ty :: ty in aliases ==> aliases[ty] == AliasesOf(ty, ann[..i])
    {
      assert ann[..i + 1][..i] == ann[..i];
      if ann[i].Alias? {
        var t := ann[i].ty;
        var entry := if t in aliases then aliases[t] else [];
        aliases := aliases[t := entry + [ann[i].alias]];
      }
    }
    assert ann[..|ann|] == ann;
  }

  /** The case of `test_get_type_aliases`: two aliases of `A` in order, one of `B`. */
  lemma AliasesExample()
    ensures var anns := [Alias("A", "a1"), Alias("A", "a2"), Alias("B", "b1")];
            AliasesOf("A", anns) == ["a1", "a2"] && AliasesOf("B", anns) == ["b1"] && AliasesOf("C", anns) == []
  {
    var anns := [Alias("A", "a1"), Alias("A", "a2"), Alias("B", "b1")];
    assert anns[..2] == [Alias("A", "a1"), Alias("A", "a2")];
    assert anns[..2][..1] == [Alias("A", "a1")];
    assert anns[..2][..1][..0] == [];
  }

  // ============================================================ get_param_types

  /** `get_param_types` is the utilities crate's: the receiver contributes nothing. */
  lemma ParamTypesSkipReceiver(a: seq<UT.FnArg>, b: seq<UT.FnArg>)
    ensures UT.GetParamTypes(a + [UT.Receiver] + b) == UT.GetParamTypes(a + b)
  {
    UT.ParamTypesAppend(a + [UT.Receiver], b);
    UT.ParamTypesAppend(a, [UT.Receiver]);
    UT.ParamTypesAppend(a, b);
    UT.ParamTypesOne(UT.Receiver);
  }

  /** The case of `test_get_param_types`: `fn foo(&self, x: T, y: u32)` has parameter types
    * `T` and `u32`, in order. */
  lemma ParamTypesExample()
    ensures UT.GetParamTypes([UT.Receiver, UT.Typed(Named("T")), UT.Typed(Named("u32"))]) == ["T", "u32"]
  {
    var x, y := UT.Typed(Named("T")), UT.Typed(Named("u32"));
    ParamTypesSkipReceiver([], [x, y]);
    assert [UT.Receiver, x, y] == [] + [UT.Receiver] + [x, y];
    assert [x, y] == [x] + [y];
    UT.ParamTypesAppend([x], [y]);
    UT.ParamTypesOne(x);
    UT.ParamTypesOne(y);
    RenderNamed("T");
    RenderNamed("u32");
  }

  // ============================================================ type matching

  /** `get_concrete_type`: the rendering of the parsed type with aliases resolved. */
  function ConcreteType(s: string, env: Env): string {
    Render(B.ResolveType(env.parse(s), env.aliases))
  }

  /** `type_assignable(concrete, declared, "", aliases)`. */
  predicate Assignable(concrete: string, declared: string, env: Env) {
    env.constraints(concrete, declared, NoParams).Some?
  }

  /** `type_contains(&str_to_type_name(s), generic)`. */
  predicate Contains(s: string, generic: string, env: Env) {
    B.TypeContains(env.parse(s), Named(generic))
  }

  // ============================================================ get_type_traits

  /** `get_type_traits`: the trait lists of the trait annotations whose type `ty` can be
    * assigned to, concatenated in annotation order. */
  function GetTypeTraits(ty: string, anns: seq<Annotation>, env: Env): (r: seq<string>) {
    if anns == [] then []
    else
      var last := anns[|anns| - 1];
      GetTypeTraits(ty, anns[..|anns| - 1], env) +
      (if last.Trait? && Assignable(ty, last.ty, env) then last.traits else [])
  }

  /** A trait is in the result exactly when an annotation for a type `ty` fits lists it. */
  lemma {:induction false} GetTypeTraitsMembers(ty: string, anns: seq<Annotation>, env: Env)
    ensures forall x :: x in GetTypeTraits(ty, anns, env) <==>
              exists i :: 0 <= i < |anns| && anns[i].Trait? && Assignable(ty, anns[i].ty, env) && x in anns[i].traits
  {
    if anns != [] {
      var init := anns[..|anns| - 1];
      GetTypeTraitsMembers(ty, init, env);
      assert forall i :: 0 <= i < |init| ==> anns[i] == init[i];
    }
  }

  /** `flat_map` works annotation by annotation: the lookup distributes over concatenation. */
  lemma {:induction false} GetTypeTraitsAppend(ty: string, a: seq<Annotation>, b: seq<Annotation>, env: Env)
    ensures GetTypeTraits(ty, a + b, env) == GetTypeTraits(ty, a, env) + GetTypeTraits(ty, b, env)
    decreases |b|
  {
    if b == [] {
      assert a + b == a;
    } else {
      var init, ab := b[..|b| - 1], a + b;
      assert ab[..|ab| - 1] == a + init;
      assert ab[|ab| - 1] == b[|b| - 1];
      GetTypeTraitsAppend(ty, a, init, env);
    }
  }

  // ============================================================ get_concrete_type_with_lifetime

  /** The lifetime an annotation gives a concrete type, if it is a lifetime annotation for a
    * type the concrete one can be assigned to. */
  function LifetimeOf(a: Annotation, concrete: string, env: Env): Option<string> {
    if a.Lifetime? && Assignable(concrete, a.ty, env) then Some(a.lifetime) else None
  }

  /** The distinct lifetimes the annotations give `concrete`, in annotation order (the source
    * collects them into a `HashSet`). */
  function AnnLifetimes(concrete: string, anns: seq<Annotation>, env: Env): (r: seq<string>)
    ensures Distinct(r)
  {
    if anns == [] then []
    else
      var prev := AnnLifetimes(concrete, anns[..|anns| - 1], env);
      match LifetimeOf(anns[|anns| - 1], concrete, env)
      case Some(l) => if l in prev then prev else prev + [l]
      case None => prev
  }

  /** The lifetimes the annotations give `concrete`, as a set. */
  ghost function LifetimeSet(concrete: string, anns: seq<Annotation>, env: Env): set<string> {
    set i | 0 <= i < |anns| && LifetimeOf(anns[i], concrete, env).Some? :: LifetimeOf(anns[i], concrete, env).value
  }

  lemma {:induction false} AnnLifetimesMembers(concrete: string, anns: seq<Annotation>, env: Env)
    ensures forall l :: l in AnnLifetimes(concrete, anns, env) <==> l in LifetimeSet(concrete, anns, env)
  {
    if anns != [] {
      var init := anns[..|anns| - 1];
      AnnLifetimesMembers(concrete, init, env);
      assert forall i :: 0 <= i < |init| ==> anns[i] == init[i];
      var last := |anns| - 1;
      assert LifetimeSet(concrete, anns, env) == LifetimeSet(concrete, init, env) +
               (if LifetimeOf(anns[last], concrete, env).Some? then {LifetimeOf(anns[last], concrete, env).value} else {});
    }
  }

  /** A sequence without repetitions has as many elements as its set. */
  lemma {:induction false} DistinctCard(s: seq<string>)
    requires Distinct(s)
    ensures |set x | x in s| == |s|
  {
    if s != [] {
      var init := s[..|s| - 1];
      DistinctCard(init);
      assert (set x | x in s) == (set x | x in init) + {s[|s| - 1]};
      assert s[|s| - 1] !in init;
    }
  }

  /** All lifetimes in play for a concrete type: the annotated ones, and the reference's own. */
  function AllLifetimes(fromAnn: seq<string>, own: Option<string>): seq<string> {
    if own.Some? && own.value !in fromAnn then fromAnn + [own.value] else fromAnn
  }

  /** The last step of `get_concrete_type_with_lifetime` on the parsed concrete type `t` and
    * the distinct annotated lifetimes: a reference gets the single lifetime in play (annotated
    * or its own); more than one panics; anything else stays as it is. */
  function WithLifetime(ty: string, concrete: string, t: Ty, fromAnn: seq<string>): (r: Result<string>) {
    match t
    case Ref(lt, m, e) =>
      var all := AllLifetimes(fromAnn, lt);
      if |all| == 0 then Ok(concrete)
      else if |all| == 1 then Ok(Render(Ref(Some(all[0]), m, e)))
      else Err("Multiple lifetimes found for type " + ty)
    case _ => Ok(concrete)
  }

  /** The lifetime is placed on the reference as it is, `mut` included: `&mut u8` with the
    * annotated `'a` is `& 'a mut u8`. */
  lemma WithLifetimeMutExample(ty: string, concrete: string)
    ensures WithLifetime(ty, concrete, Ref(None, true, Named("u8")), ["'a"]) == Ok("& 'a mut u8")
  {
    RenderNamed("u8");
    assert AllLifetimes(["'a"], None) == ["'a"];
    assert Render(Ref(Some("'a"), true, Named("u8"))) == "& " + ("'a" + " ") + "mut " + "u8" == "& 'a mut u8";
  }

  /** The four cases, stated on the set of lifetimes in play. */
  lemma WithLifetimeCases(ty: string, concrete: string, t: Ty, fromAnn: seq<string>, annSet: set<string>)
    requires Distinct(fromAnn) && forall l :: l in fromAnn <==> l in annSet
    ensures var r := WithLifetime(ty, concrete, t, fromAnn);
            var lts := annSet + (if t.Ref? && t.lifetime.Some? then {t.lifetime.value} else {});
            (!t.Ref? ==> r == Ok(concrete)) &&
            (t.Ref? && lts == {} ==> r == Ok(concrete)) &&
            (forall l :: t.Ref? && lts == {l} ==> r == Ok(Render(Ref(Some(l), t.mutable, t.elem)))) &&
            (t.Ref? && |lts| > 1 <==> r.Err?)
  {
    if t.Ref? {
      var all := AllLifetimes(fromAnn, t.lifetime);
      var lts := annSet + (if t.lifetime.Some? then {t.lifetime.value} else {});
      assert Distinct(all);
      assert (set x | x in all) == lts;
      DistinctCard(all);
      if |all| == 1 {
        assert all[0] in lts;
      }
    }
  }

  /** `get_concrete_type_with_lifetime`: the alias-resolved type, with the lifetime the
    * annotations for it and its own reference give. */
  function GetConcreteTypeWithLifetime(ty: string, anns: seq<Annotation>, env: Env): (r: Result<string>) {
    var concrete := ConcreteType(ty, env);
    WithLifetime(ty, concrete, env.parse(concrete), AnnLifetimes(concrete, anns, env))
  }

  /** The four cases: a type that does not parse as a reference is its concrete type; a
    * reference with no lifetime in play is unchanged; one with a single distinct lifetime gets
    * it; one with several fails. */
  lemma GetConcreteTypeWithLifetimeCases(ty: string, anns: seq<Annotation>, env: Env)
    ensures var concrete := ConcreteType(ty, env);
            var r := GetConcreteTypeWithLifetime(ty, anns, env);
            var t := env.parse(concrete);
            var lts := LifetimeSet(concrete, anns, env) + (if t.Ref? && t.lifetime.Some? then {t.lifetime.value} else {});
            (!t.Ref? ==> r == Ok(concrete)) &&
            (t.Ref? && lts == {} ==> r == Ok(concrete)) &&
            (forall l :: t.Ref? && lts == {l} ==> r == Ok(Render(Ref(Some(l), t.mutable, t.elem)))) &&
            (t.Ref? && |lts| > 1 <==> r.Err?)
  {
    var concrete := ConcreteType(ty, env);
    AnnLifetimesMembers(concrete, anns, env);
    WithLifetimeCases(ty, concrete, env.parse(concrete), AnnLifetimes(concrete, anns, env), LifetimeSet(concrete, anns, env));
  }

  // ============================================================ bindings

  /** A bound generic of a match: the rendering of the type it is bound to, the impl generic,
    * and the trait generic it came through, if any. */
  datatype Binding = Binding(constraint: string, implGeneric: string, traitGeneric: Option<string>)

  /** The record for a binding. */
  function VarOf(b: Binding, anns: seq<Annotation>, env: Env): Result<VarInfo> {
    match GetConcreteTypeWithLifetime(b.constraint, anns, env)
    case Err(m) => Err(m)
    case Ok(c) => Ok(VarInfo(b.implGeneric, b.traitGeneric, c, GetTypeTraits(b.constraint, anns, env)))
  }

  /** The records of a set of bindings; any panic in building one is a panic. */
  function VarsOf(bs: set<Binding>, anns: seq<Annotation>, env: Env): (r: Result<set<VarInfo>>)
    ensures r.Err? <==> exists b :: b in bs && VarOf(b, anns, env).Err?
    ensures r.Ok? ==> forall v :: v in r.value <==> exists b :: b in bs && VarOf(b, anns, env) == Ok(v)
  {
    if exists b :: b in bs && VarOf(b, anns, env).Err? then Err("Multiple lifetimes found for type")
    else Ok(set b | b in bs :: VarOf(b, anns, env).value)
  }

  /** The bindings of the trait side: each bound trait generic with the impl generic that
    * corresponds to it; a bound one without a corresponding impl generic panics (`unwrap`). */
  function TraitBindings(types: map<string, Option<Ty>>, traitGenerics: Generics, impl_: ImplBody, env: Env): Result<set<Binding>> {
    if AllCorrespond(types, traitGenerics, impl_, env) then Ok(TraitBindingSet(types, traitGenerics, impl_, env))
    else Err("called `Option::unwrap()` on a `None` value")
  }

  /** Every bound trait generic has a corresponding impl generic. */
  predicate AllCorrespond(types: map<string, Option<Ty>>, traitGenerics: Generics, impl_: ImplBody, env: Env) {
    forall g :: g in types && types[g].Some? ==> env.implCorresponding(impl_, traitGenerics, g).Some?
  }

  function TraitBindingSet(types: map<string, Option<Ty>>, traitGenerics: Generics, impl_: ImplBody, env: Env): set<Binding>
    requires AllCorrespond(types, traitGenerics, impl_, env)
  {
    set g | g in types && types[g].Some? ::
      Binding(Render(types[g].value), env.implCorresponding(impl_, traitGenerics, g).value, Some(g))
  }

  /** The loop of `get_generic_constraints_from_trait` that fills the set `res` from the bound
    * generics, in the map's iteration order. */
  method CollectTraitBindings(types: map<string, Option<Ty>>, traitGenerics: Generics, impl_: ImplBody, env: Env)
    returns (r: Result<set<Binding>>)
    ensures r == TraitBindings(types, traitGenerics, impl_, env)
  {
    var res: set<Binding> := {};
    var todo := types.Keys;
    while todo != {}
      invariant todo <= types.Keys
      invariant forall g :: g in types && g !in todo && types[g].Some? ==> env.implCorresponding(impl_, traitGenerics, g).Some?
      invariant forall b :: b in res <==>
                  (exists g :: g in types && g !in todo && types[g].Some? &&
                     b == Binding(Render(types[g].value), env.implCorresponding(impl_, traitGenerics, g).value, Some(g)))
      decreases |todo|
    {
      var g :| g in todo;
      if types[g].Some? {
        match env.implCorresponding(impl_, traitGenerics, g)
        case None =>
          assert !AllCorrespond(types, traitGenerics, impl_, env);
          return Err("called `Option::unwrap()` on a `None` value");
        case Some(ig) =>
          res := res + {Binding(Render(types[g].value), ig, Some(g))};
      }
      todo := todo - {g};
    }
    assert AllCorrespond(types, traitGenerics, impl_, env);
    assert res == TraitBindingSet(types, traitGenerics, impl_, env);
    r := Ok(res);
  }

  /** The bindings of the type side: every bound impl generic, with no trait generic. */
  function TypeBindings(types: map<string, Option<Ty>>): set<Binding> {
    set g | g in types && types[g].Some? :: Binding(Render(types[g].value), g, None)
  }

  // ============================================================ get_generic_constraints_from_*

  /** The position of the first element that satisfies `p`. */
  function FirstWhere(params: seq<string>, p: string -> bool): (r: Option<nat>)
    ensures r.None? <==> forall i :: 0 <= i < |params| ==> !p(params[i])
    ensures r.Some? ==> r.value < |params| && p(params[r.value]) && forall i :: 0 <= i < r.value ==> !p(params[i])
  {
    if params == [] then None
    else if p(params[0]) then Some(0)
    else
      match FirstWhere(params[1..], p)
      case None => None
      case Some(i) => Some(i + 1)
  }

  /** The parameter types that mention `generic`. */
  function Mentions(generic: string, env: Env): string -> bool {
    s => Contains(s, generic, env)
  }

  /** The records a trait generic gives through the parameter at `pos`: the argument type there
    * is matched against the parameter type (an argument list too short panics on the index),
    * and every trait generic the match binds gives a record. */
  function FromParam(pos: nat, params: seq<string>, trait_: UT.TraitBody, impl_: ImplBody, ann: AnnotationBody, env: Env): (r: Result<set<VarInfo>>)
    requires pos < |params|
    ensures r.Ok? ==> forall v :: v in r.value ==> v.traitGeneric.Some?
  {
    if pos >= |ann.argsTypes| then Err("index out of bounds")
    else
      match env.constraints(ann.argsTypes[pos], params[pos], trait_.generics)
      case None => Ok({})
      case Some(cg) =>
        match TraitBindings(cg.types, trait_.generics, impl_, env)
        case Err(m) => Err(m)
        case Ok(bs) => VarsOf(bs, ann.annotations, env)
  }

  /** `get_generic_constraints_from_trait`: the called fn (`unwrap` panics when the trait has
    * none) is searched for the first parameter type that mentions the trait generic; when there
    * is none the generic gives nothing, otherwise only that parameter is used. */
  function FromTrait(traitGeneric: string, trait_: UT.TraitBody, impl_: ImplBody, ann: AnnotationBody, env: Env): (r: Result<set<VarInfo>>)
    ensures r.Ok? ==> forall v :: v in r.value ==> v.traitGeneric.Some?
  {
    match UT.FindFn(trait_, ann.fnName, |ann.args|)
    case None => Err("called `Option::unwrap()` on a `None` value")
    case Some(sig) =>
      var params := UT.GetParamTypes(sig.inputs);
      match FirstWhere(params, Mentions(traitGeneric, env))
      case None => Ok({})
      case Some(pos) => FromParam(pos, params, trait_, impl_, ann, env)
  }

  /** A trait generic no parameter of the called fn mentions gives nothing. */
  lemma FromTraitUnused(traitGeneric: string, trait_: UT.TraitBody, impl_: ImplBody, ann: AnnotationBody, env: Env, sig: UT.Signature)
    requires UT.FindFn(trait_, ann.fnName, |ann.args|) == Some(sig)
    requires forall i :: 0 <= i < |UT.GetParamTypes(sig.inputs)| ==> !Contains(UT.GetParamTypes(sig.inputs)[i], traitGeneric, env)
    ensures FromTrait(traitGeneric, trait_, impl_, ann, env) == Ok({})
  {
    var params := UT.GetParamTypes(sig.inputs);
    var p := Mentions(traitGeneric, env);
    forall i | 0 <= i < |params| ensures !p(params[i]) {
      assert !Contains(params[i], traitGeneric, env);
    }
    assert FirstWhere(params, p).None?;
  }

  /** Only the first parameter that mentions the trait generic matters: two calls that agree on
    * the argument type at that position give the same records. */
  lemma FromTraitFirstOnly(traitGeneric: string, trait_: UT.TraitBody, impl_: ImplBody, ann: AnnotationBody,
                           argsTypes: seq<string>, env: Env)
    requires UT.FindFn(trait_, ann.fnName, |ann.args|).Some?
    requires var params := UT.GetParamTypes(UT.FindFn(trait_, ann.fnName, |ann.args|).value.inputs);
             var pos := FirstWhere(params, Mentions(traitGeneric, env));
             pos.Some? ==> pos.value < |ann.argsTypes| && pos.value < |argsTypes| && argsTypes[pos.value] == ann.argsTypes[pos.value]
    ensures FromTrait(traitGeneric, trait_, impl_, ann.(argsTypes := argsTypes), env) == FromTrait(traitGeneric, trait_, impl_, ann, env)
  {
  }

  /** `get_generic_constraints_from_type`: when the impl's self type mentions the impl generic,
    * the receiver's type is matched against it and every impl generic the match binds gives a
    * record with no trait generic; otherwise there is none. */
  function FromType(implGeneric: string, impl_: ImplBody, ann: AnnotationBody, env: Env): (r: Result<set<VarInfo>>)
    ensures !Contains(impl_.typeName, implGeneric, env) ==> r == Ok({})
    ensures r.Ok? ==> forall v :: v in r.value ==> v.traitGeneric.None?
  {
    if !Contains(impl_.typeName, implGeneric, env) then Ok({})
    else
      match env.constraints(ann.varType, impl_.typeName, impl_.implGenerics)
      case None => Ok({})
      case Some(cg) => VarsOf(TypeBindings(cg.types), ann.annotations, env)
  }

  // ============================================================ get_vars

  /** Both sides, or the first panic. */
  function Union(a: Result<set<VarInfo>>, b: Result<set<VarInfo>>): (r: Result<set<VarInfo>>)
    ensures r.Ok? <==> a.Ok? && b.Ok?
    ensures r.Ok? ==> r.value == a.value + b.value
  {
    match a
    case Err(m) => Err(m)
    case Ok(x) =>
      match b
      case Err(m) => Err(m)
      case Ok(y) => Ok(x + y)
  }

  /** The `flat_map` body of `get_vars` for one impl type parameter: through the trait generic
    * it corresponds to, with the impl's own type; failing that, through the specialised trait
    * and impl, with the specialised impl's type; failing that, from both types only. Both types
    * are looked at before the correspondence, so an impl without a specialised body panics. */
  function VarsFor(g: string, impl_: ImplBody, trait_: TraitSide, ann: AnnotationBody, env: Env): (r: Result<set<VarInfo>>)
    ensures impl_.specialized.None? ==> r.Err?
  {
    var fromType := FromType(g, impl_, ann, env);
    if fromType.Err? then fromType
    else if impl_.specialized.None? then Err("called `Option::unwrap()` on a `None` value")
    else
      var spec := impl_.specialized.value;
      var fromTypeSpecialized := FromType(g, spec, ann, env);
      if fromTypeSpecialized.Err? then fromTypeSpecialized
      else
        match UT.GetCorrespondingGeneric(trait_.body, impl_.traitGenerics, g)
        case Some(tg) => Union(FromTrait(tg, trait_.body, impl_, ann, env), fromType)
        case None =>
          if trait_.specialized.None? then Err("called `Option::unwrap()` on a `None` value")
          else
            match UT.GetCorrespondingGeneric(trait_.specialized.value, spec.traitGenerics, g)
            case Some(tg) => Union(FromTrait(tg, trait_.specialized.value, spec, ann, env), fromTypeSpecialized)
            case None => Union(fromType, fromTypeSpecialized)
  }

  /** The records of a list of impl type parameters, collected into one set; `f` gives the
    * records of one parameter. */
  function VarsOver(names: seq<string>, f: string -> Result<set<VarInfo>>): (r: Result<set<VarInfo>>) {
    if names == [] then Ok({})
    else Union(VarsOver(names[..|names| - 1], f), f(names[|names| - 1]))
  }

  /** The collection fails exactly when one parameter's records fail, and otherwise holds
    * exactly the records of each parameter. */
  lemma {:induction false} VarsOverCorrect(names: seq<string>, f: string -> Result<set<VarInfo>>)
    ensures VarsOver(names, f).Err? <==> exists i :: 0 <= i < |names| && f(names[i]).Err?
    ensures VarsOver(names, f).Ok? ==> forall v :: v in VarsOver(names, f).value <==>
              exists i :: 0 <= i < |names| && v in f(names[i]).value
  {
    if names != [] {
      var init := names[..|names| - 1];
      VarsOverCorrect(init, f);
      assert forall i :: 0 <= i < |init| ==> names[i] == init[i];
    }
  }

  /** The records of one impl type parameter, as a function of the parameter. */
  function VarsForAll(impl_: ImplBody, trait_: TraitSide, ann: AnnotationBody, env: Env): string -> Result<set<VarInfo>> {
    g => VarsFor(g, impl_, trait_, ann, env)
  }

  /** `get_vars` before the final `collect`: the records of every type parameter of the impl. */
  function GetVarsSet(ann: AnnotationBody, impl_: ImplBody, trait_: TraitSide, env: Env): Result<set<VarInfo>> {
    VarsOver(TypeParamNames(impl_.implGenerics.params), VarsForAll(impl_, trait_, ann, env))
  }

  /** The final `collect::<HashSet<_>>().into_iter().collect()`: every record once, in the set's
    * iteration order. */
  method ToVec(s: set<VarInfo>) returns (v: seq<VarInfo>)
    ensures Distinct(v)
    ensures forall x :: x in v <==> x in s
  {
    v := [];
    var todo := s;
    while todo != {}
      invariant todo <= s
      invariant Distinct(v)
      invariant forall x :: x in v <==> x in s && x !in todo
      decreases |todo|
    {
      var x :| x in todo;
      v := v + [x];
      todo := todo - {x};
    }
  }

  /** `get_vars`: the collected records, each exactly once (the final `collect` through a
    * `HashSet`). */
  method GetVars(ann: AnnotationBody, impl_: ImplBody, trait_: TraitSide, env: Env) returns (r: Result<seq<VarInfo>>)
    ensures r.Err? <==> GetVarsSet(ann, impl_, trait_, env).Err?
    ensures r.Ok? ==> Distinct(r.value)
    ensures r.Ok? ==> forall v :: v in r.value <==> v in GetVarsSet(ann, impl_, trait_, env).value
  {
    match GetVarsSet(ann, impl_, trait_, env)
    case Err(m) =>
      r := Err(m);
    case Ok(s) =>
      var v := ToVec(s);
      r := Ok(v);
  }
}
