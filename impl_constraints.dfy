/** The constraints of the later macro crate (`spec-trait-impl/crates/spec-trait-macro/src/
  * constraints.rs`): each constraint remembers the generics its types mention, and types are
  * ranked by how specific they are, then by how specific their lifetimes are.
  *
  * The type helpers this file calls (`type_assignable`, `replace_type`, `strip_lifetimes`)
  * come from the same snapshot's utility crate, which is not part of this model; the backup
  * snapshot's versions in `BackupTypes` stand in for them. A comparison that panics (the
  * empty replacement type is not an identifier, so renaming a path segment after it panics)
  * is `None`. */
module ImplConstraints {
  import opened Wrappers
  import opened Syntax
  import B = BackupTypes

  /** `Constraint`: `generics` is the parsed generics string, types are parsed types. */
  datatype Constraint = Constraint(
    generics: Generics,
    type_: Option<Ty>,
    traits: seq<string>,
    notTypes: seq<Ty>,
    notTraits: seq<string>)

  /** `Constraint::default()`. */
  function Default(): Constraint {
    Constraint(Generics([], []), None, [], [], [])
  }

  /** `Constraints`: generic name to constraint. */
  type Constraints = map<string, Constraint>

  /** `Ordering::then`. */
  function Then(first: Ordering, second: Ordering): (r: Ordering)
    ensures first != Equal ==> r == first
    ensures first == Equal ==> r == second
  {
    if first == Equal then second else first
  }

  /** `norm`: a type rendered `_` counts as no type. */
  function Norm(t: Option<Ty>): (r: Option<Ty>)
    ensures t.Some? && Render(t.value) != "_" ==> r == t
    ensures t.None? || Render(t.value) == "_" ==> r.None?
  {
    if t.Some? && Render(t.value) != "_" then t else None
  }

  /** `Type::Verbatim(TokenStream::new())`, which renders as nothing. */
  const Empty: Ty := Other("")

  lemma RenderEmpty()
    ensures Render(Empty) == ""
  {
  }

  /** The generics `<'static>`. */
  const StaticOnly: Generics := Generics([LifetimeParam("'static", [])], [])

  /** The `for g in get_generics_types(generics)` loop of `replace_fn`: every named generic is
    * replaced by the empty type, in order. */
  function EraseGenerics(t: Ty, names: seq<string>): Option<Ty>
    decreases |names|
  {
    if names == [] then Some(t)
    else
      match B.ReplaceType(t, Named(names[0]), Empty)
      case Err(_) => None
      case Ok(t1) => EraseGenerics(t1, names[1..])
  }

  /** `replace_fn`: `_` is erased, the lifetimes declared in `gs` are stripped (and `'static`
    * too when comparing types rather than lifetimes), and every type generic is erased. */
  function Erased(t: Ty, gs: Generics, stripStatic: bool): Option<Ty> {
    match B.ReplaceType(t, Infer, Empty)
    case Err(_) => None
    case Ok(t1) =>
      var t2 := B.StripLifetimes(t1, gs);
      var t3 := if stripStatic then B.StripLifetimes(t2, StaticOnly) else t2;
      EraseGenerics(t3, TypeParamNames(gs.params))
  }

  /** Either type can be assigned to the other, each read with the generics of the declared side. */
  ghost predicate Related(a: Constraint, b: Constraint)
    requires Norm(a.type_).Some? && Norm(b.type_).Some?
  {
    var x, y := Norm(a.type_).value, Norm(b.type_).value;
    B.TypeAssignable(x, y, b.generics, []) || B.TypeAssignable(y, x, a.generics, [])
  }

  /** `cmp_type_or_lifetime`: related types compare by the length of their erased renderings;
    * otherwise a present type beats an absent one. */
  ghost function CmpTypeOrLifetime(a: Constraint, b: Constraint, stripStatic: bool): (r: Option<Ordering>)
    ensures Norm(a.type_).Some? && Norm(b.type_).None? ==> r == Some(Greater)
    ensures Norm(a.type_).None? && Norm(b.type_).Some? ==> r == Some(Less)
    ensures Norm(a.type_).None? && Norm(b.type_).None? ==> r == Some(Equal)
    ensures Norm(a.type_).Some? && Norm(b.type_).Some? && !Related(a, b) ==> r == Some(Equal)
    ensures Norm(a.type_).Some? && Norm(b.type_).Some? && Related(a, b) ==>
      match (Erased(Norm(a.type_).value, a.generics, stripStatic), Erased(Norm(b.type_).value, b.generics, stripStatic))
      case (Some(x), Some(y)) => r == Some(CmpInt(|Render(x)|, |Render(y)|))
      case _ => r.None?
  {
    var na, nb := Norm(a.type_), Norm(b.type_);
    if na.Some? && nb.Some? && Related(a, b) then
      match (Erased(na.value, a.generics, stripStatic), Erased(nb.value, b.generics, stripStatic))
      case (Some(x), Some(y)) => Some(CmpInt(|Render(x)|, |Render(y)|))
      case _ => None
    else Some(CmpInt(BoolRank(na.Some?), BoolRank(nb.Some?)))
  }

  /** `Ord for Constraint`: type, then lifetimes, then the number of traits, of forbidden types
    * and of forbidden traits. Both type comparisons are made, so a panic in either panics. */
  ghost function Compare(a: Constraint, b: Constraint): (r: Option<Ordering>)
    ensures r.Some? <==> CmpTypeOrLifetime(a, b, true).Some? && CmpTypeOrLifetime(a, b, false).Some?
    ensures r.Some? && CmpTypeOrLifetime(a, b, true) != Some(Equal) ==> r == CmpTypeOrLifetime(a, b, true)
    ensures r.Some? && CmpTypeOrLifetime(a, b, true) == Some(Equal) && CmpTypeOrLifetime(a, b, false) != Some(Equal) ==>
      r == CmpTypeOrLifetime(a, b, false)
    ensures r == Some(Equal) <==>
      CmpTypeOrLifetime(a, b, true) == Some(Equal) && CmpTypeOrLifetime(a, b, false) == Some(Equal) &&
      |a.traits| == |b.traits| && |a.notTypes| == |b.notTypes| && |a.notTraits| == |b.notTraits|
    ensures CmpTypeOrLifetime(a, b, true) == Some(Equal) && CmpTypeOrLifetime(a, b, false) == Some(Equal) ==>
      (r == Some(Less) <==>
        |a.traits| < |b.traits| ||
        (|a.traits| == |b.traits| && (|a.notTypes| < |b.notTypes| ||
          (|a.notTypes| == |b.notTypes| && |a.notTraits| < |b.notTraits|))))
  {
    var t := CmpTypeOrLifetime(a, b, true);
    var l := CmpTypeOrLifetime(a, b, false);
    if t.None? || l.None? then None
    else Some(Then(t.value, Then(l.value, Then(CmpInt(|a.traits|, |b.traits|),
      Then(CmpInt(|a.notTypes|, |b.notTypes|), CmpInt(|a.notTraits|, |b.notTraits|))))))
  }

  function ReverseOpt(o: Option<Ordering>): Option<Ordering> {
    if o.Some? then Some(o.value.Reverse()) else None
  }

  /** Swapping the constraints reverses the type comparison: the relation test is symmetric. */
  lemma CmpTypeOrLifetimeAntisymmetric(a: Constraint, b: Constraint, stripStatic: bool)
    ensures CmpTypeOrLifetime(b, a, stripStatic) == ReverseOpt(CmpTypeOrLifetime(a, b, stripStatic))
  {
  }

  /** Swapping the constraints reverses the order; a constraint compared with itself is
    * `Equal` unless the comparison panics. */
  lemma CompareAntisymmetric(a: Constraint, b: Constraint)
    ensures Compare(b, a) == ReverseOpt(Compare(a, b))
    ensures Compare(a, a).Some? ==> Compare(a, a) == Some(Equal)
  {
    CmpTypeOrLifetimeAntisymmetric(a, b, true);
    CmpTypeOrLifetimeAntisymmetric(a, b, false);
    CmpTypeOrLifetimeAntisymmetric(a, a, true);
    CmpTypeOrLifetimeAntisymmetric(a, a, false);
  }

  /** A type rendered `_` is the same as no type, against any other constraint. */
  lemma WildcardIsAbsent(c: Constraint, d: Constraint)
    ensures Compare(c.(type_ := Some(Infer)), d) == Compare(c.(type_ := None), d)
  {
    assert Render(Infer) == "_";
  }

  /** With types present on one side only, the side with the type wins whatever else differs. */
  lemma TypeBeatsNoType(a: Constraint, b: Constraint)
    requires Norm(a.type_).Some? && Norm(b.type_).None?
    ensures Compare(a, b) == Some(Greater)
  {
  }

  /** Constraints without types compare by the number of traits, then of forbidden types,
    * then of forbidden traits; names play no part. */
  lemma CountsDecide(a: Constraint, b: Constraint)
    requires Norm(a.type_).None? && Norm(b.type_).None?
    ensures Compare(a, b) == Some(Then(CmpInt(|a.traits|, |b.traits|),
      Then(CmpInt(|a.notTypes|, |b.notTypes|), CmpInt(|a.notTraits|, |b.notTraits|))))
  {
  }

  /** Stripping lifetimes from a type without any changes nothing. */
  lemma StripNothing(t: Ty, gs: Generics)
    requires forall l :: !HasLifetime(t, l)
    ensures B.StripLifetimes(t, gs) == t
  {
    MapLifetimesFixes(t, B.StripFrom(LifetimeParamNames(gs.params)));
  }

  /** Erasing generics that do not occur changes nothing. */
  lemma {:induction false} EraseOthers(t: Ty, names: seq<string>)
    requires forall i :: 0 <= i < |names| ==> !B.Occurs(t, Render(Named(names[i])))
    ensures EraseGenerics(t, names) == Some(t)
    decreases |names|
  {
    if names != [] {
      assert B.ReplaceType(t, Named(names[0]), Empty) == Ok(t);
      EraseOthers(t, names[1..]);
    }
  }

  /** A plain name keeps its rendering through the erasure when it is not a generic. */
  lemma ErasedPlain(name: string, gs: Generics, stripStatic: bool)
    requires name != "_" && name !in TypeParamNames(gs.params)
    ensures Erased(Named(name), gs, stripStatic) == Some(Named(name))
  {
    var t := Named(name);
    RenderNamed(name);
    assert B.ReplaceType(t, Infer, Empty) == Ok(t);
    assert forall l :: !HasLifetime(t, l) by {
      assert forall l :: !SegHasLifetime(t.segs[0], l);
    }
    StripNothing(t, gs);
    StripNothing(t, StaticOnly);
    var names := TypeParamNames(gs.params);
    forall i | 0 <= i < |names| ensures !B.Occurs(t, Render(Named(names[i]))) {
      RenderNamed(names[i]);
      assert !B.SegmentOccurs(t.segs[0], names[i]);
    }
    EraseOthers(t, names);
  }

  /** The generic itself is erased entirely. */
  lemma ErasedGeneric(name: string, gs: Generics, stripStatic: bool)
    requires name != "_" && TypeParamNames(gs.params) == [name]
    ensures Erased(Named(name), gs, stripStatic) == Some(Empty)
  {
    var t := Named(name);
    RenderNamed(name);
    assert B.ReplaceType(t, Infer, Empty) == Ok(t);
    assert forall l :: !HasLifetime(t, l) by {
      assert forall l :: !SegHasLifetime(t.segs[0], l);
    }
    StripNothing(t, gs);
    StripNothing(t, StaticOnly);
    assert B.ReplaceType(t, Named(name), Empty) == Ok(Empty);
    assert [name][1..] == [];
    assert EraseGenerics(Empty, []) == Some(Empty);
    assert EraseGenerics(t, [name]) == Some(Empty);
    var t3 := if stripStatic then B.StripLifetimes(B.StripLifetimes(t, gs), StaticOnly) else B.StripLifetimes(t, gs);
    assert t3 == t;
  }

  /** A name can be assigned to the generic of the same name. */
  lemma AssignableToGeneric(name: string, gs: Generics)
    requires TypeParamNames(gs.params) == [name]
    ensures B.TypeAssignable(Named(name), Named(name), gs, [])
  {
    RenderNamed(name);
    assert B.ResolveType(Named(name), []) == Named(name);
    assert name in B.FromGenerics(gs).types;
  }

  /** Related types whose erasures succeed compare by the lengths of the erased renderings. */
  lemma ByLength(a: Constraint, b: Constraint, stripStatic: bool, x: Ty, y: Ty)
    requires Norm(a.type_).Some? && Norm(b.type_).Some? && Related(a, b)
    requires Erased(Norm(a.type_).value, a.generics, stripStatic) == Some(x)
    requires Erased(Norm(b.type_).value, b.generics, stripStatic) == Some(y)
    ensures CmpTypeOrLifetime(a, b, stripStatic) == Some(CmpInt(|Render(x)|, |Render(y)|))
  {
  }

  /** From the tests: the concrete type `T` is more specific than the generic `T` of `<T>`. */
  lemma ConcreteBeatsGenericExample()
    ensures Compare(Default().(type_ := Some(Named("T"))),
                    Default().(generics := Generics([TypeParam("T", [])], []), type_ := Some(Named("T")))) == Some(Greater)
  {
    var gs := Generics([TypeParam("T", [])], []);
    var a := Default().(type_ := Some(Named("T")));
    var b := Default().(generics := gs, type_ := Some(Named("T")));
    RenderNamed("T");
    assert TypeParamNames(gs.params) == ["T"];
    assert Norm(a.type_) == Norm(b.type_) == Some(Named("T"));
    AssignableToGeneric("T", gs);
    assert Related(a, b);
    assert TypeParamNames(Default().generics.params) == [];
    ErasedPlain("T", Default().generics, true);
    ErasedPlain("T", Default().generics, false);
    ErasedGeneric("T", gs, true);
    ErasedGeneric("T", gs, false);
    ByLength(a, b, true, Named("T"), Empty);
    ByLength(a, b, false, Named("T"), Empty);
    RenderEmpty();
  }

  /** The type `TypeA<x>` of the tests. */
  function TypeA(x: Ty): (r: Ty)
    ensures r.Path? && |r.segs| == 1 && r.segs[0].ident == "TypeA"
  {
    Path([Segment("TypeA", Angle([TypeArg(x)]))])
  }

  lemma RenderTypeA(x: Ty)
    ensures Render(TypeA(x)) == "TypeA" + (" < " + Render(x) + " >")
  {
    var xs := RenderAngleJoin("TypeA", [TypeArg(x)]);
    var ys := RenderPathJoin(TypeA(x).segs);
  }

  /** `TypeA<x>` mentions no lifetime when `x` does not. */
  lemma TypeANoLifetime(x: Ty)
    requires forall l :: !HasLifetime(x, l)
    ensures forall l :: !HasLifetime(TypeA(x), l)
  {
    forall l ensures !HasLifetime(TypeA(x), l) {
      assert !ArgHasLifetime(TypeArg(x), l);
      assert !SegHasLifetime(TypeA(x).segs[0], l);
    }
  }

  /** Resolving `TypeA<x>` without aliases leaves it as it is when it leaves `x` as it is. */
  lemma ResolveTypeA(x: Ty)
    requires B.ResolveType(x, []) == x
    ensures B.ResolveType(TypeA(x), []) == TypeA(x)
  {
    assert B.PathAlias(TypeA(x).segs, []) == None;
    ResolveTypeASegment(x);
    assert B.ResolveSegments(TypeA(x).segs, []) == TypeA(x).segs;
    assert UnwrapParens(TypeA(x)) == TypeA(x);
  }

  lemma ResolveTypeASegment(x: Ty)
    requires B.ResolveType(x, []) == x
    ensures B.ResolveSegment(TypeA(x).segs[0], []) == TypeA(x).segs[0]
  {
    var s' := B.ResolveSegment(TypeA(x).segs[0], []);
    assert s'.args.Angle? && |s'.args.args| == 1;
    assert s'.args.args[0] == B.ResolveArg(TypeArg(x), []) == TypeArg(x);
    assert s'.args.args == [TypeArg(x)];
  }

  /** Replacing inside `TypeA<x>` replaces inside `x`, when neither the whole type nor the
    * identifier `TypeA` is the one replaced. */
  lemma ReplaceInTypeA(x: Ty, prev: Ty, x': Ty)
    requires Render(TypeA(x)) != Render(prev) && Render(prev) != "TypeA"
    requires B.ReplaceType(x, prev, Empty) == Ok(x')
    ensures B.ReplaceType(TypeA(x), prev, Empty) == Ok(TypeA(x'))
  {
    var t := TypeA(x);
    assert [TypeArg(x)][1..] == [];
    assert B.ReplaceArg(TypeArg(x), prev, Empty) == Ok(TypeArg(x'));
    assert B.ReplaceArgs([], prev, Empty) == Ok([]) && [TypeArg(x')] + [] == [TypeArg(x')];
    assert B.ReplaceArgs([TypeArg(x)], prev, Empty) == Ok([TypeArg(x')]);
    assert B.ReplaceSegment(t.segs[0], prev, Empty) == Ok(TypeA(x').segs[0]);
    assert t.segs[1..] == [];
    assert B.ReplaceSegments([], prev, Empty) == Ok([]) && TypeA(x').segs == [TypeA(x').segs[0]] + [];
    assert B.ReplaceSegments(t.segs, prev, Empty) == Ok(TypeA(x').segs);
  }

  /** `replace_fn` on a type whose `_` are replaced by `t1` and which then has no lifetime: the
    * generics are erased from `t1`. */
  lemma ErasedVia(t: Ty, gs: Generics, stripStatic: bool, t1: Ty, t': Ty)
    requires B.ReplaceType(t, Infer, Empty) == Ok(t1) && forall l :: !HasLifetime(t1, l)
    requires EraseGenerics(t1, TypeParamNames(gs.params)) == Some(t')
    ensures Erased(t, gs, stripStatic) == Some(t')
  {
    StripNothing(t1, gs);
    StripNothing(t1, StaticOnly);
  }

  /** A plain name mentions no lifetime. */
  lemma NamedNoLifetime(name: string)
    ensures forall l :: !HasLifetime(Named(name), l)
  {
    assert forall l :: !SegHasLifetime(Named(name).segs[0], l);
  }

  /** What `replace_fn` makes of `TypeA<x>` under generics without type parameters, when `x`
    * is a plain name or `_`. */
  lemma ErasedTypeA(x: Ty, gs: Generics, stripStatic: bool)
    requires x == Infer || (x.Path? && |x.segs| == 1 && x == Named(x.segs[0].ident) && x.segs[0].ident != "_")
    requires TypeParamNames(gs.params) == []
    ensures Erased(TypeA(x), gs, stripStatic) == Some(TypeA(if x == Infer then Empty else x))
  {
    var x' := if x == Infer then Empty else x;
    RenderTypeA(x);
    if x == Infer {
      assert B.ReplaceType(x, Infer, Empty) == Ok(Empty);
    } else {
      RenderNamed(x.segs[0].ident);
      NamedNoLifetime(x.segs[0].ident);
      assert !B.Occurs(x, "_");
      assert B.ReplaceType(x, Infer, Empty) == Ok(x);
    }
    ReplaceInTypeA(x, Infer, x');
    TypeANoLifetime(x');
    ErasedVia(TypeA(x), gs, stripStatic, TypeA(x'), TypeA(x'));
  }

  /** `TypeA<T>` has no `_` to replace. */
  lemma TypeANamedNoInfer(name: string)
    requires name != "_"
    ensures B.ReplaceType(TypeA(Named(name)), Infer, Empty) == Ok(TypeA(Named(name)))
  {
    var t := TypeA(Named(name));
    RenderNamed(name);
    RenderTypeA(Named(name));
    assert !B.Occurs(Named(name), "_");
    assert !B.SegmentOccurs(t.segs[0], "_");
  }

  /** What `replace_fn` makes of `TypeA<T>` under `<T>`: the generic is erased. */
  lemma ErasedTypeAGeneric(stripStatic: bool)
    ensures Erased(TypeA(Named("T")), Generics([TypeParam("T", [])], []), stripStatic) == Some(TypeA(Empty))
  {
    var gs := Generics([TypeParam("T", [])], []);
    var t := TypeA(Named("T"));
    TypeANamedNoInfer("T");
    NamedNoLifetime("T");
    TypeANoLifetime(Named("T"));
    assert TypeParamNames(gs.params) == ["T"];
    EraseTypeAGeneric();
    ErasedVia(t, gs, stripStatic, t, TypeA(Empty));
  }

  lemma EraseTypeAGeneric()
    ensures EraseGenerics(TypeA(Named("T")), ["T"]) == Some(TypeA(Empty))
  {
    RenderNamed("T");
    RenderTypeA(Named("T"));
    assert B.ReplaceType(Named("T"), Named("T"), Empty) == Ok(Empty);
    ReplaceInTypeA(Named("T"), Named("T"), Empty);
    assert ["T"][1..] == [];
    assert EraseGenerics(TypeA(Empty), []) == Some(TypeA(Empty));
  }

  /** Related types whose erasures are the same under both comparisons, the first longer than
    * the second: the first constraint is the greater. */
  lemma GreaterByLength(a: Constraint, b: Constraint, x: Ty, y: Ty)
    requires Norm(a.type_).Some? && Norm(b.type_).Some? && Related(a, b)
    requires Erased(Norm(a.type_).value, a.generics, true) == Erased(Norm(a.type_).value, a.generics, false) == Some(x)
    requires Erased(Norm(b.type_).value, b.generics, true) == Erased(Norm(b.type_).value, b.generics, false) == Some(y)
    requires |Render(x)| > |Render(y)|
    ensures Compare(a, b) == Some(Greater)
  {
    ByLength(a, b, true, x, y);
    ByLength(a, b, false, x, y);
  }

  /** `TypeA<TypeB>` renders longer than `TypeA<>` with an empty argument. */
  lemma TypeALonger()
    ensures |Render(TypeA(Named("TypeB")))| > |Render(TypeA(Empty))|
  {
    RenderNamed("TypeB");
    RenderTypeA(Named("TypeB"));
    RenderTypeA(Empty);
    RenderEmpty();
  }

  /** `TypeA<TypeB>` fits `TypeA<_>` without generics. */
  lemma TypeAFitsWildcard()
    ensures B.TypeAssignable(TypeA(Named("TypeB")), TypeA(Infer), Generics([], []), [])
  {
    RenderNamed("TypeB");
    assert B.ResolveType(Named("TypeB"), []) == Named("TypeB");
    ResolveTypeA(Named("TypeB"));
    ResolveTypeA(Infer);
    assert B.FromGenerics(Generics([], [])) == B.NoGenerics();
    B.GoOneSegment("TypeA", [TypeArg(Named("TypeB"))], [TypeArg(Infer)], B.NoGenerics());
    B.InferArgMatches(Named("TypeB"));
    assert B.CanAssign(TypeA(Named("TypeB")), TypeA(Infer), B.NoGenerics()).0;
  }

  /** `TypeA<TypeB>` fits `TypeA<T>` under `<T>`, binding `T` to `TypeB`. */
  lemma TypeAFitsGeneric()
    ensures B.TypeAssignable(TypeA(Named("TypeB")), TypeA(Named("T")), Generics([TypeParam("T", [])], []), [])
  {
    var gs := Generics([TypeParam("T", [])], []);
    RenderNamed("TypeB");
    RenderNamed("T");
    assert B.ResolveType(Named("TypeB"), []) == Named("TypeB");
    assert B.ResolveType(Named("T"), []) == Named("T");
    ResolveTypeA(Named("TypeB"));
    ResolveTypeA(Named("T"));
    var g := B.FromGenerics(gs);
    assert TypeParamNames(gs.params) == ["T"];
    assert "T" in g.types && g.types["T"].None? && "TypeA" !in g.types;
    B.GoOneSegment("TypeA", [TypeArg(Named("TypeB"))], [TypeArg(Named("T"))], g);
    B.BindUnbound(Named("TypeB"), "T", g, true, 0);
    assert [TypeArg(Named("TypeB"))][1..] == [] && [TypeArg(Named("T"))][1..] == [];
    assert B.GoArgs([TypeArg(Named("TypeB"))], [TypeArg(Named("T"))], g, true, 0).Done?;
    assert B.CanAssign(TypeA(Named("TypeB")), TypeA(Named("T")), g).0;
  }

  /** From the tests: `TypeA<TypeB>` is more specific than `TypeA<_>`. */
  lemma ConcreteBeatsWildcardArgExample()
    ensures Compare(Default().(type_ := Some(TypeA(Named("TypeB")))), Default().(type_ := Some(TypeA(Infer)))) == Some(Greater)
  {
    var a := Default().(type_ := Some(TypeA(Named("TypeB"))));
    var b := Default().(type_ := Some(TypeA(Infer)));
    RenderTypeA(Named("TypeB"));
    RenderTypeA(Infer);
    assert Norm(a.type_) == a.type_ && Norm(b.type_) == b.type_;
    TypeAFitsWildcard();
    assert Related(a, b);
    assert TypeParamNames(Default().generics.params) == [];
    ErasedTypeA(Named("TypeB"), Default().generics, true);
    ErasedTypeA(Named("TypeB"), Default().generics, false);
    ErasedTypeA(Infer, Default().generics, true);
    ErasedTypeA(Infer, Default().generics, false);
    TypeALonger();
    GreaterByLength(a, b, TypeA(Named("TypeB")), TypeA(Empty));
  }

  /** From the tests: `TypeA<TypeB>` is more specific than `TypeA<T>` under `<T>`. */
  lemma ConcreteBeatsGenericArgExample()
    ensures Compare(Default().(type_ := Some(TypeA(Named("TypeB")))),
                    Default().(generics := Generics([TypeParam("T", [])], []), type_ := Some(TypeA(Named("T"))))) == Some(Greater)
  {
    var gs := Generics([TypeParam("T", [])], []);
    var a := Default().(type_ := Some(TypeA(Named("TypeB"))));
    var b := Default().(generics := gs, type_ := Some(TypeA(Named("T"))));
    RenderTypeA(Named("TypeB"));
    RenderTypeA(Named("T"));
    assert Norm(a.type_) == a.type_ && Norm(b.type_) == b.type_;
    TypeAFitsGeneric();
    assert Related(a, b);
    assert TypeParamNames(Default().generics.params) == [];
    ErasedTypeA(Named("TypeB"), Default().generics, true);
    ErasedTypeA(Named("TypeB"), Default().generics, false);
    ErasedTypeAGeneric(true);
    ErasedTypeAGeneric(false);
    TypeALonger();
    GreaterByLength(a, b, TypeA(Named("TypeB")), TypeA(Empty));
  }

  /** Distinct names that are not `_` are not assignable either way without generics. */
  lemma UnrelatedNames(x: string, y: string)
    requires x != y && x != "_" && y != "_"
    ensures !B.TypeAssignable(Named(x), Named(y), Generics([], []), [])
  {
    assert B.ResolveType(Named(x), []) == Named(x);
    assert B.ResolveType(Named(y), []) == Named(y);
    assert B.FromGenerics(Generics([], [])) == B.NoGenerics();
    B.NamesMatch(x, y, B.NoGenerics(), true, 0);
  }

  /** From the tests: constraints with the same counts and unrelated types are equal, whatever
    * the names. */
  lemma EqualConstraintsExample()
    ensures Compare(Constraint(Generics([], []), Some(Named("TypeA")), ["Trait1"], [Named("NotType1")], ["NotTrait1"]),
                    Constraint(Generics([], []), Some(Named("TypeB")), ["Trait2"], [Named("NotType2")], ["NotTrait2"])) == Some(Equal)
  {
    var a := Constraint(Generics([], []), Some(Named("TypeA")), ["Trait1"], [Named("NotType1")], ["NotTrait1"]);
    var b := Constraint(Generics([], []), Some(Named("TypeB")), ["Trait2"], [Named("NotType2")], ["NotTrait2"]);
    RenderNamed("TypeA");
    RenderNamed("TypeB");
    assert Norm(a.type_) == Some(Named("TypeA")) && Norm(b.type_) == Some(Named("TypeB"));
    UnrelatedNames("TypeA", "TypeB");
    UnrelatedNames("TypeB", "TypeA");
    assert !Related(a, b);
  }

  /** From the tests: no type and the type `_` are the same. */
  lemma OnlyWildcardExample()
    ensures Compare(Default(), Default().(type_ := Some(Infer))) == Some(Equal)
  {
    WildcardIsAbsent(Default(), Default());
    CompareAntisymmetric(Default(), Default().(type_ := Some(Infer)));
    CountsDecide(Default(), Default());
  }

  /** A reference to a plain name, with the lifetimes of `gs` stripped. */
  lemma StripRef(l: Option<string>, m: bool, name: string, gs: Generics)
    ensures B.StripLifetimes(Ref(l, m, Named(name)), gs) ==
      Ref(if l.Some? && l.value in LifetimeParamNames(gs.params) then None else l, m, Named(name))
  {
    var f := B.StripFrom(LifetimeParamNames(gs.params));
    assert forall x :: !HasLifetime(Named(name), x) by {
      assert forall x :: !SegHasLifetime(Segment(name, NoArgs), x);
    }
    MapLifetimesFixes(Named(name), f);
  }

  lemma RenderRefName(l: Option<string>, m: bool, name: string)
    ensures |Render(Ref(l, m, Named(name)))| == 2 + (if l.Some? then |l.value| + 1 else 0) + (if m then 4 else 0) + |name|
    ensures Render(Ref(l, m, Named(name))) != "_"
  {
    RenderNamed(name);
  }

  /** What `replace_fn` makes of `&'l name` when `name` is not a generic. */
  lemma ErasedRef(l: Option<string>, m: bool, name: string, gs: Generics, stripStatic: bool)
    requires name != "_" && TypeParamNames(gs.params) == []
    ensures var kept := if l.Some? && (l.value in LifetimeParamNames(gs.params) || (stripStatic && l.value == "'static")) then None else l;
      Erased(Ref(l, m, Named(name)), gs, stripStatic) == Some(Ref(kept, m, Named(name)))
  {
    var t := Ref(l, m, Named(name));
    RenderNamed(name);
    assert B.ReplaceType(Named(name), Infer, Empty) == Ok(Named(name));
    RenderRefName(l, m, name);
    assert B.ReplaceType(t, Infer, Empty) == Ok(t);
    StripRef(l, m, name, gs);
    var l2 := if l.Some? && l.value in LifetimeParamNames(gs.params) then None else l;
    StripRef(l2, m, name, StaticOnly);
    assert LifetimeParamNames(StaticOnly.params) == {"'static"};
  }

  lemma BindStatic()
    ensures B.CheckLifetime(Some("'static"), Some("'a"), map["'a" := None], true) == (true, map["'a" := Some("'static")])
  {
    var lts: map<string, Option<string>> := map["'a" := None];
    assert lts["'a" := Some("'static")] == map["'a" := Some("'static")];
  }

  /** `&'static T` can be assigned to `&'a T` under `<'a>`: the lifetime generic binds. */
  lemma StaticAssignable()
    ensures B.TypeAssignable(Ref(Some("'static"), false, Named("T")), Ref(Some("'a"), false, Named("T")), Generics([LifetimeParam("'a", [])], []), [])
  {
    var gs := Generics([LifetimeParam("'a", [])], []);
    var t1, t2 := Ref(Some("'static"), false, Named("T")), Ref(Some("'a"), false, Named("T"));
    RenderNamed("T");
    assert B.ResolveType(Named("T"), []) == Named("T");
    assert B.ResolveType(t1, []) == t1 && B.ResolveType(t2, []) == t2;
    var g := B.FromGenerics(gs);
    assert LifetimeParamNames(gs.params) == {"'a"} && TypeParamNames(gs.params) == [];
    assert g == B.ConstrainedGenerics(map[], map["'a" := None]);
    var g1 := B.ConstrainedGenerics(map[], map["'a" := Some("'static")]);
    BindStatic();
    B.NamesMatch("T", "T", g1, true, 0);
    assert B.Go(t1, t2, g, true, 0) == B.Done(true, g1);
    assert B.CanAssign(t1, t2, g).0;
  }

  /** `&'static T` and `&'a T` are related, and the generics involved declare no type. */
  lemma StaticLifetimeRelated(a: Constraint, b: Constraint)
    requires a == Default().(type_ := Some(Ref(Some("'static"), false, Named("T"))))
    requires b == Default().(generics := Generics([LifetimeParam("'a", [])], []), type_ := Some(Ref(Some("'a"), false, Named("T"))))
    ensures Norm(a.type_) == a.type_ && Norm(b.type_) == b.type_ && Related(a, b)
  {
    RenderRefName(Some("'static"), false, "T");
    RenderRefName(Some("'a"), false, "T");
    StaticAssignable();
  }

  /** Compared as types, `&'static T` and `&'a T` are equal. */
  lemma StaticLifetimeTypes(a: Constraint, b: Constraint)
    requires a == Default().(type_ := Some(Ref(Some("'static"), false, Named("T"))))
    requires b == Default().(generics := Generics([LifetimeParam("'a", [])], []), type_ := Some(Ref(Some("'a"), false, Named("T"))))
    ensures CmpTypeOrLifetime(a, b, true) == Some(Equal)
  {
    StaticLifetimeRelated(a, b);
    ErasedRef(Some("'static"), false, "T", Default().generics, true);
    ErasedRef(Some("'a"), false, "T", b.generics, true);
    ByLength(a, b, true, Ref(None, false, Named("T")), Ref(None, false, Named("T")));
  }

  /** Compared as lifetimes, `'static` is the more specific. */
  lemma StaticLifetimeLifetimes(a: Constraint, b: Constraint)
    requires a == Default().(type_ := Some(Ref(Some("'static"), false, Named("T"))))
    requires b == Default().(generics := Generics([LifetimeParam("'a", [])], []), type_ := Some(Ref(Some("'a"), false, Named("T"))))
    ensures CmpTypeOrLifetime(a, b, false) == Some(Greater)
  {
    StaticLifetimeRelated(a, b);
    RenderRefName(Some("'static"), false, "T");
    RenderRefName(None, false, "T");
    ErasedRef(Some("'static"), false, "T", Default().generics, false);
    ErasedRef(Some("'a"), false, "T", b.generics, false);
    ByLength(a, b, false, Ref(Some("'static"), false, Named("T")), Ref(None, false, Named("T")));
  }

  /** From the tests: `&'static T` and `&'a T` (with `<'a>`) are the same type once lifetimes
    * are stripped, but `'static` is the more specific lifetime, which decides the comparison. */
  lemma StaticLifetimeExample()
    ensures var a := Default().(type_ := Some(Ref(Some("'static"), false, Named("T"))));
      var b := Default().(generics := Generics([LifetimeParam("'a", [])], []), type_ := Some(Ref(Some("'a"), false, Named("T"))));
      Compare(a, b) == Some(Greater)
  {
    var a := Default().(type_ := Some(Ref(Some("'static"), false, Named("T"))));
    var b := Default().(generics := Generics([LifetimeParam("'a", [])], []), type_ := Some(Ref(Some("'a"), false, Named("T"))));
    StaticLifetimeTypes(a, b);
    StaticLifetimeLifetimes(a, b);
  }

  /** `&mut u8` can be assigned to `&u8`: `can_assign` does not look at `mut`. */
  lemma MutAssignable()
    ensures B.TypeAssignable(Ref(None, true, Named("u8")), Ref(None, false, Named("u8")), Default().generics, [])
  {
    var gs := Default().generics;
    var t1, t2 := Ref(None, true, Named("u8")), Ref(None, false, Named("u8"));
    RenderNamed("u8");
    assert B.ResolveType(Named("u8"), []) == Named("u8");
    assert B.ResolveType(t1, []) == t1 && B.ResolveType(t2, []) == t2;
    var g := B.FromGenerics(gs);
    assert LifetimeParamNames(gs.params) == {} && TypeParamNames(gs.params) == [];
    assert g == B.ConstrainedGenerics(map[], map[]);
    B.NamesMatch("u8", "u8", g, true, 0);
    assert B.Go(t1, t2, g, true, 0) == B.Done(true, g);
    assert B.CanAssign(t1, t2, g).0;
  }

  /** `&mut u8` and `&u8` are related, and each keeps its own rendering when erased. */
  lemma MutRefErased(a: Constraint, b: Constraint, stripStatic: bool)
    requires a == Default().(type_ := Some(Ref(None, true, Named("u8"))))
    requires b == Default().(type_ := Some(Ref(None, false, Named("u8"))))
    ensures CmpTypeOrLifetime(a, b, stripStatic) == Some(Greater)
  {
    RenderRefName(None, true, "u8");
    RenderRefName(None, false, "u8");
    MutAssignable();
    assert Related(a, b);
    ErasedRef(None, true, "u8", Default().generics, stripStatic);
    ErasedRef(None, false, "u8", Default().generics, stripStatic);
    ByLength(a, b, stripStatic, Ref(None, true, Named("u8")), Ref(None, false, Named("u8")));
  }

  /** `T = &mut u8` is ranked above `T = &u8`: the matcher relates the two, and the rendering
    * `& mut u8` is the longer. */
  lemma MutRefExample()
    ensures var a := Default().(type_ := Some(Ref(None, true, Named("u8"))));
      var b := Default().(type_ := Some(Ref(None, false, Named("u8"))));
      Compare(a, b) == Some(Greater)
  {
    var a := Default().(type_ := Some(Ref(None, true, Named("u8"))));
    var b := Default().(type_ := Some(Ref(None, false, Named("u8"))));
    MutRefErased(a, b, true);
    MutRefErased(a, b, false);
  }

  // ------------------------------------------------------------ comparing maps

  /** `inner.get(key).unwrap_or(&default)`. */
  function Get(cs: Constraints, k: string): (c: Constraint)
    ensures k !in cs ==> c == Default()
  {
    if k in cs then cs[k] else Default()
  }

  /** A comparison of single constraints; `None` is a panic. The map comparison below is
    * stated for any such comparison and used with `Compare`. */
  type Cmp = (Constraint, Constraint) -> Option<Ordering>

  /** Swapping the arguments reverses the answer, a panic staying a panic. */
  ghost predicate Antisymmetric(cmp: Cmp) {
    forall x, y :: cmp(y, x) == ReverseOpt(cmp(x, y))
  }

  lemma CompareIsAntisymmetric()
    ensures Antisymmetric(Compare)
  {
    forall x, y ensures Compare(y, x) == ReverseOpt(Compare(x, y)) {
      CompareAntisymmetric(x, y);
    }
  }

  /** The vote of one key: a missing constraint is the default one. */
  function Vote(cmp: Cmp, a: Constraints, b: Constraints, k: string): (r: Option<int>)
    ensures r.Some? ==> -1 <= r.value <= 1
    ensures r.Some? <==> cmp(Get(a, k), Get(b, k)).Some?
    ensures r == Some(1) <==> cmp(Get(a, k), Get(b, k)) == Some(Greater)
    ensures r == Some(-1) <==> cmp(Get(a, k), Get(b, k)) == Some(Less)
  {
    match cmp(Get(a, k), Get(b, k))
    case None => None
    case Some(o) => Some(match o case Greater => 1 case Less => -1 case Equal => 0)
  }

  ghost predicate AllVote(cmp: Cmp, a: Constraints, b: Constraints, keys: set<string>) {
    forall k :: k in keys ==> Vote(cmp, a, b, k).Some?
  }

  /** The sum of the votes over `keys`, in any order. */
  ghost function VoteSum(cmp: Cmp, a: Constraints, b: Constraints, keys: set<string>): int
    requires AllVote(cmp, a, b, keys)
    decreases |keys|
  {
    if keys == {} then 0
    else
      var k :| k in keys;
      Vote(cmp, a, b, k).value + VoteSum(cmp, a, b, keys - {k})
  }

  lemma {:induction false} VoteSumRemove(cmp: Cmp, a: Constraints, b: Constraints, keys: set<string>, k: string)
    requires AllVote(cmp, a, b, keys) && k in keys
    ensures VoteSum(cmp, a, b, keys) == Vote(cmp, a, b, k).value + VoteSum(cmp, a, b, keys - {k})
    decreases |keys|
  {
    var j :| j in keys && VoteSum(cmp, a, b, keys) == Vote(cmp, a, b, j).value + VoteSum(cmp, a, b, keys - {j});
    if j != k {
      VoteSumRemove(cmp, a, b, keys - {j}, k);
      VoteSumRemove(cmp, a, b, keys - {k}, j);
      assert keys - {j} - {k} == keys - {k} - {j};
    }
  }

  /** The comparison of maps: a panic when some key's comparison panics, otherwise the sign
    * of the vote sum over the keys of both maps. */
  ghost function CmpWith(cmp: Cmp, a: Constraints, b: Constraints): Option<Ordering> {
    if AllVote(cmp, a, b, a.Keys + b.Keys) then Some(CmpInt(VoteSum(cmp, a, b, a.Keys + b.Keys), 0)) else None
  }

  /** `Ord for Constraints` as a specification. */
  ghost function CmpSpec(a: Constraints, b: Constraints): Option<Ordering> {
    CmpWith(Compare, a, b)
  }

  lemma {:induction false} VoteSumSwap(cmp: Cmp, a: Constraints, b: Constraints, keys: set<string>)
    requires Antisymmetric(cmp) && AllVote(cmp, a, b, keys)
    ensures AllVote(cmp, b, a, keys) && VoteSum(cmp, b, a, keys) == -VoteSum(cmp, a, b, keys)
    decreases |keys|
  {
    forall k | k in keys ensures Vote(cmp, b, a, k).Some? && Vote(cmp, b, a, k).value == -Vote(cmp, a, b, k).value {
      assert cmp(Get(b, k), Get(a, k)) == ReverseOpt(cmp(Get(a, k), Get(b, k)));
    }
    if keys != {} {
      var k :| k in keys;
      VoteSumRemove(cmp, a, b, keys, k);
      VoteSumRemove(cmp, b, a, keys, k);
      VoteSumSwap(cmp, a, b, keys - {k});
    }
  }

  /** Swapping the maps reverses the comparison, panics included. */
  lemma CmpWithAntisymmetric(cmp: Cmp, a: Constraints, b: Constraints)
    requires Antisymmetric(cmp)
    ensures CmpWith(cmp, b, a) == ReverseOpt(CmpWith(cmp, a, b))
  {
    assert b.Keys + a.Keys == a.Keys + b.Keys;
    var keys := a.Keys + b.Keys;
    forall k | k in keys ensures Vote(cmp, b, a, k).Some? <==> Vote(cmp, a, b, k).Some? {
      assert cmp(Get(b, k), Get(a, k)) == ReverseOpt(cmp(Get(a, k), Get(b, k)));
    }
    if AllVote(cmp, a, b, keys) {
      VoteSumSwap(cmp, a, b, keys);
    }
  }

  /** `Ord for Constraints` is antisymmetric, panics included. */
  lemma CmpSpecAntisymmetric(a: Constraints, b: Constraints)
    ensures CmpSpec(b, a) == ReverseOpt(CmpSpec(a, b))
  {
    CompareIsAntisymmetric();
    CmpWithAntisymmetric(Compare, a, b);
  }

  /** Equal votes give equal sums. */
  lemma {:induction false} VoteSumCongruent(cmp: Cmp, a: Constraints, b: Constraints, a': Constraints, b': Constraints, keys: set<string>)
    requires AllVote(cmp, a, b, keys)
    requires forall k :: k in keys ==> Vote(cmp, a', b', k) == Vote(cmp, a, b, k)
    ensures AllVote(cmp, a', b', keys) && VoteSum(cmp, a', b', keys) == VoteSum(cmp, a, b, keys)
    decreases |keys|
  {
    if keys != {} {
      var k :| k in keys;
      VoteSumRemove(cmp, a, b, keys, k);
      VoteSumRemove(cmp, a', b', keys, k);
      VoteSumCongruent(cmp, a, b, a', b', keys - {k});
    }
  }

  /** Adding a default entry for a generic the right side does not constrain changes nothing,
    * for a comparison under which the default equals itself. */
  lemma DefaultEntryInert(cmp: Cmp, a: Constraints, b: Constraints, k: string)
    requires k !in b && cmp(Default(), Default()) == Some(Equal)
    ensures CmpWith(cmp, a, b[k := Default()]) == CmpWith(cmp, a, b)
  {
    var b' := b[k := Default()];
    var keys, keys' := a.Keys + b.Keys, a.Keys + b'.Keys;
    assert keys' == keys + {k};
    assert forall j :: Get(b', j) == Get(b, j);
    if AllVote(cmp, a, b, keys) {
      VoteSumCongruent(cmp, a, b, a, b', keys);
      if k !in keys {
        assert Get(a, k) == Default() && Get(b', k) == Default();
        assert Vote(cmp, a, b', k) == Some(0);
        assert AllVote(cmp, a, b', keys');
        VoteSumRemove(cmp, a, b', keys', k);
        assert keys' - {k} == keys;
        assert VoteSum(cmp, a, b', keys') == VoteSum(cmp, a, b, keys);
      } else {
        assert keys' == keys;
      }
    } else {
      var j :| j in keys && Vote(cmp, a, b, j).None?;
      assert j in keys' && Vote(cmp, a, b', j).None?;
    }
  }

  /** A missing constraint counts as the default one. */
  lemma DefaultEntryChangesNothing(a: Constraints, b: Constraints, k: string)
    requires k !in b
    ensures CmpSpec(a, b[k := Default()]) == CmpSpec(a, b)
  {
    CountsDecide(Default(), Default());
    DefaultEntryInert(Compare, a, b, k);
  }

  /** The comparison of one key, as the loop body performs it. */
  ghost method CompareConstraint(a: Constraint, b: Constraint) returns (r: Option<Ordering>)
    ensures r == Compare(a, b)
  {
    var t := CmpTypeOrLifetimeOf(a, b, true);
    var l := CmpTypeOrLifetimeOf(a, b, false);
    if t.None? || l.None? {
      return None;
    }
    r := Some(Then(t.value, Then(l.value, Then(CmpInt(|a.traits|, |b.traits|),
      Then(CmpInt(|a.notTypes|, |b.notTypes|), CmpInt(|a.notTraits|, |b.notTraits|))))));
  }

  /** `cmp_type_or_lifetime` with `replace_fn` run on both types. */
  ghost method CmpTypeOrLifetimeOf(a: Constraint, b: Constraint, stripStatic: bool) returns (r: Option<Ordering>)
    ensures r == CmpTypeOrLifetime(a, b, stripStatic)
  {
    var na, nb := Norm(a.type_), Norm(b.type_);
    if na.Some? && nb.Some? && Related(a, b) {
      var x := Erased(na.value, a.generics, stripStatic);
      var y := Erased(nb.value, b.generics, stripStatic);
      if x.None? || y.None? {
        return None;
      }
      return Some(CmpInt(|Render(x.value)|, |Render(y.value)|));
    }
    r := Some(CmpInt(BoolRank(na.Some?), BoolRank(nb.Some?)));
  }

  /** `replace_fn`: rewrites the type step by step. */
  method ReplaceFn(t: Ty, gs: Generics, stripStatic: bool) returns (r: Option<Ty>)
    ensures r == Erased(t, gs, stripStatic)
  {
    var first := B.ReplaceType(t, Infer, Empty);
    if first.Err? {
      return None;
    }
    var ty := B.StripLifetimes(first.value, gs);
    if stripStatic {
      ty := B.StripLifetimes(ty, StaticOnly);
    }
    r := EraseEach(ty, TypeParamNames(gs.params));
  }

  /** The `for g in get_generics_types(generics)` loop: erases the generics one at a time. */
  method EraseEach(t: Ty, names: seq<string>) returns (r: Option<Ty>)
    ensures r == EraseGenerics(t, names)
  {
    var ty := t;
    var i := 0;
    while i < |names|
      invariant 0 <= i <= |names|
      invariant EraseGenerics(t, names) == EraseGenerics(ty, names[i..])
    {
      assert names[i..][1..] == names[i + 1..];
      var next := B.ReplaceType(ty, Named(names[i]), Empty);
      if next.Err? {
        return None;
      }
      ty := next.value;
      i := i + 1;
    }
    r := Some(ty);
  }

  /** `Ord for Constraints`: visits every key of either map once, adding up the votes. */
  ghost method CmpConstraints(a: Constraints, b: Constraints) returns (r: Option<Ordering>)
    ensures r == CmpSpec(a, b)
  {
    ghost var all := a.Keys + b.Keys;
    var keys := a.Keys + b.Keys;
    var sum := 0;
    while keys != {}
      invariant keys <= all
      invariant AllVote(Compare, a, b, all - keys)
      invariant AllVote(Compare, a, b, keys) ==> AllVote(Compare, a, b, all) && sum + VoteSum(Compare, a, b, keys) == VoteSum(Compare, a, b, all)
      decreases |keys|
    {
      var k :| k in keys;
      var o := CompareConstraint(Get(a, k), Get(b, k));
      if o.None? {
        assert !AllVote(Compare, a, b, all);
        return None;
      }
      var v := match o.value case Greater => 1 case Less => -1 case Equal => 0;
      if AllVote(Compare, a, b, keys) {
        VoteSumRemove(Compare, a, b, keys, k);
      }
      sum := sum + v;
      keys := keys - {k};
    }
    r := Some(CmpInt(sum, 0));
  }

  // ------------------------------------------------------------ from_iter

  /** `FromIterator`: inserting the pairs in order, so a later pair for the same generic wins. */
  function FromPairs(pairs: seq<(string, Constraint)>): (r: Constraints)
  {
    if pairs == [] then map[]
    else FromPairs(pairs[..|pairs| - 1])[pairs[|pairs| - 1].0 := pairs[|pairs| - 1].1]
  }

  /** The keys are the generics named. */
  lemma {:induction false} FromPairsKeys(pairs: seq<(string, Constraint)>)
    ensures forall k :: k in FromPairs(pairs) <==> exists i :: 0 <= i < |pairs| && pairs[i].0 == k
    decreases |pairs|
  {
    if pairs != [] {
      var init := pairs[..|pairs| - 1];
      FromPairsKeys(init);
      assert forall i :: 0 <= i < |init| ==> init[i] == pairs[i];
    }
  }

  /** Each generic maps to the last constraint given for it. */
  lemma {:induction false} FromPairsLast(pairs: seq<(string, Constraint)>)
    ensures forall i :: 0 <= i < |pairs| && (forall j :: i < j < |pairs| ==> pairs[j].0 != pairs[i].0) ==>
      pairs[i].0 in FromPairs(pairs) && FromPairs(pairs)[pairs[i].0] == pairs[i].1
    decreases |pairs|
  {
    if pairs != [] {
      var init := pairs[..|pairs| - 1];
      FromPairsLast(init);
      assert forall i :: 0 <= i < |init| ==> init[i] == pairs[i];
    }
  }

  method FromIter(pairs: seq<(string, Constraint)>) returns (r: Constraints)
    ensures r == FromPairs(pairs)
  {
    r := map[];
    var i := 0;
    while i < |pairs|
      invariant 0 <= i <= |pairs|
      invariant r == FromPairs(pairs[..i])
    {
      assert pairs[..i + 1][..i] == pairs[..i];
      r := r[pairs[i].0 := pairs[i].1];
      i := i + 1;
    }
    assert pairs[..|pairs|] == pairs;
  }
}
