// spec-trait-impl/crates/spec-trait-utils/src/specialize.rs: the later version of the
// specialisation helpers. Types are compared with `type_assignable` in both directions, the
// generic lists also hold lifetimes, and the generics a target still uses are collected by a
// visitor. The `types.rs` of this snapshot is not part of this model; its helpers are those of
// the backup snapshot (BackupTypes), whose signatures these calls match.

module ImplSpecialize {
  import opened Wrappers
  import opened Syntax
  import opened FreshNames
  import C = UtilsConditions
  import B = BackupTypes
  import US = UtilsSpecialize
  import UtilsTraits

  // ============================================================ get_assignable_conditions

  /** `diff_types` for one pair: neither type can be assigned to the other, under the generics
    * the source passes and no aliases. */
  ghost predicate Conflict(t: Ty, u: Ty, generics: Generics) {
    !B.TypeAssignable(t, u, generics, []) && !B.TypeAssignable(u, t, generics, [])
  }

  /** The `filter_map` arm: a trait condition is kept; a type condition is kept when its type
    * is the last (most specific) of the sorted types of its generic and conflicts with none of
    * them; `All`, `Any` and `Not` are dropped. `get_generic_types_from_conditions` is the same
    * function as in the other snapshot. */
  ghost predicate Assignable(c: C.WhenCondition, conds: seq<C.WhenCondition>, generics: Generics) {
    match c
    case Trait(_, _) => true
    case Type(g, t) =>
      var types := US.GetGenericTypesFromConditions(g, conds);
      |types| > 0 && types[|types| - 1] == t &&
      forall i :: 0 <= i < |types| ==> !Conflict(t, types[i], generics)
    case _ => false
  }

  /** The conditions of `cs` that survive against all of `conds`, in order. */
  ghost function Keep(cs: seq<C.WhenCondition>, conds: seq<C.WhenCondition>, generics: Generics): (r: seq<C.WhenCondition>)
    ensures |r| <= |cs|
    ensures forall c :: c in r <==> c in cs && Assignable(c, conds, generics)
  {
    if cs == [] then []
    else
      var rest := Keep(cs[1..], conds, generics);
      assert forall c :: c in cs <==> c == cs[0] || c in cs[1..];
      (if Assignable(cs[0], conds, generics) then [cs[0]] else []) + rest
  }

  /** `get_assignable_conditions`. */
  ghost function GetAssignableConditions(conds: seq<C.WhenCondition>, generics: Generics): (r: seq<C.WhenCondition>)
    ensures forall i :: 0 <= i < |r| ==> r[i].Trait? || r[i].Type?
    ensures forall c :: c in r ==> c in conds
  {
    var r := Keep(conds, conds, generics);
    assert forall i :: 0 <= i < |r| ==> r[i] in r;
    r
  }

  /** The kept conditions keep their input order: filtering works piece by piece. */
  lemma {:induction false} KeepAppend(a: seq<C.WhenCondition>, b: seq<C.WhenCondition>, conds: seq<C.WhenCondition>, generics: Generics)
    ensures Keep(a + b, conds, generics) == Keep(a, conds, generics) + Keep(b, conds, generics)
  {
    if a == [] {
      assert a + b == b;
    } else {
      var ab := a + b;
      var h := if Assignable(a[0], conds, generics) then [a[0]] else [];
      assert ab[0] == a[0] && ab[1..] == a[1..] + b;
      assert Keep(ab, conds, generics) == h + Keep(a[1..] + b, conds, generics);
      KeepAppend(a[1..], b, conds, generics);
    }
  }

  /** Every trait condition is kept, in its place among the other trait conditions. */
  lemma {:induction false} AssignableKeepsTraits(cs: seq<C.WhenCondition>, conds: seq<C.WhenCondition>, generics: Generics)
    ensures US.Traits(Keep(cs, conds, generics)) == US.Traits(cs)
  {
    if cs != [] {
      AssignableKeepsTraits(cs[1..], conds, generics);
      var rest := Keep(cs[1..], conds, generics);
      if Assignable(cs[0], conds, generics) {
        assert ([cs[0]] + rest)[1..] == rest;
      } else {
        assert !cs[0].Trait?;
        assert Keep(cs, conds, generics) == rest;
        assert US.Traits(cs) == US.Traits(cs[1..]);
      }
    }
  }

  /** At most one type survives for each generic; it is the most specific one and conflicts
    * with none of the generic's types. */
  lemma AssignableOnePerGeneric(conds: seq<C.WhenCondition>, generics: Generics, g: string, t1: Ty, t2: Ty)
    requires C.Type(g, t1) in GetAssignableConditions(conds, generics)
    requires C.Type(g, t2) in GetAssignableConditions(conds, generics)
    ensures t1 == t2
    ensures forall u :: C.Type(g, u) in conds ==> US.Key(u) <= US.Key(t1) && !Conflict(t1, u, generics)
  {
    var types := US.GetGenericTypesFromConditions(g, conds);
    US.GenericTypesCorrect(g, conds);
    assert Assignable(C.Type(g, t1), conds, generics);
    forall u | C.Type(g, u) in conds ensures US.Key(u) <= US.Key(t1) && !Conflict(t1, u, generics) {
      assert u in types;
      var i :| 0 <= i < |types| && types[i] == u;
      assert i == |types| - 1 || US.Key(types[i]) <= US.Key(types[|types| - 1]);
    }
  }

  /** Two types of one generic of which neither can be assigned to the other: if they are its
    * only types, no type condition on it survives. */
  lemma AssignableConflict(conds: seq<C.WhenCondition>, generics: Generics, g: string, a: Ty, b: Ty)
    requires C.Type(g, a) in conds && C.Type(g, b) in conds
    requires forall u :: C.Type(g, u) in conds ==> u == a || u == b
    requires Conflict(a, b, generics)
    ensures forall t :: C.Type(g, t) !in GetAssignableConditions(conds, generics)
  {
    forall t | C.Type(g, t) in GetAssignableConditions(conds, generics) ensures false {
      AssignableOnePerGeneric(conds, generics, g, t, t);
    }
  }

  /** A generic whose type conditions all name the same type keeps that condition, when the
    * type can be assigned to itself. */
  lemma AssignableUniform(conds: seq<C.WhenCondition>, generics: Generics, g: string, t: Ty)
    requires C.Type(g, t) in conds
    requires forall u :: C.Type(g, u) in conds ==> u == t
    requires B.TypeAssignable(t, t, generics, [])
    ensures C.Type(g, t) in GetAssignableConditions(conds, generics)
  {
    var types := US.GetGenericTypesFromConditions(g, conds);
    US.GenericTypesCorrect(g, conds);
    assert t in types;
    assert forall i :: 0 <= i < |types| ==> types[i] == t by {
      forall i | 0 <= i < |types| ensures types[i] == t {
        assert types[i] in types;
      }
    }
    assert Assignable(C.Type(g, t), conds, generics);
  }

  /** The generics `<T>` of the tests. */
  function GenericsT(): Generics {
    Generics([TypeParam("T", [])], [])
  }

  /** Two distinct names that are not generics cannot be assigned to each other; a name can
    * be assigned to itself. */
  lemma NamesAssignable(x: string, y: string)
    requires x != "T" && y != "T" && y != "_"
    ensures B.TypeAssignable(Named(x), Named(y), GenericsT(), []) <==> x == y
  {
    var gs := GenericsT();
    var g := B.FromGenerics(gs);
    assert x !in g.types && y !in g.types;
    B.NamesMatch(x, y, g, true, 0);
    NameResolves(x);
    NameResolves(y);
  }

  lemma NameResolves(x: string)
    ensures B.ResolveType(Named(x), []) == Named(x)
  {
    assert B.ResolveSegment(Segment(x, NoArgs), []) == Segment(x, NoArgs);
  }

  /** A list whose conditions all survive is kept whole. */
  lemma {:induction false} KeepAll(cs: seq<C.WhenCondition>, conds: seq<C.WhenCondition>, generics: Generics)
    requires forall i :: 0 <= i < |cs| ==> Assignable(cs[i], conds, generics)
    ensures Keep(cs, conds, generics) == cs
  {
    if cs != [] {
      assert forall i :: 0 <= i < |cs| - 1 ==> cs[1..][i] == cs[i + 1];
      KeepAll(cs[1..], conds, generics);
    }
  }

  /** A list none of whose conditions survives is dropped whole. */
  lemma {:induction false} KeepNone(cs: seq<C.WhenCondition>, conds: seq<C.WhenCondition>, generics: Generics)
    requires forall i :: 0 <= i < |cs| ==> !Assignable(cs[i], conds, generics)
    ensures Keep(cs, conds, generics) == []
  {
    if cs != [] {
      assert forall i :: 0 <= i < |cs| - 1 ==> cs[1..][i] == cs[i + 1];
      KeepNone(cs[1..], conds, generics);
    }
  }

  /** The test with a trait and one type: both conditions are kept. */
  lemma AssignableSimpleExample(tr: C.WhenCondition, ty: C.WhenCondition)
    requires tr == C.Trait("T", ["Clone"]) && ty == C.Type("T", Named("String"))
    ensures GetAssignableConditions([tr, ty], GenericsT()) == [tr, ty]
  {
    var conds := [tr, ty];
    assert Assignable(ty, conds, GenericsT()) by {
      assert B.TypeAssignable(Named("String"), Named("String"), GenericsT(), []) by {
        NamesAssignable("String", "String");
      }
      AssignableUniform(conds, GenericsT(), "T", Named("String"));
    }
    KeepAll(conds, conds, GenericsT());
  }

  /** The test with a trait and two unrelated types: only the trait condition is kept. */
  lemma AssignableConflictExample(tr: C.WhenCondition, a: C.WhenCondition, b: C.WhenCondition)
    requires tr == C.Trait("T", ["Copy"]) && a == C.Type("T", Named("A")) && b == C.Type("T", Named("B"))
    ensures GetAssignableConditions([tr, a, b], GenericsT()) == [tr]
  {
    var conds := [tr, a, b];
    assert !Assignable(a, conds, GenericsT()) && !Assignable(b, conds, GenericsT()) by {
      assert Conflict(Named("A"), Named("B"), GenericsT()) by {
        NamesAssignable("A", "B");
        NamesAssignable("B", "A");
      }
      assert forall u :: C.Type("T", u) in conds ==> u == Named("A") || u == Named("B");
      AssignableConflict(conds, GenericsT(), "T", Named("A"), Named("B"));
    }
    KeepNone([a, b], conds, GenericsT());
    assert conds[1..] == [a, b];
  }

  // ============================================================ generic parameter lists

  /** The parameter `remove_generic` drops for `name`: a type parameter with that identifier or
    * a lifetime parameter with that lifetime. */
  predicate Declares(p: GenericParam, name: string) {
    IsTypeParamNamed(p, name) || IsLifetimeParamNamed(p, name)
  }

  function RemoveParams(ps: seq<GenericParam>, name: string): (r: seq<GenericParam>)
    ensures |r| <= |ps|
  {
    if ps == [] then []
    else RemoveParams(ps[..|ps| - 1], name) + (if Declares(ps[|ps| - 1], name) then [] else [ps[|ps| - 1]])
  }

  lemma {:induction false} RemoveParamsMembers(ps: seq<GenericParam>, name: string)
    ensures forall p :: p in RemoveParams(ps, name) <==> p in ps && !Declares(p, name)
    decreases |ps|
  {
    if ps != [] {
      var init := ps[..|ps| - 1];
      RemoveParamsMembers(init, name);
      assert ps == init + [ps[|ps| - 1]];
    }
  }

  /** `remove_generic`: every type or lifetime parameter called `name` leaves the list; every
    * other parameter stays, in order. */
  function RemoveGeneric(gs: Generics, name: string): (r: Generics)
    ensures r.wherePreds == gs.wherePreds
    ensures forall p :: p in r.params <==> p in gs.params && !Declares(p, name)
  {
    RemoveParamsMembers(gs.params, name);
    gs.(params := RemoveParams(gs.params, name))
  }

  /** `add_generic_lifetime`: one lifetime parameter without bounds, pushed at the end. */
  function AddGenericLifetime(gs: Generics, name: string): (r: Generics)
    ensures r.wherePreds == gs.wherePreds
    ensures |r.params| == |gs.params| + 1 && r.params[..|gs.params|] == gs.params
    ensures IsLifetimeParamNamed(r.params[|gs.params|], name) && r.params[|gs.params|].lbounds == []
  {
    gs.(params := gs.params + [LifetimeParam(name, [])])
  }

  /** Removing a generic removes exactly its name from the collected type names. */
  lemma {:induction false} CollectTypesAfterRemove(gs: Generics, name: string)
    ensures US.CollectGenericsTypes(RemoveGeneric(gs, name)) == US.Without(US.CollectGenericsTypes(gs), name)
    decreases |gs.params|
  {
    var ps := gs.params;
    if ps != [] {
      var init, last := ps[..|ps| - 1], ps[|ps| - 1];
      var tail := if Declares(last, name) then [] else [last];
      var ri := RemoveParams(init, name);
      assert RemoveParams(ps, name) == ri + tail;
      assert ps == init + [last];
      calc {
        TypeParamNames(ri + tail);
        { US.TypeParamNamesAppend(ri, tail); }
        TypeParamNames(ri) + TypeParamNames(tail);
        { CollectTypesAfterRemove(gs.(params := init), name); RemoveLast(last, name); }
        US.Without(TypeParamNames(init), name) + US.Without(TypeParamNames([last]), name);
        { US.WithoutAppend(TypeParamNames(init), TypeParamNames([last]), name); }
        US.Without(TypeParamNames(init) + TypeParamNames([last]), name);
        { US.TypeParamNamesAppend(init, [last]); }
        US.Without(TypeParamNames(ps), name);
      }
    }
  }

  /** Removing a generic removes exactly its name from the collected lifetime names. */
  lemma {:induction false} CollectLifetimesAfterRemove(gs: Generics, name: string)
    ensures US.CollectGenericsLifetimes(RemoveGeneric(gs, name)) == US.Without(US.CollectGenericsLifetimes(gs), name)
    decreases |gs.params|
  {
    var ps := gs.params;
    if ps != [] {
      var init, last := ps[..|ps| - 1], ps[|ps| - 1];
      var tail := if Declares(last, name) then [] else [last];
      var ri := RemoveParams(init, name);
      assert RemoveParams(ps, name) == ri + tail;
      assert ps == init + [last];
      calc {
        US.LifetimeNames(ri + tail);
        { US.LifetimeNamesAppend(ri, tail); }
        US.LifetimeNames(ri) + US.LifetimeNames(tail);
        { CollectLifetimesAfterRemove(gs.(params := init), name); RemoveLast(last, name); }
        US.Without(US.LifetimeNames(init), name) + US.Without(US.LifetimeNames([last]), name);
        { US.WithoutAppend(US.LifetimeNames(init), US.LifetimeNames([last]), name); }
        US.Without(US.LifetimeNames(init) + US.LifetimeNames([last]), name);
        { US.LifetimeNamesAppend(init, [last]); }
        US.Without(US.LifetimeNames(ps), name);
      }
    }
  }

  /** The names of one parameter, without `name`, are the names of what `remove_generic` keeps
    * of it. */
  lemma RemoveLast(p: GenericParam, name: string)
    ensures var tail := if Declares(p, name) then [] else [p];
            US.Without(TypeParamNames([p]), name) == TypeParamNames(tail) &&
            US.Without(US.LifetimeNames([p]), name) == US.LifetimeNames(tail)
  {
    assert [p][1..] == [];
    var ts := if p.TypeParam? then [p.name] else [];
    var ls := if p.LifetimeParam? then [p.name] else [];
    assert TypeParamNames([p]) == ts;
    assert US.LifetimeNames([p]) == ls;
    assert US.Without(ts, name) == if p.TypeParam? && p.name == name then [] else ts by {
      if ts != [] { assert ts[..0] == []; }
    }
    assert US.Without(ls, name) == if p.LifetimeParam? && p.name == name then [] else ls by {
      if ls != [] { assert ls[..0] == []; }
    }
  }

  /** Adding a lifetime appends its name to the collected lifetimes and leaves the types alone;
    * removing it again gives the list with that name removed. */
  lemma CollectAfterAddLifetime(gs: Generics, name: string)
    ensures US.CollectGenericsLifetimes(AddGenericLifetime(gs, name)) == US.CollectGenericsLifetimes(gs) + [name]
    ensures US.CollectGenericsTypes(AddGenericLifetime(gs, name)) == US.CollectGenericsTypes(gs)
    ensures RemoveGeneric(AddGenericLifetime(gs, name), name) == RemoveGeneric(gs, name)
  {
    var p := LifetimeParam(name, []);
    US.TypeParamNamesAppend(gs.params, [p]);
    US.LifetimeNamesAppend(gs.params, [p]);
    assert (gs.params + [p])[..|gs.params|] == gs.params;
  }

  /** `add_generic_type` is the same as in the other snapshot; removing the added type again
    * gives the list with that name removed. */
  lemma RemoveAfterAddType(gs: Generics, name: string)
    ensures RemoveGeneric(US.AddGenericType(gs, name), name) == RemoveGeneric(gs, name)
  {
    assert (gs.params + [TypeParam(name, [])])[..|gs.params|] == gs.params;
  }

  /** The collect/add/remove test: `<T, U: Trait>` gives `[T, U]`; without `T`, `[U]`; with `V`
    * added, `[U, V]`. */
  lemma CollectAddRemoveExample(t: GenericParam, u: GenericParam)
    requires t == TypeParam("T", []) && u == TypeParam("U", [TraitBound("Trait")])
    ensures var gs := Generics([t, u], []);
            US.CollectGenericsTypes(gs) == ["T", "U"] &&
            US.CollectGenericsTypes(RemoveGeneric(gs, "T")) == ["U"] &&
            US.CollectGenericsTypes(US.AddGenericType(RemoveGeneric(gs, "T"), "V")) == ["U", "V"]
  {
    var gs := Generics([t, u], []);
    US.TypeParamNamesAppend([t], [u]);
    assert [t] + [u] == [t, u];
    assert RemoveParams([t], "T") == [] by {
      assert [t][..0] == [];
    }
    assert RemoveParams([t, u], "T") == [u] by {
      assert [t, u][..1] == [t];
    }
    var v := TypeParam("V", []);
    US.TypeParamNamesAppend([u], [v]);
    assert [u] + [v] == [u, v];
  }

  // ============================================================ apply_type_condition

  /** The names `replace_infers` gives the `n` wildcards, starting from the type parameter names
    * of `generics` and counter 0. */
  ghost predicate WildcardNames(generics: Generics, n: nat, names: seq<string>) {
    exists s1: Namer :: Extends(B.G, Namer(US.TypeParamSet(generics), 0, []), s1, n) && s1.newGenerics == names
  }

  /** The `TypeReplacer` on every type of the target: `replace_type` with the generic given as a
    * string, which panics (`Err`) when a path segment named like the generic would be renamed to
    * a type that is not an identifier. */
  function ReplaceAll(types: seq<Ty>, g: string, repl: Ty): (r: Result<seq<Ty>>)
    ensures r.Ok? ==> |r.value| == |types|
  {
    CollectResults(types, (t: Ty) => B.ReplaceType(t, Named(g), repl))
  }

  /** The replacement succeeds whenever the new type renders as an identifier; then an item
    * that is the generic becomes the new type, an item without the generic is unchanged, and
    * every other item is `replace_type` of it. */
  lemma ReplaceAllCorrect(types: seq<Ty>, g: string, repl: Ty)
    ensures IsIdent(Render(repl)) ==> ReplaceAll(types, g, repl).Ok?
    ensures var r := ReplaceAll(types, g, repl);
            r.Ok? ==> forall k :: 0 <= k < |types| ==>
              Ok(r.value[k]) == B.ReplaceType(types[k], Named(g), repl) &&
              (types[k] == Named(g) ==> r.value[k] == repl) &&
              (!B.Occurs(types[k], g) ==> r.value[k] == types[k])
  {
    var f := (t: Ty) => B.ReplaceType(t, Named(g), repl);
    CollectResultsOk(types, f);
    RenderNamed(g);
    var r := ReplaceAll(types, g, repl);
    if r.Ok? {
      forall k | 0 <= k < |types| ensures Ok(r.value[k]) == B.ReplaceType(types[k], Named(g), repl) {
        CollectResultsAt(types, f, k);
      }
    }
  }

  /** `apply_type_condition(target, generics, other_generics, impl_generic, type_)`: the
    * wildcards of the type get fresh names, which are pushed onto both lists; the target's
    * generic (type or lifetime) leaves `generics` and `impl_generic` leaves `other_generics`;
    * every mention of the target's generic in the items becomes the new type, which is
    * returned. */
  method ApplyTypeCondition(target: US.Target, generics: Generics, otherGenerics: Generics, implGeneric: string, ty: Ty)
    returns (target': Result<US.Target>, generics': Generics, otherGenerics': Generics, newType: Ty, ghost names: seq<string>)
    ensures WildcardNames(generics, InferCount(ty), names)
    ensures |names| == InferCount(ty) && newType == FillInfers(ty, names)
    ensures var ig := target.itemGeneric.UnwrapOr(implGeneric);
            generics' == RemoveGeneric(generics.(params := generics.params + UtilsTraits.Unbounded(names)), ig) &&
            otherGenerics' == RemoveGeneric(otherGenerics.(params := otherGenerics.params + UtilsTraits.Unbounded(names)), implGeneric) &&
            target' == (match ReplaceAll(target.types, ig, newType)
                        case Ok(ts) => Ok(target.(types := ts))
                        case Err(e) => Err(e))
  {
    var itemGeneric := target.itemGeneric.UnwrapOr(implGeneric);
    var start := Namer(US.TypeParamSet(generics), 0, []);
    var s1;
    newType, s1 := B.ReplaceInfers(ty, start);
    assert Added(start, s1) == s1.newGenerics;
    names := s1.newGenerics;
    generics', otherGenerics' := US.AddGenerics(generics, otherGenerics, s1.newGenerics);
    generics' := RemoveGeneric(generics', itemGeneric);
    otherGenerics' := RemoveGeneric(otherGenerics', implGeneric);
    var replaced := ReplaceAll(target.types, itemGeneric, newType);
    match replaced {
      case Ok(ts) => target' := Ok(target.(types := ts));
      case Err(e) => target' := Err(e);
    }
  }

  /** After the condition is applied, the replaced generic is gone from `generics`, every
    * wildcard name is declared in its place, and the other type parameters are kept in order. */
  lemma ApplyTypeConditionTypes(generics: Generics, ig: string, ty: Ty, names: seq<string>)
    requires WildcardNames(generics, InferCount(ty), names) && |names| == InferCount(ty)
    requires ig in US.CollectGenericsTypes(generics)
    ensures US.CollectGenericsTypes(RemoveGeneric(generics.(params := generics.params + UtilsTraits.Unbounded(names)), ig))
            == US.Without(US.CollectGenericsTypes(generics), ig) + names
  {
    WildcardsFresh(generics, ig, ty, names);
    var un := UtilsTraits.Unbounded(names);
    CollectTypesAfterRemove(generics.(params := generics.params + un), ig);
    US.TypeParamNamesAppend(generics.params, un);
    US.UnboundedNames(names);
    US.WithoutAppend(TypeParamNames(generics.params), names, ig);
    US.WithoutAbsent(names, ig);
  }

  /** The lifetimes lose only a lifetime parameter of the generic's name, if there is one. */
  lemma ApplyTypeConditionLifetimes(generics: Generics, ig: string, names: seq<string>)
    ensures US.CollectGenericsLifetimes(RemoveGeneric(generics.(params := generics.params + UtilsTraits.Unbounded(names)), ig))
            == US.Without(US.CollectGenericsLifetimes(generics), ig)
  {
    var un := UtilsTraits.Unbounded(names);
    CollectLifetimesAfterRemove(generics.(params := generics.params + un), ig);
    US.LifetimeNamesAppend(generics.params, un);
    UnboundedNoLifetimes(names);
    assert US.LifetimeNames(generics.params) + [] == US.LifetimeNames(generics.params);
  }

  /** The wildcard names are not declared type parameters. */
  lemma WildcardsFresh(generics: Generics, ig: string, ty: Ty, names: seq<string>)
    requires WildcardNames(generics, InferCount(ty), names)
    requires ig in US.CollectGenericsTypes(generics)
    ensures ig !in names
  {
    var s1: Namer :| Extends(B.G, Namer(US.TypeParamSet(generics), 0, []), s1, InferCount(ty)) && s1.newGenerics == names;
    assert Added(Namer(US.TypeParamSet(generics), 0, []), s1) == names;
    assert forall i :: 0 <= i < |names| ==> names[i] !in US.TypeParamSet(generics);
  }

  lemma {:induction false} UnboundedNoLifetimes(names: seq<string>)
    ensures US.LifetimeNames(UtilsTraits.Unbounded(names)) == []
    decreases |names|
  {
    if names != [] {
      assert UtilsTraits.Unbounded(names)[1..] == UtilsTraits.Unbounded(names[1..]);
      UnboundedNoLifetimes(names[1..]);
    }
  }

  /** An item that is exactly the generic becomes the new type. */
  lemma ReplaceAllGeneric(g: string, repl: Ty)
    requires IsIdent(Render(repl))
    ensures ReplaceAll([Named(g)], g, repl) == Ok([repl])
  {
    RenderNamed(g);
    CollectResultsOne(Named(g), (t: Ty) => B.ReplaceType(t, Named(g), repl));
  }

  /** A list holding only the removed generic is left without type parameters. */
  lemma RemoveSoleGeneric(g: string)
    ensures US.CollectGenericsTypes(RemoveGeneric(Generics([TypeParam(g, [])], []), g)) == []
  {
    assert RemoveParams([TypeParam(g, [])], g) == [] by {
      assert [TypeParam(g, [])][..0] == [];
    }
  }

  /** The `apply_type_condition` test: target `T`, both lists `<T>`, type `String` (which has no
    * wildcard, so no name is added): the target becomes `String`, and no type parameter is left
    * in either list. */
  lemma ApplyTypeConditionExampleTarget(s: Ty)
    requires s == Named("String")
    ensures ReplaceAll([Named("T")], "T", s) == Ok([s])
  {
    RenderNamed("String");
    assert IsIdent("String") by {
      assert forall i :: 0 <= i < 6 ==> IsLetter("String"[i]);
    }
    ReplaceAllGeneric("T", s);
  }

  lemma ApplyTypeConditionExampleGenerics()
    ensures US.CollectGenericsTypes(RemoveGeneric(GenericsT().(params := GenericsT().params + UtilsTraits.Unbounded([])), "T")) == []
  {
    assert GenericsT().params + UtilsTraits.Unbounded([]) == GenericsT().params;
    RemoveSoleGeneric("T");
  }

  // ============================================================ get_used_generics

  /** What the `TypeVisitor` checks for one generic: a name starting with `'` through
    * `type_contains_lifetime`, any other name through `type_contains`. */
  predicate Uses(t: Ty, g: string) {
    if |g| > 0 && g[0] == '\'' then B.TypeContainsLifetime(t, g) else B.TypeContains(t, Named(g))
  }

  /** The declared type and lifetime generics. */
  function Declared(gs: Generics): (r: set<string>)
    ensures forall n :: n in r <==> n in US.CollectGenericsTypes(gs) || n in US.CollectGenericsLifetimes(gs)
  {
    (set n | n in US.CollectGenericsTypes(gs)) + (set n | n in US.CollectGenericsLifetimes(gs))
  }

  /** The generics among `candidates` that some type of `types` uses. */
  function UsedIn(types: seq<Ty>, candidates: set<string>): (r: set<string>)
    ensures r <= candidates
    ensures forall g :: g in r <==> g in candidates && exists i :: 0 <= i < |types| && Uses(types[i], g)
  {
    set g | g in candidates && exists i :: 0 <= i < |types| && Uses(types[i], g)
  }

  /** The generics among `candidates` that the type `t` uses. */
  function UsedBy(t: Ty, candidates: set<string>): (r: set<string>)
    ensures r <= candidates
  {
    set g | g in candidates && Uses(t, g)
  }

  /** `TypeVisitor::visit_type`: every still unused generic that the type uses moves to the used
    * set. The visitor does not descend into the type's children itself: `type_contains` already
    * looks at the whole type. */
  method VisitType(t: Ty, unused: set<string>, used: set<string>) returns (unused': set<string>, used': set<string>)
    ensures used' == used + UsedBy(t, unused)
    ensures unused' == unused - UsedBy(t, unused)
  {
    var toRemove: seq<string> := [];
    var todo := unused;
    used' := used;
    while todo != {}
      invariant todo <= unused
      invariant forall g :: g in used' <==> g in used || (g in unused && g !in todo && Uses(t, g))
      invariant forall g :: g in toRemove <==> g in unused && g !in todo && Uses(t, g)
      decreases |todo|
    {
      var g :| g in todo;
      if Uses(t, g) {
        used' := used' + {g};
        toRemove := toRemove + [g];
      }
      todo := todo - {g};
    }
    unused' := RemoveAll(unused, toRemove);
  }

  /** The `for g in to_remove` loop: each name leaves the set. */
  method RemoveAll(s: set<string>, names: seq<string>) returns (s': set<string>)
    ensures forall g :: g in s' <==> g in s && g !in names
  {
    s' := s;
    for i := 0 to |names|
      invariant forall g :: g in s' <==> g in s && g !in names[..i]
    {
      assert names[..i + 1] == names[..i] + [names[i]];
      s' := s' - {names[i]};
    }
    assert names[..|names|] == names;
  }

  /** `get_used_generics`: the visitor starts with every declared type and lifetime generic
    * unused and visits the target's types in order; the used ones are returned. */
  method GetUsedGenerics(target: US.Target, generics: Generics) returns (used: set<string>)
    ensures used == UsedIn(target.types, Declared(generics))
  {
    var declared := Declared(generics);
    var unused := declared;
    used := {};
    for i := 0 to |target.types|
      invariant used == UsedIn(target.types[..i], declared)
      invariant unused == declared - used
    {
      unused, used := VisitType(target.types[i], unused, used);
      UsedInSnoc(target.types[..i], target.types[i], declared);
      assert target.types[..i + 1] == target.types[..i] + [target.types[i]];
    }
    assert target.types[..|target.types|] == target.types;
  }

  /** One more type adds to the used set what it uses among the generics still unused. */
  lemma UsedInSnoc(types: seq<Ty>, t: Ty, declared: set<string>)
    ensures UsedIn(types + [t], declared) == UsedIn(types, declared) + UsedBy(t, declared - UsedIn(types, declared))
  {
    forall g | g in UsedIn(types + [t], declared) ensures g in UsedIn(types, declared) + UsedBy(t, declared - UsedIn(types, declared)) {
      var i :| 0 <= i < |types| + 1 && Uses((types + [t])[i], g);
      if i < |types| {
        assert Uses(types[i], g);
      }
    }
    forall g | g in UsedIn(types, declared) ensures g in UsedIn(types + [t], declared) {
      var i :| 0 <= i < |types| && Uses(types[i], g);
      assert (types + [t])[i] == types[i];
    }
    forall g | g in UsedBy(t, declared - UsedIn(types, declared)) ensures g in UsedIn(types + [t], declared) {
      assert (types + [t])[|types|] == t;
    }
  }

  /** Visiting the types of two targets one after the other uses what each uses. */
  lemma UsedInAppend(a: seq<Ty>, b: seq<Ty>, declared: set<string>)
    ensures UsedIn(a + b, declared) == UsedIn(a, declared) + UsedIn(b, declared)
  {
    forall g | g in UsedIn(a + b, declared) ensures g in UsedIn(a, declared) + UsedIn(b, declared) {
      var i :| 0 <= i < |a + b| && Uses((a + b)[i], g);
      if i < |a| {
        assert Uses(a[i], g);
      } else {
        assert Uses(b[i - |a|], g);
      }
    }
    forall g | g in UsedIn(a, declared) ensures g in UsedIn(a + b, declared) {
      var i :| 0 <= i < |a| && Uses(a[i], g);
      assert (a + b)[i] == a[i];
    }
    forall g | g in UsedIn(b, declared) ensures g in UsedIn(a + b, declared) {
      var i :| 0 <= i < |b| && Uses(b[i], g);
      assert (a + b)[|a| + i] == b[i];
    }
  }

  /** A type generic counted as used occurs in some visited type. */
  lemma UsedOccurs(types: seq<Ty>, declared: set<string>, g: string)
    requires g in UsedIn(types, declared) && !(|g| > 0 && g[0] == '\'')
    ensures exists i :: 0 <= i < |types| && B.Occurs(types[i], g)
  {
    var i :| 0 <= i < |types| && Uses(types[i], g);
    B.TypeContainsOccurs(types[i], Named(g));
    RenderNamed(g);
  }
}
