/** Type matching and rewriting of the utilities crate (`crates/spec-trait-utils/src/types.rs`):
  * alias resolution, `same_type` with its generic bindings, substitution of a generic, and
  * fresh generic names for `_`. */
module UtilsTypes {
  import opened Wrappers
  import opened Syntax
  import opened FreshNames

  // ============================================================ aliases

  /** `Aliases`: a concrete type and the names that stand for it. The source keeps them in a
    * `HashMap` and searches it in iteration order; the model takes that order as given, so the
    * entries are listed in it. */
  type Aliases = seq<(Ty, seq<string>)>

  /** `aliases.iter().find(|(_, v)| v.contains(&ident))`: the first entry that lists `ident`. */
  function FindAlias(aliases: Aliases, ident: string): (r: Option<Ty>)
    ensures r.None? <==> forall i :: 0 <= i < |aliases| ==> ident !in aliases[i].1
    ensures r.Some? ==> exists i :: 0 <= i < |aliases| && ident in aliases[i].1 && r.value == aliases[i].0 &&
                          forall j :: 0 <= j < i ==> ident !in aliases[j].1
  {
    if aliases == [] then None
    else if ident in aliases[0].1 then Some(aliases[0].0)
    else
      var r := FindAlias(aliases[1..], ident);
      assert forall i :: 1 <= i < |aliases| ==> aliases[i] == aliases[1..][i - 1];
      assert r.Some? ==> exists i :: 1 <= i < |aliases| && ident in aliases[i].1 && r.value == aliases[i].0 &&
                          forall j :: 0 <= j < i ==> ident !in aliases[j].1 by {
        if r.Some? {
          var i :| 0 <= i < |aliases| - 1 && ident in aliases[1..][i].1 && r.value == aliases[1..][i].0 &&
                   forall j :: 0 <= j < i ==> ident !in aliases[1..][j].1;
          assert forall j :: 0 <= j < i + 1 ==> ident !in aliases[j].1 by {
            forall j | 0 <= j < i + 1 ensures ident !in aliases[j].1 {
              if j > 0 { assert aliases[j] == aliases[1..][j - 1]; }
            }
          }
        }
      }
      r
  }

  /** The alias replacing a path, looked up by its last identifier. */
  function PathAlias(segs: seq<Segment>, aliases: Aliases): Option<Ty> {
    if segs == [] then None else FindAlias(aliases, segs[|segs| - 1].ident)
  }

  /** `resolve_type`: after removing parentheses, a path whose last identifier is an alias
    * becomes the aliased type; tuples, references, arrays, slices and the type arguments of
    * paths are resolved inside; any other type is returned as it was given. */
  function ResolveType(t: Ty, aliases: Aliases): (r: Ty)
    ensures var u := UnwrapParens(t); u.Path? && PathAlias(u.segs, aliases).Some? ==> r == PathAlias(u.segs, aliases).value
    ensures var u := UnwrapParens(t); !(u.Tuple? || u.Ref? || u.Array? || u.Slice? || u.Path?) ==> r == t
    decreases TySize(t), 1
  {
    var u := UnwrapParens(t);
    match u
    case Tuple(es) => Tuple(seq(|es|, i requires 0 <= i < |es| => ResolveType(es[i], aliases)))
    case Ref(lt, m, e) => Ref(lt, m, ResolveType(e, aliases))
    case Array(e, n) => Array(ResolveType(e, aliases), n)
    case Slice(e) => Slice(ResolveType(e, aliases))
    case Path(segs) =>
      if PathAlias(segs, aliases).Some? then PathAlias(segs, aliases).value
      else Path(ResolveSegments(segs, aliases))
    case _ => t
  }

  function ResolveSegments(segs: seq<Segment>, aliases: Aliases): (r: seq<Segment>)
    ensures |r| == |segs| && forall i :: 0 <= i < |segs| ==> r[i] == ResolveSegment(segs[i], aliases)
    decreases SegsSize(segs), 2
  {
    seq(|segs|, i requires 0 <= i < |segs| => ResolveSegment(segs[i], aliases))
  }

  function ResolveSegment(s: Segment, aliases: Aliases): (r: Segment)
    ensures r.ident == s.ident
    decreases SegSize(s), 0
  {
    if s.args.Angle? then
      Segment(s.ident, Angle(seq(|s.args.args|, j requires 0 <= j < |s.args.args| => ResolveArg(s.args.args[j], aliases))))
    else s
  }

  function ResolveArg(a: GenericArg, aliases: Aliases): (r: GenericArg)
    ensures !a.TypeArg? ==> r == a
    decreases ArgSize(a), 2
  {
    if a.TypeArg? then TypeArg(ResolveType(a.ty, aliases)) else a
  }

  /** Every alias key is already resolved (for instance, no key is itself the name of an alias). */
  predicate KeysResolved(aliases: Aliases) {
    forall i :: 0 <= i < |aliases| ==> ResolveType(aliases[i].0, aliases) == aliases[i].0
  }

  /** Resolving is idempotent when the aliased types are themselves resolved. */
  lemma {:induction false} ResolveTypeIdempotent(t: Ty, aliases: Aliases)
    requires KeysResolved(aliases)
    ensures ResolveType(ResolveType(t, aliases), aliases) == ResolveType(t, aliases)
    decreases TySize(t), 1
  {
    var u := UnwrapParens(t);
    var r := ResolveType(t, aliases);
    match u
    case Tuple(es) =>
      forall i | 0 <= i < |es| ensures ResolveType(ResolveType(es[i], aliases), aliases) == ResolveType(es[i], aliases) {
        ResolveTypeIdempotent(es[i], aliases);
      }
    case Ref(lt, _, e) => ResolveTypeIdempotent(e, aliases);
    case Array(e, n) => ResolveTypeIdempotent(e, aliases);
    case Slice(e) => ResolveTypeIdempotent(e, aliases);
    case Path(segs) =>
      if PathAlias(segs, aliases).None? {
        ResolveSegmentsIdempotent(segs, aliases);
      } else {
        var k := PathAlias(segs, aliases).value;
        assert exists i :: 0 <= i < |aliases| && k == aliases[i].0;
      }
    case _ =>
  }

  /** The segments of a path that is not an alias: resolving them again changes nothing. */
  lemma {:induction false} ResolveSegmentsIdempotent(segs: seq<Segment>, aliases: Aliases)
    requires KeysResolved(aliases) && PathAlias(segs, aliases).None?
    ensures ResolveType(Path(ResolveSegments(segs, aliases)), aliases) == Path(ResolveSegments(segs, aliases))
    decreases SegsSize(segs), 3
  {
    var rs := ResolveSegments(segs, aliases);
    assert PathAlias(rs, aliases) == PathAlias(segs, aliases);
    forall i | 0 <= i < |segs| ensures ResolveSegment(rs[i], aliases) == rs[i] {
      ResolveSegmentIdempotent(segs[i], aliases);
    }
    assert ResolveSegments(rs, aliases) == rs;
  }

  lemma {:induction false} ResolveSegmentIdempotent(s: Segment, aliases: Aliases)
    requires KeysResolved(aliases)
    ensures ResolveSegment(ResolveSegment(s, aliases), aliases) == ResolveSegment(s, aliases)
    decreases SegSize(s), 0
  {
    if s.args.Angle? {
      var rs := ResolveSegment(s, aliases);
      forall j | 0 <= j < |s.args.args| ensures ResolveArg(rs.args.args[j], aliases) == rs.args.args[j] {
        ResolveArgIdempotent(s.args.args[j], aliases);
      }
    }
  }

  lemma {:induction false} ResolveArgIdempotent(a: GenericArg, aliases: Aliases)
    requires KeysResolved(aliases)
    ensures ResolveArg(ResolveArg(a, aliases), aliases) == ResolveArg(a, aliases)
    decreases ArgSize(a), 2
  {
    if a.TypeArg? {
      ResolveTypeIdempotent(a.ty, aliases);
    }
  }

  /** `resolve_type` on the alias map `{u8: [MyType]}` of the tests: inside `Option<(.., Vec<..>)>`
    * every `MyType` becomes `u8`. */
  lemma ResolveTypeExample()
    ensures var aliases := [(Named("u8"), ["MyType"])];
      ResolveType(Path([Segment("Option", Angle([TypeArg(Tuple([Named("MyType"), Path([Segment("Vec", Angle([TypeArg(Named("MyType"))]))])]))]))]), aliases)
      == Path([Segment("Option", Angle([TypeArg(Tuple([Named("u8"), Path([Segment("Vec", Angle([TypeArg(Named("u8"))]))])]))]))])
  {
    var aliases := [(Named("u8"), ["MyType"])];
    ResolveAliasName();
    ResolveOneArgPath("Vec", Named("MyType"), aliases);
    var inner := Path([Segment("Vec", Angle([TypeArg(Named("MyType"))]))]);
    var tup := Tuple([Named("MyType"), inner]);
    assert ResolveType(tup, aliases) == Tuple([Named("u8"), Path([Segment("Vec", Angle([TypeArg(Named("u8"))]))])]);
    ResolveOneArgPath("Option", tup, aliases);
  }

  /** `(MyType)` resolves to `u8`. */
  lemma ResolveTypeParenExample()
    ensures ResolveType(Paren(Named("MyType")), [(Named("u8"), ["MyType"])]) == Named("u8")
  {
    ResolveAliasName();
  }

  lemma ResolveAliasName()
    ensures ResolveType(Named("MyType"), [(Named("u8"), ["MyType"])]) == Named("u8")
  {
  }

  /** A one-segment path that is not an alias keeps its name and resolves its one argument. */
  lemma ResolveOneArgPath(id: string, t: Ty, aliases: Aliases)
    requires FindAlias(aliases, id).None?
    ensures ResolveType(Path([Segment(id, Angle([TypeArg(t)]))]), aliases) == Path([Segment(id, Angle([TypeArg(ResolveType(t, aliases))]))])
  {
    var seg := Segment(id, Angle([TypeArg(t)]));
    assert PathAlias([seg], aliases).None?;
    var rs := ResolveSegment(seg, aliases);
    assert ResolveArg(TypeArg(t), aliases) == TypeArg(ResolveType(t, aliases));
    assert seg.args.args[0] == TypeArg(t);
    assert |rs.args.args| == 1 && rs.args.args[0] == TypeArg(ResolveType(t, aliases));
    assert rs == Segment(id, Angle([TypeArg(ResolveType(t, aliases))]));
    assert ResolveSegments([seg], aliases) == [rs];
  }

  /** `get_concrete_type`: the rendering of the resolved type (the string is parsed first; the
    * model starts from the parsed type). */
  function GetConcreteType(t: Ty, aliases: Aliases): (r: string)
    ensures var u := UnwrapParens(t); u.Path? && PathAlias(u.segs, aliases).Some? ==> r == Render(PathAlias(u.segs, aliases).value)
  {
    Render(ResolveType(t, aliases))
  }

  /** A reference keeps its lifetime and its `mut` through resolution and rendering: under
    * `{u8: [MyType]}`, `&'a mut MyType` is `& 'a mut u8`. */
  lemma GetConcreteTypeMutExample()
    ensures GetConcreteType(Ref(Some("'a"), true, Named("MyType")), [(Named("u8"), ["MyType"])]) == "& 'a mut u8"
  {
    ResolveAliasName();
    RenderNamed("u8");
  }

  // ============================================================ same_type

  /** `GenericsMap`: each generic with the type it is bound to so far, if any. The source keeps
    * the rendering of the type and parses it again where it is used; the model keeps the type. */
  type GenericsMap = map<string, Option<Ty>>

  /** The result of the matcher: a verdict with the updated bindings, or `OutOfFuel` when the
    * recursion through bindings has not finished within the given depth. */
  datatype Outcome = Done(ok: bool, g: GenericsMap) | OutOfFuel

  /** A one-segment path whose identifier is a generic (the shape the generic arm looks for). */
  predicate IsGeneric(t: Ty, g: GenericsMap) {
    t.Path? && |t.segs| == 1 && t.segs[0].ident in g
  }

  /** The lifetime rule of two references: equal, or one absent and the other present and not
    * `'static`. */
  predicate SameLifetime(l1: Option<string>, l2: Option<string>) {
    (l1.None? && l2.Some? && l2.value != "'static") ||
    (l2.None? && l1.Some? && l1.value != "'static") ||
    l1 == l2
  }

  /** `syn::PathArguments::is_empty`. */
  predicate ArgsEmpty(a: PathArgs) {
    a.NoArgs? || (a.Angle? && a.args == [])
  }

  /** `same_type(existing, other)` on a binding, with the same bindings: this is where the
    * recursion may not end, so each such step spends one unit of fuel. */
  function SameBound(bound: Ty, other: Ty, g: GenericsMap, fuel: nat): (r: Outcome)
    ensures r.Done? ==> r.g.Keys == g.Keys
    ensures fuel == 0 ==> r.OutOfFuel?
    decreases fuel, 0, 0
  {
    if fuel == 0 then OutOfFuel
    else SameType(bound, other, g, fuel - 1)
  }

  /** One side of `check_equal_and_assign_generic`: `k` is not a generic of `g` (no), is unbound
    * (yes), or its binding is matched against `other` with the bindings `carried`. */
  function TryBind(k: string, other: Ty, g: GenericsMap, carried: GenericsMap, fuel: nat): (r: Outcome)
    ensures r.Done? ==> r.g.Keys == carried.Keys
    decreases fuel, 0, 1
  {
    if k !in g then Done(false, carried)
    else if g[k].None? then Done(true, carried)
    else SameBound(g[k].value, other, carried, fuel)
  }

  /** `check_equal_and_assign_generic(t1, t2)` on the renderings of two types: equal, or either
    * one `_`, succeeds. Otherwise a generic `t1` that is unbound, or whose binding is the same
    * type as `t2`, is bound to `t2`; failing that, the same with the sides exchanged (looked up
    * in the map as it was on entry, but matched with the bindings the first attempt left). */
  function CheckEqual(t1: Ty, t2: Ty, g: GenericsMap, fuel: nat): (r: Outcome)
    ensures r.Done? ==> r.g.Keys == g.Keys
    ensures Render(t1) == Render(t2) || Render(t1) == "_" || Render(t2) == "_" ==> r == Done(true, g)
    ensures Render(t1) != Render(t2) && Render(t1) != "_" && Render(t2) != "_" && Render(t1) in g && g[Render(t1)].None? ==>
              r == Done(true, g[Render(t1) := Some(t2)])
    ensures Render(t1) !in g && Render(t2) !in g ==> r == Done(Render(t1) == Render(t2) || Render(t1) == "_" || Render(t2) == "_", g)
    decreases fuel, 0, 3
  {
    CheckKeys(Render(t1), Render(t2), t1, t2, g, fuel)
  }

  /** `check_equal_and_assign_generic` on the renderings `k1` of `t1` and `k2` of `t2`. */
  function CheckKeys(k1: string, k2: string, t1: Ty, t2: Ty, g: GenericsMap, fuel: nat): (r: Outcome)
    ensures r.Done? ==> r.g.Keys == g.Keys
    ensures k1 != k2 && k1 != "_" && k2 != "_" && k1 in g && g[k1].None? ==> r == Done(true, g[k1 := Some(t2)])
    ensures k1 !in g && k2 !in g ==> r == Done(k1 == k2 || k1 == "_" || k2 == "_", g)
    decreases fuel, 0, 2
  {
    if k1 == k2 || k1 == "_" || k2 == "_" then Done(true, g)
    else
      var first := TryBind(k1, t2, g, g, fuel);
      if first.OutOfFuel? then OutOfFuel
      else if first.ok then Done(true, first.g[k1 := Some(t2)])
      else
        var second := TryBind(k2, t1, g, first.g, fuel);
        if second.OutOfFuel? then OutOfFuel
        else if second.ok then Done(true, second.g[k2 := Some(t1)])
        else Done(false, second.g)
  }

  /** `same_type(t1, t2, generics)`, after removing parentheses: `_` on either side matches; a
    * generic on either side goes through `check_equal_and_assign_generic`; tuples, references,
    * slices, arrays and paths are compared part by part; anything else does not match. */
  function SameType(t1: Ty, t2: Ty, g: GenericsMap, fuel: nat): (r: Outcome)
    ensures r.Done? ==> r.g.Keys == g.Keys
    ensures UnwrapParens(t1).Infer? || UnwrapParens(t2).Infer? ==> r == Done(true, g)
    decreases fuel, TySize(t2), 4
  {
    var u1, u2 := UnwrapParens(t1), UnwrapParens(t2);
    if u1.Infer? || u2.Infer? then Done(true, g)
    else if IsGeneric(u1, g) || IsGeneric(u2, g) then CheckEqual(u1, u2, g, fuel)
    else SameShape(u1, u2, g, fuel)
  }

  /** The structural arms of `same_type`: two types of the same shape are compared part by part. */
  function SameShape(u1: Ty, u2: Ty, g: GenericsMap, fuel: nat): (r: Outcome)
    ensures r.Done? ==> r.g.Keys == g.Keys
    decreases fuel, TySize(u2), 3
  {
      match (u1, u2)
      case (Tuple(es1), Tuple(es2)) => if |es1| == |es2| then SameAll(es1, es2, g, fuel) else Done(false, g)
      case (Ref(l1, _, e1), Ref(l2, _, e2)) =>
        var sub := SameType(e1, e2, g, fuel);
        if sub.OutOfFuel? then sub else Done(sub.ok && SameLifetime(l1, l2), sub.g)
      case (Slice(e1), Slice(e2)) => SameType(e1, e2, g, fuel)
      case (Array(e1, n1), Array(e2, n2)) =>
        var sub := SameType(e1, e2, g, fuel);
        if sub.OutOfFuel? then sub else Done(sub.ok && (n1.LenInfer? || n2.LenInfer? || n1 == n2), sub.g)
      case (Path(s1), Path(s2)) => if |s1| == |s2| then SameSegs(s1, s2, g, fuel) else Done(false, g)
      case _ => Done(false, g)
  }

  /** `zip(..).all(same_type)`: stops at the first failure, keeping the bindings made so far. */
  function SameAll(es1: seq<Ty>, es2: seq<Ty>, g: GenericsMap, fuel: nat): (r: Outcome)
    ensures r.Done? ==> r.g.Keys == g.Keys
    decreases fuel, TysSize(es2), 5
  {
    if es1 == [] || es2 == [] then Done(true, g)
    else
      var sub := SameType(es1[0], es2[0], g, fuel);
      if sub.OutOfFuel? || !sub.ok then sub
      else SameAll(es1[1..], es2[1..], sub.g, fuel)
  }

  /** The segments of two paths of the same length: identifiers through
    * `check_equal_and_assign_generic`, then the arguments. */
  function SameSegs(s1: seq<Segment>, s2: seq<Segment>, g: GenericsMap, fuel: nat): (r: Outcome)
    ensures r.Done? ==> r.g.Keys == g.Keys
    decreases fuel, SegsSize(s2), 5
  {
    if s1 == [] || s2 == [] then Done(true, g)
    else
      var c := CheckEqual(Named(s1[0].ident), Named(s2[0].ident), g, fuel);
      if c.OutOfFuel? || !c.ok then c
      else
        var a := SamePathArgs(s1[0].args, s2[0].args, c.g, fuel);
        if a.OutOfFuel? || !a.ok then a
        else SameSegs(s1[1..], s2[1..], a.g, fuel)
  }

  /** The arguments of two segments: both angle-bracketed, or both empty. */
  function SamePathArgs(p1: PathArgs, p2: PathArgs, g: GenericsMap, fuel: nat): (r: Outcome)
    ensures r.Done? ==> r.g.Keys == g.Keys
    decreases fuel, if p2.Angle? then ArgsSize(p2.args) else 0, 6
  {
    if p1.Angle? && p2.Angle? then SameArgs(p1.args, p2.args, g, fuel)
    else Done(ArgsEmpty(p1) && ArgsEmpty(p2), g)
  }

  /** Angle-bracketed arguments, zipped (extra arguments on either side are not looked at): two
    * type arguments are compared, any other pair fails. */
  function SameArgs(a1: seq<GenericArg>, a2: seq<GenericArg>, g: GenericsMap, fuel: nat): (r: Outcome)
    ensures r.Done? ==> r.g.Keys == g.Keys
    decreases fuel, ArgsSize(a2), 5
  {
    if a1 == [] || a2 == [] then Done(true, g)
    else if a1[0].TypeArg? && a2[0].TypeArg? then
      var sub := SameType(a1[0].ty, a2[0].ty, g, fuel);
      if sub.OutOfFuel? || !sub.ok then sub
      else SameArgs(a1[1..], a2[1..], sub.g, fuel)
    else Done(false, g)
  }

  // ------------------------------------------------------------ more fuel changes nothing

  /** Once the matcher finishes within some depth, any greater depth gives the same outcome:
    * the extra fuel is never reached. */
  lemma {:induction false} SameTypeMono(t1: Ty, t2: Ty, g: GenericsMap, fuel: nat, fuel': nat)
    requires fuel <= fuel' && SameType(t1, t2, g, fuel).Done?
    ensures SameType(t1, t2, g, fuel') == SameType(t1, t2, g, fuel)
    decreases fuel, TySize(t2), 4
  {
    var u1, u2 := UnwrapParens(t1), UnwrapParens(t2);
    if u1.Infer? || u2.Infer? {
    } else if IsGeneric(u1, g) || IsGeneric(u2, g) {
      CheckEqualMono(u1, u2, g, fuel, fuel');
    } else {
      SameShapeMono(u1, u2, g, fuel, fuel');
    }
  }

  lemma {:induction false} SameShapeMono(u1: Ty, u2: Ty, g: GenericsMap, fuel: nat, fuel': nat)
    requires fuel <= fuel' && SameShape(u1, u2, g, fuel).Done?
    ensures SameShape(u1, u2, g, fuel') == SameShape(u1, u2, g, fuel)
    decreases fuel, TySize(u2), 3
  {
    match (u1, u2)
    case (Tuple(es1), Tuple(es2)) => if |es1| == |es2| { SameAllMono(es1, es2, g, fuel, fuel'); }
    case (Ref(_, _, e1), Ref(_, _, e2)) => SameTypeMono(e1, e2, g, fuel, fuel');
    case (Slice(e1), Slice(e2)) => SameTypeMono(e1, e2, g, fuel, fuel');
    case (Array(e1, _), Array(e2, _)) => SameTypeMono(e1, e2, g, fuel, fuel');
    case (Path(s1), Path(s2)) => if |s1| == |s2| { SameSegsMono(s1, s2, g, fuel, fuel'); }
    case _ =>
  }

  lemma {:induction false} SameBoundMono(bound: Ty, other: Ty, g: GenericsMap, fuel: nat, fuel': nat)
    requires fuel <= fuel' && SameBound(bound, other, g, fuel).Done?
    ensures SameBound(bound, other, g, fuel') == SameBound(bound, other, g, fuel)
    decreases fuel, 0, 0
  {
    assert fuel > 0;
    assert SameBound(bound, other, g, fuel) == SameType(bound, other, g, fuel - 1);
    assert SameBound(bound, other, g, fuel') == SameType(bound, other, g, fuel' - 1);
    SameTypeMono(bound, other, g, fuel - 1, fuel' - 1);
  }

  lemma {:induction false} TryBindMono(k: string, other: Ty, g: GenericsMap, carried: GenericsMap, fuel: nat, fuel': nat)
    requires fuel <= fuel' && TryBind(k, other, g, carried, fuel).Done?
    ensures TryBind(k, other, g, carried, fuel') == TryBind(k, other, g, carried, fuel)
    decreases fuel, 0, 1
  {
    if k in g && g[k].Some? {
      SameBoundMono(g[k].value, other, carried, fuel, fuel');
    }
  }

  lemma {:induction false} CheckKeysMono(k1: string, k2: string, t1: Ty, t2: Ty, g: GenericsMap, fuel: nat, fuel': nat)
    requires fuel <= fuel' && CheckKeys(k1, k2, t1, t2, g, fuel).Done?
    ensures CheckKeys(k1, k2, t1, t2, g, fuel') == CheckKeys(k1, k2, t1, t2, g, fuel)
    decreases fuel, 0, 2
  {
    if !(k1 == k2 || k1 == "_" || k2 == "_") {
      var first, first' := TryBind(k1, t2, g, g, fuel), TryBind(k1, t2, g, g, fuel');
      assert first.Done?;
      TryBindMono(k1, t2, g, g, fuel, fuel');
      assert first' == first;
      if first.ok {
        assert CheckKeys(k1, k2, t1, t2, g, fuel) == Done(true, first.g[k1 := Some(t2)]);
        assert CheckKeys(k1, k2, t1, t2, g, fuel') == Done(true, first.g[k1 := Some(t2)]);
      } else {
        var second, second' := TryBind(k2, t1, g, first.g, fuel), TryBind(k2, t1, g, first.g, fuel');
        assert second.Done?;
        TryBindMono(k2, t1, g, first.g, fuel, fuel');
        assert second' == second;
        var r := if second.ok then Done(true, second.g[k2 := Some(t1)]) else Done(false, second.g);
        assert CheckKeys(k1, k2, t1, t2, g, fuel) == r;
        assert CheckKeys(k1, k2, t1, t2, g, fuel') == r;
      }
    }
  }

  lemma {:induction false} CheckEqualMono(t1: Ty, t2: Ty, g: GenericsMap, fuel: nat, fuel': nat)
    requires fuel <= fuel' && CheckEqual(t1, t2, g, fuel).Done?
    ensures CheckEqual(t1, t2, g, fuel') == CheckEqual(t1, t2, g, fuel)
    decreases fuel, 0, 3
  {
    CheckKeysMono(Render(t1), Render(t2), t1, t2, g, fuel, fuel');
  }

  lemma {:induction false} SameAllMono(es1: seq<Ty>, es2: seq<Ty>, g: GenericsMap, fuel: nat, fuel': nat)
    requires fuel <= fuel' && SameAll(es1, es2, g, fuel).Done?
    ensures SameAll(es1, es2, g, fuel') == SameAll(es1, es2, g, fuel)
    decreases fuel, TysSize(es2), 5
  {
    if es1 != [] && es2 != [] {
      var sub := SameType(es1[0], es2[0], g, fuel);
      SameTypeMono(es1[0], es2[0], g, fuel, fuel');
      if sub.Done? && sub.ok {
        SameAllMono(es1[1..], es2[1..], sub.g, fuel, fuel');
      }
    }
  }

  lemma {:induction false} SameSegsMono(s1: seq<Segment>, s2: seq<Segment>, g: GenericsMap, fuel: nat, fuel': nat)
    requires fuel <= fuel' && SameSegs(s1, s2, g, fuel).Done?
    ensures SameSegs(s1, s2, g, fuel') == SameSegs(s1, s2, g, fuel)
    decreases fuel, SegsSize(s2), 5
  {
    if s1 != [] && s2 != [] {
      var c := CheckEqual(Named(s1[0].ident), Named(s2[0].ident), g, fuel);
      CheckEqualMono(Named(s1[0].ident), Named(s2[0].ident), g, fuel, fuel');
      if c.Done? && c.ok {
        var a := SamePathArgs(s1[0].args, s2[0].args, c.g, fuel);
        SamePathArgsMono(s1[0].args, s2[0].args, c.g, fuel, fuel');
        if a.Done? && a.ok {
          SameSegsMono(s1[1..], s2[1..], a.g, fuel, fuel');
        }
      }
    }
  }

  lemma {:induction false} SamePathArgsMono(p1: PathArgs, p2: PathArgs, g: GenericsMap, fuel: nat, fuel': nat)
    requires fuel <= fuel' && SamePathArgs(p1, p2, g, fuel).Done?
    ensures SamePathArgs(p1, p2, g, fuel') == SamePathArgs(p1, p2, g, fuel)
    decreases fuel, if p2.Angle? then ArgsSize(p2.args) else 0, 6
  {
    if p1.Angle? && p2.Angle? {
      SameArgsMono(p1.args, p2.args, g, fuel, fuel');
    }
  }

  lemma {:induction false} SameArgsMono(a1: seq<GenericArg>, a2: seq<GenericArg>, g: GenericsMap, fuel: nat, fuel': nat)
    requires fuel <= fuel' && SameArgs(a1, a2, g, fuel).Done?
    ensures SameArgs(a1, a2, g, fuel') == SameArgs(a1, a2, g, fuel)
    decreases fuel, ArgsSize(a2), 5
  {
    if a1 != [] && a2 != [] && a1[0].TypeArg? && a2[0].TypeArg? {
      var sub := SameType(a1[0].ty, a2[0].ty, g, fuel);
      SameTypeMono(a1[0].ty, a2[0].ty, g, fuel, fuel');
      if sub.Done? && sub.ok {
        SameArgsMono(a1[1..], a2[1..], sub.g, fuel, fuel');
      }
    }
  }

  /** Any two depths at which the matcher finishes give the same outcome. */
  lemma SameTypeAgree(t1: Ty, t2: Ty, g: GenericsMap, fuel: nat)
    requires SameType(t1, t2, g, fuel).Done?
    ensures forall fuel': nat :: SameType(t1, t2, g, fuel').Done? ==> SameType(t1, t2, g, fuel') == SameType(t1, t2, g, fuel)
  {
    forall fuel': nat | SameType(t1, t2, g, fuel').Done?
      ensures SameType(t1, t2, g, fuel') == SameType(t1, t2, g, fuel)
    {
      if fuel <= fuel' {
        SameTypeMono(t1, t2, g, fuel, fuel');
      } else {
        SameTypeMono(t1, t2, g, fuel', fuel);
      }
    }
  }

  // ------------------------------------------------------------ the matcher as a whole

  /** `same_type` returns at all: some depth of recursion through bindings is enough. */
  ghost predicate Finishes(t1: Ty, t2: Ty, g: GenericsMap) {
    exists fuel: nat :: SameType(t1, t2, g, fuel).Done?
  }

  /** The outcome of `same_type` independent of any depth: what the source returns whenever it
    * returns, and a rejection with the bindings unchanged on the inputs where it recurses
    * forever (see `CycleNeverFinishes`). */
  ghost function Matched(t1: Ty, t2: Ty, g: GenericsMap): (r: Outcome)
    ensures r.Done? && r.g.Keys == g.Keys
    ensures forall fuel: nat :: SameType(t1, t2, g, fuel).Done? ==> r == SameType(t1, t2, g, fuel)
    ensures !Finishes(t1, t2, g) ==> r == Done(false, g)
  {
    if Finishes(t1, t2, g) then
      var fuel: nat :| SameType(t1, t2, g, fuel).Done?;
      SameTypeAgree(t1, t2, g, fuel);
      SameType(t1, t2, g, fuel)
    else Done(false, g)
  }

  /** Every generic of the set, unbound. */
  function Unbound(generics: set<string>): (r: GenericsMap)
    ensures r.Keys == generics && forall x :: x in r ==> r[x].None?
  {
    map x | x in generics :: None
  }

  /** `types_equal_generic_constraints`: both types are resolved through the aliases, every
    * generic starts unbound, and the bindings are returned when the types match. On inputs
    * where the source recurses forever the answer is `None`; on all others it is the source's. */
  ghost function TypesEqualGenericConstraints(type1: Ty, type2: Ty, generics: set<string>, aliases: Aliases): (r: Option<GenericsMap>)
    ensures r.Some? ==> r.value.Keys == generics
    ensures UnwrapParens(ResolveType(type1, aliases)).Infer? || UnwrapParens(ResolveType(type2, aliases)).Infer? ==>
              r == Some(Unbound(generics))
    ensures forall fuel: nat :: SameType(ResolveType(type1, aliases), ResolveType(type2, aliases), Unbound(generics), fuel).Done? ==>
              var o := SameType(ResolveType(type1, aliases), ResolveType(type2, aliases), Unbound(generics), fuel);
              r == if o.ok then Some(o.g) else None
    ensures !Finishes(ResolveType(type1, aliases), ResolveType(type2, aliases), Unbound(generics)) ==> r.None?
  {
    var t1, t2, g := ResolveType(type1, aliases), ResolveType(type2, aliases), Unbound(generics);
    var o := Matched(t1, t2, g);
    assert UnwrapParens(t1).Infer? || UnwrapParens(t2).Infer? ==> SameType(t1, t2, g, 0) == Done(true, g);
    if o.ok then Some(o.g) else None
  }

  /** `types_equal`. */
  ghost predicate TypesEqual(type1: Ty, type2: Ty, generics: set<string>, aliases: Aliases) {
    TypesEqualGenericConstraints(type1, type2, generics, aliases).Some?
  }

  // ------------------------------------------------------------ properties of same_type

  /** Without generics nothing is ever bound, the fuel is never used, and the comparison is
    * symmetric: every arm treats both sides alike. */
  lemma {:induction false} SameTypeSymmetric(t1: Ty, t2: Ty, fuel: nat)
    ensures SameType(t1, t2, map[], fuel).Done?
    ensures SameType(t1, t2, map[], fuel).g == map[]
    ensures SameType(t1, t2, map[], fuel) == SameType(t2, t1, map[], fuel)
    decreases TySize(t1) + TySize(t2), 1
  {
    var u1, u2 := UnwrapParens(t1), UnwrapParens(t2);
    var g: GenericsMap := map[];
    assert !IsGeneric(u1, g) && !IsGeneric(u2, g);
    if u1.Infer? || u2.Infer? {
    } else if u1.Tuple? && u2.Tuple? {
      if |u1.elems| == |u2.elems| { SameAllSymmetric(u1.elems, u2.elems, fuel); }
    } else if u1.Ref? && u2.Ref? {
      SameTypeSymmetric(u1.elem, u2.elem, fuel);
      var a := SameType(u1.elem, u2.elem, g, fuel);
      assert SameType(t1, t2, g, fuel) == Done(a.ok && SameLifetime(u1.lifetime, u2.lifetime), a.g);
      assert SameType(t2, t1, g, fuel) == Done(a.ok && SameLifetime(u2.lifetime, u1.lifetime), a.g);
    } else if u1.Slice? && u2.Slice? {
      SameTypeSymmetric(u1.elem, u2.elem, fuel);
    } else if u1.Array? && u2.Array? {
      SameTypeSymmetric(u1.elem, u2.elem, fuel);
      var a := SameType(u1.elem, u2.elem, g, fuel);
      assert SameType(t1, t2, g, fuel) == Done(a.ok && (u1.len.LenInfer? || u2.len.LenInfer? || u1.len == u2.len), a.g);
    } else if u1.Path? && u2.Path? {
      if |u1.segs| == |u2.segs| { SameSegsSymmetric(u1.segs, u2.segs, fuel); }
    } else {
      assert SameType(t1, t2, g, fuel) == Done(false, g);
      assert SameType(t2, t1, g, fuel) == Done(false, g);
    }
  }

  lemma {:induction false} SameAllSymmetric(es1: seq<Ty>, es2: seq<Ty>, fuel: nat)
    ensures SameAll(es1, es2, map[], fuel).Done?
    ensures SameAll(es1, es2, map[], fuel).g == map[]
    ensures SameAll(es1, es2, map[], fuel) == SameAll(es2, es1, map[], fuel)
    decreases TysSize(es1) + TysSize(es2), 2
  {
    if es1 != [] && es2 != [] {
      SameTypeSymmetric(es1[0], es2[0], fuel);
      SameAllSymmetric(es1[1..], es2[1..], fuel);
    }
  }

  lemma {:induction false} SameSegsSymmetric(s1: seq<Segment>, s2: seq<Segment>, fuel: nat)
    ensures SameSegs(s1, s2, map[], fuel).Done?
    ensures SameSegs(s1, s2, map[], fuel).g == map[]
    ensures SameSegs(s1, s2, map[], fuel) == SameSegs(s2, s1, map[], fuel)
    decreases SegsSize(s1) + SegsSize(s2), 2
  {
    if s1 != [] && s2 != [] {
      var g: GenericsMap := map[];
      var x1, x2 := s1[0], s2[0];
      RenderNamed(x1.ident);
      RenderNamed(x2.ident);
      var c := CheckEqual(Named(x1.ident), Named(x2.ident), g, fuel);
      assert c == Done(x1.ident == x2.ident || x1.ident == "_" || x2.ident == "_", g);
      assert CheckEqual(Named(x2.ident), Named(x1.ident), g, fuel) == c;
      SamePathArgsSymmetric(x1.args, x2.args, fuel);
      SameSegsSymmetric(s1[1..], s2[1..], fuel);
    }
  }

  lemma {:induction false} SamePathArgsSymmetric(p1: PathArgs, p2: PathArgs, fuel: nat)
    ensures SamePathArgs(p1, p2, map[], fuel).Done?
    ensures SamePathArgs(p1, p2, map[], fuel).g == map[]
    ensures SamePathArgs(p1, p2, map[], fuel) == SamePathArgs(p2, p1, map[], fuel)
    decreases (if p1.Angle? then ArgsSize(p1.args) else 0) + (if p2.Angle? then ArgsSize(p2.args) else 0), 3
  {
    if p1.Angle? && p2.Angle? {
      SameArgsSymmetric(p1.args, p2.args, fuel);
    }
  }

  lemma {:induction false} SameArgsSymmetric(a1: seq<GenericArg>, a2: seq<GenericArg>, fuel: nat)
    ensures SameArgs(a1, a2, map[], fuel).Done?
    ensures SameArgs(a1, a2, map[], fuel).g == map[]
    ensures SameArgs(a1, a2, map[], fuel) == SameArgs(a2, a1, map[], fuel)
    decreases ArgsSize(a1) + ArgsSize(a2), 2
  {
    if a1 != [] && a2 != [] && a1[0].TypeArg? && a2[0].TypeArg? {
      SameTypeSymmetric(a1[0].ty, a2[0].ty, fuel);
      SameArgsSymmetric(a1[1..], a2[1..], fuel);
    }
  }

  /** The types `same_type` can compare with themselves: no opaque type, and only type arguments
    * in paths. */
  predicate Comparable(t: Ty)
    decreases t, 1
  {
    match t
    case Tuple(es) => forall i :: 0 <= i < |es| ==> Comparable(es[i])
    case Ref(_, _, e) => Comparable(e)
    case Array(e, _) => Comparable(e)
    case Slice(e) => Comparable(e)
    case Paren(e) => Comparable(e)
    case Path(segs) => forall i :: 0 <= i < |segs| ==> ComparableSegment(segs[i])
    case Infer => true
    case Other(_) => false
  }

  predicate ComparableSegment(s: Segment)
    decreases s, 0
  {
    s.args.NoArgs? ||
    (s.args.Angle? && forall j :: 0 <= j < |s.args.args| ==> s.args.args[j].TypeArg? && Comparable(s.args.args[j].ty))
  }

  /** Without generics, a comparable type is the same type as itself. */
  lemma {:induction false} SameTypeReflexive(t: Ty, fuel: nat)
    requires Comparable(t)
    ensures SameType(t, t, map[], fuel) == Done(true, map[])
    decreases TySize(t), 1
  {
    var u := UnwrapParens(t);
    assert Comparable(u) by {
      var x := t;
      while x.Paren?
        invariant Comparable(x) && UnwrapParens(x) == u
        decreases x
      {
        x := x.elem;
      }
    }
    var g: GenericsMap := map[];
    assert !IsGeneric(u, g);
    match u
    case Tuple(es) => SameAllReflexive(es, fuel);
    case Ref(_, _, e) => SameTypeReflexive(e, fuel);
    case Array(e, _) => SameTypeReflexive(e, fuel);
    case Slice(e) => SameTypeReflexive(e, fuel);
    case Path(segs) => SameSegsReflexive(segs, fuel);
    case Infer =>
  }

  lemma {:induction false} SameAllReflexive(es: seq<Ty>, fuel: nat)
    requires forall i :: 0 <= i < |es| ==> Comparable(es[i])
    ensures SameAll(es, es, map[], fuel) == Done(true, map[])
    decreases TysSize(es), 2
  {
    if es != [] {
      SameTypeReflexive(es[0], fuel);
      SameAllReflexive(es[1..], fuel);
    }
  }

  lemma {:induction false} SameSegsReflexive(segs: seq<Segment>, fuel: nat)
    requires forall i :: 0 <= i < |segs| ==> ComparableSegment(segs[i])
    ensures SameSegs(segs, segs, map[], fuel) == Done(true, map[])
    decreases SegsSize(segs), 2
  {
    if segs != [] {
      RenderNamed(segs[0].ident);
      if segs[0].args.Angle? {
        SameArgsReflexive(segs[0].args.args, fuel);
      }
      SameSegsReflexive(segs[1..], fuel);
    }
  }

  lemma {:induction false} SameArgsReflexive(args: seq<GenericArg>, fuel: nat)
    requires forall j :: 0 <= j < |args| ==> args[j].TypeArg? && Comparable(args[j].ty)
    ensures SameArgs(args, args, map[], fuel) == Done(true, map[])
    decreases ArgsSize(args), 2
  {
    if args != [] {
      SameTypeReflexive(args[0].ty, fuel);
      SameArgsReflexive(args[1..], fuel);
    }
  }

  /** Two names that are not generics match exactly when they are equal or one is `_`. */
  lemma NamesMatch(x: string, y: string, g: GenericsMap, fuel: nat)
    requires x !in g && y !in g
    ensures SameType(Named(x), Named(y), g, fuel) == Done(x == y || x == "_" || y == "_", g)
  {
    RenderNamed(x);
    RenderNamed(y);
    var c := CheckEqual(Named(x), Named(y), g, fuel);
    assert c == Done(x == y || x == "_" || y == "_", g);
    assert [Segment(x, NoArgs)][1..] == [] && [Segment(y, NoArgs)][1..] == [];
    assert SameSegs([Segment(x, NoArgs)], [Segment(y, NoArgs)], g, fuel) == c;
  }

  /** A generic that is not bound yet is bound to the other side, whichever side it is on. */
  lemma BindUnbound(t: Ty, x: string, g: GenericsMap, fuel: nat)
    requires x in g && g[x].None? && !UnwrapParens(t).Infer? && Render(UnwrapParens(t)) != x
    requires Render(UnwrapParens(t)) !in g && Render(UnwrapParens(t)) != "_" && x != "_"
    ensures SameType(t, Named(x), g, fuel) == Done(true, g[x := Some(UnwrapParens(t))])
    ensures SameType(Named(x), t, g, fuel) == Done(true, g[x := Some(UnwrapParens(t))])
  {
    RenderNamed(x);
    assert UnwrapParens(Named(x)) == Named(x);
    assert IsGeneric(Named(x), g);
    var u := UnwrapParens(t);
    assert TryBind(Render(u), Named(x), g, g, fuel) == Done(false, g);
    assert TryBind(x, u, g, g, fuel) == Done(true, g);
    assert CheckKeys(Render(u), x, u, Named(x), g, fuel) == Done(true, g[x := Some(u)]);
    assert CheckEqual(u, Named(x), g, fuel) == Done(true, g[x := Some(u)]);
  }

  /** A generic on the left that is not bound yet is bound to the right side, even when that is a
    * generic too. */
  lemma BindLeft(x: string, t: Ty, g: GenericsMap, fuel: nat)
    requires x in g && g[x].None? && !UnwrapParens(t).Infer? && Render(UnwrapParens(t)) != x
    requires Render(UnwrapParens(t)) != "_" && x != "_"
    ensures SameType(Named(x), t, g, fuel) == Done(true, g[x := Some(UnwrapParens(t))])
  {
    RenderNamed(x);
    assert UnwrapParens(Named(x)) == Named(x);
    assert IsGeneric(Named(x), g);
  }

  /** The generic map `{T: x}` of the tests. */
  function GenericT(x: Option<Ty>): GenericsMap {
    map["T" := x]
  }

  /** From the tests: `(u8, T)` matches `(u8, i32)` and binds `T` to `i32`. */
  lemma SameTypeTupleBindsExample(fuel: nat)
    ensures SameType(Tuple([Named("u8"), Named("T")]), Tuple([Named("u8"), Named("i32")]), GenericT(None), fuel)
            == Done(true, GenericT(Some(Named("i32"))))
  {
    var g0, g1 := GenericT(None), GenericT(Some(Named("i32")));
    var a, b := [Named("u8"), Named("T")], [Named("u8"), Named("i32")];
    SameTypeTuples(a, b, g0, fuel);
    assert SameType(a[0], b[0], g0, fuel) == Done(true, g0) by {
      NamesMatch("u8", "u8", g0, fuel);
    }
    SameAllStep(a, b, g0, fuel, g0);
    assert a[1..] == [Named("T")] && b[1..] == [Named("i32")];
    SameAllSingle(Named("T"), Named("i32"), g0, fuel);
    assert SameType(Named("T"), Named("i32"), g0, fuel) == Done(true, g1) by {
      RenderNamed("i32");
      BindUnbound(Named("i32"), "T", g0, fuel);
      assert g0["T" := Some(Named("i32"))] == g1;
    }
  }

  /** Two tuples of the same length are matched element by element. */
  lemma SameTypeTuples(a: seq<Ty>, b: seq<Ty>, g: GenericsMap, fuel: nat)
    requires |a| == |b|
    ensures SameType(Tuple(a), Tuple(b), g, fuel) == SameAll(a, b, g, fuel)
  {
  }

  /** A first pair that matches hands its bindings on to the rest. */
  lemma SameAllStep(a: seq<Ty>, b: seq<Ty>, g: GenericsMap, fuel: nat, g': GenericsMap)
    requires a != [] && b != [] && SameType(a[0], b[0], g, fuel) == Done(true, g')
    ensures SameAll(a, b, g, fuel) == SameAll(a[1..], b[1..], g', fuel)
  {
  }

  /** On one pair `SameAll` is `SameType`. */
  lemma SameAllSingle(x: Ty, y: Ty, g: GenericsMap, fuel: nat)
    ensures SameAll([x], [y], g, fuel) == SameType(x, y, g, fuel)
  {
    assert [x][1..] == [] && [y][1..] == [];
  }

  /** From the tests: `(u8, i32)` does not match `(T, T)`: `T` is bound to `u8` by the first
    * element and `u8` is not `i32`. */
  lemma SameTypeTupleRejectsExample(fuel: nat)
    requires fuel >= 1
    ensures SameType(Tuple([Named("u8"), Named("i32")]), Tuple([Named("T"), Named("T")]), GenericT(None), fuel).Done?
    ensures !SameType(Tuple([Named("u8"), Named("i32")]), Tuple([Named("T"), Named("T")]), GenericT(None), fuel).ok
  {
    var g0, g1 := GenericT(None), GenericT(Some(Named("u8")));
    var a, b := [Named("u8"), Named("i32")], [Named("T"), Named("T")];
    SameTypeTuples(a, b, g0, fuel);
    assert SameType(a[0], b[0], g0, fuel) == Done(true, g1) by {
      RenderNamed("u8");
      BindUnbound(Named("u8"), "T", g0, fuel);
      assert g0["T" := Some(Named("u8"))] == g1;
    }
    SameAllStep(a, b, g0, fuel, g1);
    assert a[1..] == [Named("i32")] && b[1..] == [Named("T")];
    SameAllSingle(Named("i32"), Named("T"), g1, fuel);
    BoundMismatch(fuel);
  }

  /** `i32` against `T` bound to `u8`: the binding is compared with `i32` and differs. */
  lemma BoundMismatch(fuel: nat)
    requires fuel >= 1
    ensures SameType(Named("i32"), Named("T"), GenericT(Some(Named("u8"))), fuel) == Done(false, GenericT(Some(Named("u8"))))
  {
    var g1 := GenericT(Some(Named("u8")));
    assert "T" in g1 && "i32" !in g1 && "u8" !in g1;
    RenderNamed("i32");
    RenderNamed("u8");
    RenderNamed("T");
    assert IsGeneric(Named("T"), g1);
    NamesMatch("u8", "i32", g1, fuel - 1);
    assert SameBound(Named("u8"), Named("i32"), g1, fuel) == Done(false, g1);
    assert TryBind("i32", Named("T"), g1, g1, fuel) == Done(false, g1);
    assert TryBind("T", Named("i32"), g1, g1, fuel) == Done(false, g1);
    assert CheckEqual(Named("i32"), Named("T"), g1, fuel) == Done(false, g1);
  }

  /** `{T: U, U: T}`: the bindings the first two elements of `(T, U, T)` against `(U, T, i32)`
    * leave behind. */
  function Cycle(): GenericsMap {
    map["T" := Some(Named("U")), "U" := Some(Named("T"))]
  }

  /** With `T` bound to `U` and `U` to `T`, matching either against `i32` follows the bindings
    * back and forth and never finishes. */
  lemma {:induction false} CycleDiverges(fuel: nat)
    ensures SameType(Named("T"), Named("i32"), Cycle(), fuel) == OutOfFuel
    ensures SameType(Named("U"), Named("i32"), Cycle(), fuel) == OutOfFuel
  {
    RenderNamed("T");
    RenderNamed("U");
    RenderNamed("i32");
    var c := Cycle();
    assert IsGeneric(Named("T"), c) && IsGeneric(Named("U"), c);
    if fuel > 0 {
      CycleDiverges(fuel - 1);
    }
    assert SameBound(Named("U"), Named("i32"), c, fuel) == OutOfFuel;
    assert SameBound(Named("T"), Named("i32"), c, fuel) == OutOfFuel;
    assert TryBind("T", Named("i32"), c, c, fuel) == OutOfFuel;
    assert TryBind("U", Named("i32"), c, c, fuel) == OutOfFuel;
    assert CheckEqual(Named("T"), Named("i32"), c, fuel) == OutOfFuel;
    assert CheckEqual(Named("U"), Named("i32"), c, fuel) == OutOfFuel;
  }

  /** `same_type((T, U, T), (U, T, i32))` with `T` and `U` generic does not finish as written,
    * whatever depth it is given. */
  lemma SameTypeAsWrittenDiverges(fuel: nat)
    ensures SameType(Tuple([Named("T"), Named("U"), Named("T")]), Tuple([Named("U"), Named("T"), Named("i32")]),
                     map["T" := None, "U" := None], fuel) == OutOfFuel
  {
    var g0: GenericsMap := map["T" := None, "U" := None];
    var a, b := [Named("T"), Named("U"), Named("T")], [Named("U"), Named("T"), Named("i32")];
    SameTypeTuples(a, b, g0, fuel);
    CycleDiverges(fuel);
    assert a[2..] == [Named("T")] && b[2..] == [Named("i32")];
    SameAllSingle(Named("T"), Named("i32"), Cycle(), fuel);
    SameAllTwoSteps(a, b, g0, fuel);
  }

  /** The first two elements bind `T` to `U` and `U` to `T`. */
  lemma CycleBound(g0: GenericsMap, fuel: nat)
    requires g0 == map["T" := None, "U" := None]
    ensures SameType(Named("T"), Named("U"), g0, fuel) == Done(true, g0["T" := Some(Named("U"))])
    ensures SameType(Named("U"), Named("T"), g0["T" := Some(Named("U"))], fuel) == Done(true, Cycle())
  {
    RenderNamed("T");
    RenderNamed("U");
    var g1 := g0["T" := Some(Named("U"))];
    BindLeft("T", Named("U"), g0, fuel);
    BindLeft("U", Named("T"), g1, fuel);
    assert g1["U" := Some(Named("T"))] == Cycle();
  }

  /** `SameAll` on three elements: the first two as `CycleBound` says, then the rest. */
  lemma SameAllTwoSteps(a: seq<Ty>, b: seq<Ty>, g0: GenericsMap, fuel: nat)
    requires a == [Named("T"), Named("U"), Named("T")] && b == [Named("U"), Named("T"), Named("i32")]
    requires g0 == map["T" := None, "U" := None]
    ensures SameAll(a, b, g0, fuel) == SameAll(a[2..], b[2..], Cycle(), fuel)
  {
    CycleBound(g0, fuel);
    SameAllStep(a, b, g0, fuel, g0["T" := Some(Named("U"))]);
    assert a[1..][1..] == a[2..] && b[1..][1..] == b[2..];
    assert a[1..][0] == Named("U") && b[1..][0] == Named("T");
    SameAllStep(a[1..], b[1..], g0["T" := Some(Named("U"))], fuel, Cycle());
  }

  /** The source never returns on `(T, U, T)` against `(U, T, i32)`, so the model answers `None`
    * there. */
  lemma CycleNeverFinishes()
    ensures !Finishes(Tuple([Named("T"), Named("U"), Named("T")]), Tuple([Named("U"), Named("T"), Named("i32")]),
                      map["T" := None, "U" := None])
    ensures Matched(Tuple([Named("T"), Named("U"), Named("T")]), Tuple([Named("U"), Named("T"), Named("i32")]),
                    map["T" := None, "U" := None]).ok == false
  {
    forall fuel: nat
      ensures SameType(Tuple([Named("T"), Named("U"), Named("T")]), Tuple([Named("U"), Named("T"), Named("i32")]),
                       map["T" := None, "U" := None], fuel) == OutOfFuel
    {
      SameTypeAsWrittenDiverges(fuel);
    }
  }

  /** `types_equal_generic_constraints((T, U, T), (U, T, i32), {T, U})`, with no aliases, is
    * `None`: the input on which the source recurses forever. */
  lemma CycleRejected()
    ensures TypesEqualGenericConstraints(Tuple([Named("T"), Named("U"), Named("T")]), Tuple([Named("U"), Named("T"), Named("i32")]),
                                         {"T", "U"}, []) == None
  {
    NamedTripleResolved("T", "U", "T");
    NamedTripleResolved("U", "T", "i32");
    assert Unbound({"T", "U"}) == map["T" := None, "U" := None];
    CycleNeverFinishes();
  }

  /** A tuple of three plain names is left as it is when there are no aliases. */
  lemma NamedTripleResolved(a: string, b: string, c: string)
    ensures ResolveType(Tuple([Named(a), Named(b), Named(c)]), []) == Tuple([Named(a), Named(b), Named(c)])
  {
    NamedResolved(a);
    NamedResolved(b);
    NamedResolved(c);
  }

  lemma NamedResolved(x: string)
    ensures ResolveType(Named(x), []) == Named(x)
  {
    assert ResolveSegments([Segment(x, NoArgs)], []) == [Segment(x, NoArgs)];
  }

  /** Bindings are followed through other generics: in `(T, U, T)` against `(U, i32, i32)`, `T`
    * is bound to `U` and `U` to `i32`, so the last `T` reaches `i32` through `U` and matches. */
  lemma ChainFollowed()
    ensures Matched(Tuple([Named("T"), Named("U"), Named("T")]), Tuple([Named("U"), Named("i32"), Named("i32")]),
                    map["T" := None, "U" := None])
            == Done(true, map["T" := Some(Named("i32")), "U" := Some(Named("i32"))])
  {
    var g0: GenericsMap := map["T" := None, "U" := None];
    var g2 := map["T" := Some(Named("U")), "U" := Some(Named("i32"))];
    var a, b := [Named("T"), Named("U"), Named("T")], [Named("U"), Named("i32"), Named("i32")];
    SameTypeTuples(a, b, g0, 2);
    ChainPrefix(a, b, g0, g2);
    SameAllSingle(Named("T"), Named("i32"), g2, 2);
    ChainLast(g2);
    assert g2["T" := Some(Named("i32"))] == map["T" := Some(Named("i32")), "U" := Some(Named("i32"))];
    assert SameType(Tuple(a), Tuple(b), g0, 2).Done?;
  }

  /** The first two elements of `ChainFollowed` bind `T` to `U` and `U` to `i32`. */
  lemma ChainPrefix(a: seq<Ty>, b: seq<Ty>, g0: GenericsMap, g2: GenericsMap)
    requires a == [Named("T"), Named("U"), Named("T")] && b == [Named("U"), Named("i32"), Named("i32")]
    requires g0 == map["T" := None, "U" := None] && g2 == map["T" := Some(Named("U")), "U" := Some(Named("i32"))]
    ensures SameAll(a, b, g0, 2) == SameAll([Named("T")], [Named("i32")], g2, 2)
  {
    var g1 := g0["T" := Some(Named("U"))];
    RenderNamed("T");
    RenderNamed("U");
    RenderNamed("i32");
    BindLeft("T", Named("U"), g0, 2);
    SameAllStep(a, b, g0, 2, g1);
    assert a[1..][0] == Named("U") && b[1..][0] == Named("i32");
    BindLeft("U", Named("i32"), g1, 2);
    assert g1["U" := Some(Named("i32"))] == g2;
    SameAllStep(a[1..], b[1..], g1, 2, g2);
    assert a[1..][1..] == [Named("T")] && b[1..][1..] == [Named("i32")];
  }

  /** The last step of `ChainFollowed`: `T` bound to `U`, `U` bound to `i32`, against `i32`. */
  lemma ChainLast(g2: GenericsMap)
    requires g2 == map["T" := Some(Named("U")), "U" := Some(Named("i32"))]
    ensures SameType(Named("T"), Named("i32"), g2, 2) == Done(true, g2["T" := Some(Named("i32"))])
  {
    RenderNamed("T");
    RenderNamed("U");
    RenderNamed("i32");
    assert IsGeneric(Named("T"), g2) && IsGeneric(Named("U"), g2);
    NamesMatch("i32", "i32", map[], 0);
    assert SameType(Named("i32"), Named("i32"), g2, 0) == Done(true, g2);
    assert CheckEqual(Named("U"), Named("i32"), g2, 1) == Done(true, g2["U" := Some(Named("i32"))]);
    assert g2["U" := Some(Named("i32"))] == g2;
    assert SameBound(Named("U"), Named("i32"), g2, 2) == Done(true, g2);
    assert CheckEqual(Named("T"), Named("i32"), g2, 2) == Done(true, g2["T" := Some(Named("i32"))]);
  }

  /** So `types_equal_generic_constraints((T, U, T), (U, i32, i32), {T, U})` binds both to `i32`. */
  lemma ChainAccepted()
    ensures TypesEqualGenericConstraints(Tuple([Named("T"), Named("U"), Named("T")]), Tuple([Named("U"), Named("i32"), Named("i32")]),
                                         {"T", "U"}, []) == Some(map["T" := Some(Named("i32")), "U" := Some(Named("i32"))])
  {
    NamedTripleResolved("T", "U", "T");
    NamedTripleResolved("U", "i32", "i32");
    assert Unbound({"T", "U"}) == map["T" := None, "U" := None];
    ChainFollowed();
  }


  // ============================================================ replace_type

  /** `prev` is mentioned where `replace_type` looks for it: as a one-segment path named `prev`
    * reached through tuples, references, arrays, slices, parentheses and type arguments. */
  predicate Mentions(t: Ty, p: string)
    decreases t
  {
    match t
    case Tuple(es) => exists i :: 0 <= i < |es| && Mentions(es[i], p)
    case Ref(_, _, e) => Mentions(e, p)
    case Array(e, _) => Mentions(e, p)
    case Slice(e) => Mentions(e, p)
    case Paren(e) => Mentions(e, p)
    case Path(segs) => (|segs| == 1 && segs[0].ident == p) || exists i :: 0 <= i < |segs| && SegmentMentions(segs[i], p)
    case Infer => false
    case Other(_) => false
  }

  predicate SegmentMentions(s: Segment, p: string)
    decreases s
  {
    s.args.Angle? && exists j :: 0 <= j < |s.args.args| && ArgMentions(s.args.args[j], p)
  }

  predicate ArgMentions(a: GenericArg, p: string)
    decreases a
  {
    a.TypeArg? && Mentions(a.ty, p)
  }

  /** `replace_type(ty, prev, new)`: every one-segment path named `prev` (with whatever
    * arguments it has) becomes `new`; everything else is kept and searched. */
  function ReplaceType(t: Ty, p: string, repl: Ty): (r: Ty)
    ensures t.Path? && |t.segs| == 1 && t.segs[0].ident == p ==> r == repl
    ensures !Mentions(t, p) ==> r == t
    ensures !Mentions(repl, p) ==> !Mentions(r, p)
    decreases t
  {
    match t
    case Tuple(es) =>
      var es' := seq(|es|, i requires 0 <= i < |es| => ReplaceType(es[i], p, repl));
      assert !Mentions(t, p) ==> es' == es;
      Tuple(es')
    case Ref(l, m, e) => Ref(l, m, ReplaceType(e, p, repl))
    case Array(e, n) => Array(ReplaceType(e, p, repl), n)
    case Slice(e) => Slice(ReplaceType(e, p, repl))
    case Paren(e) => Paren(ReplaceType(e, p, repl))
    case Path(segs) =>
      if |segs| == 1 && segs[0].ident == p then repl
      else
        var segs' := seq(|segs|, i requires 0 <= i < |segs| => ReplaceInSegment(segs[i], p, repl));
        assert !Mentions(t, p) ==> segs' == segs;
        assert |segs'| == 1 ==> segs'[0].ident == segs[0].ident;
        Path(segs')
    case Infer => t
    case Other(_) => t
  }

  /** The type arguments of one segment; its identifier is kept. */
  function ReplaceInSegment(s: Segment, p: string, repl: Ty): (r: Segment)
    ensures r.ident == s.ident && r.args.Angle? == s.args.Angle?
    ensures !SegmentMentions(s, p) ==> r == s
    ensures !Mentions(repl, p) ==> !SegmentMentions(r, p)
    decreases s
  {
    if s.args.Angle? then
      var args := s.args.args;
      var args' := seq(|args|, j requires 0 <= j < |args| => ReplaceInArg(args[j], p, repl));
      assert !SegmentMentions(s, p) ==> args' == args;
      Segment(s.ident, Angle(args'))
    else s
  }

  function ReplaceInArg(a: GenericArg, p: string, repl: Ty): (r: GenericArg)
    ensures !ArgMentions(a, p) ==> r == a
    ensures !Mentions(repl, p) ==> !ArgMentions(r, p)
    decreases a
  {
    if a.TypeArg? then TypeArg(ReplaceType(a.ty, p, repl)) else a
  }

  /** Replacing with a type that does not mention `prev` removes every mention of it, and a
    * second replacement changes nothing. */
  lemma ReplaceTypeIdempotent(t: Ty, p: string, repl: Ty)
    requires !Mentions(repl, p)
    ensures ReplaceType(ReplaceType(t, p, repl), p, repl) == ReplaceType(t, p, repl)
  {
  }

  /** Every occurrence of `prev` is replaced by `new`, at any depth: when `t` mentions `prev`,
    * the result mentions whatever `new` mentions. */
  lemma {:induction false} ReplaceTypeCarries(t: Ty, p: string, repl: Ty, q: string)
    requires Mentions(t, p) && Mentions(repl, q)
    ensures Mentions(ReplaceType(t, p, repl), q)
    decreases t
  {
    match t
    case Tuple(es) =>
      var i :| 0 <= i < |es| && Mentions(es[i], p);
      ReplaceTypeCarries(es[i], p, repl, q);
      assert ReplaceType(t, p, repl).elems[i] == ReplaceType(es[i], p, repl);
    case Ref(_, _, e) => ReplaceTypeCarries(e, p, repl, q);
    case Array(e, _) => ReplaceTypeCarries(e, p, repl, q);
    case Slice(e) => ReplaceTypeCarries(e, p, repl, q);
    case Paren(e) => ReplaceTypeCarries(e, p, repl, q);
    case Path(segs) =>
      if !(|segs| == 1 && segs[0].ident == p) {
        var i :| 0 <= i < |segs| && SegmentMentions(segs[i], p);
        var args := segs[i].args.args;
        var j :| 0 <= j < |args| && ArgMentions(args[j], p);
        ReplaceTypeCarries(args[j].ty, p, repl, q);
        var s' := ReplaceInSegment(segs[i], p, repl);
        assert s'.args.args[j] == ReplaceInArg(args[j], p, repl);
        assert SegmentMentions(s', q);
        assert ReplaceType(t, p, repl).segs[i] == s';
      }
    case Infer =>
    case Other(_) =>
  }

  /** The placeholder `type_contains` substitutes. */
  const Placeholder := "__G__"

  /** `type_contains(ty, generic)`: replacing `generic` by a placeholder changes the rendering;
    * only a type that mentions `generic` can change. */
  predicate TypeContains(t: Ty, generic: string): (r: bool)
    ensures r ==> Mentions(t, generic)
  {
    Render(ReplaceType(t, generic, Named(Placeholder))) != Render(t)
  }

  /** Replacing `p` by the placeholder in `t` leaves no more copies of `c` than `t` has, and
    * fewer when `t` mentions `p`. */
  ghost predicate Fewer(t: Ty, p: string, c: char) {
    var n, n' := Strings.CountChar(Render(t), c), Strings.CountChar(Render(ReplaceType(t, p, Named(Placeholder))), c);
    n' <= n && (Mentions(t, p) ==> n' < n)
  }

  /** For every character of `p` that the placeholder lacks: the placeholder never adds a copy,
    * and every mention of `p` removes at least one. */
  lemma {:induction false} ReplaceFewer(t: Ty, p: string, c: char)
    requires c in p && c !in Placeholder
    ensures Fewer(t, p, c)
    decreases t, 2
  {
    match t
    case Tuple(_) => TupleFewer(t, p, c);
    case Path(_) => PathFewer(t, p, c);
    case Infer =>
    case Other(_) =>
    case _ => ElemFewer(t, p, c);
  }

  lemma {:induction false} ElemFewer(t: Ty, p: string, c: char)
    requires c in p && c !in Placeholder
    requires t.Ref? || t.Array? || t.Slice? || t.Paren?
    ensures Fewer(t, p, c)
    decreases t, 1
  {
    ReplaceFewer(t.elem, p, c);
    var e' := ReplaceType(t.elem, p, Named(Placeholder));
    ElemContextSame(t, e');
    assert Mentions(t, p) <==> Mentions(t.elem, p);
    Strings.WrapFewer(ElemContext(t).0, Render(t.elem), Render(e'), ElemContext(t).1, c);
  }

  lemma {:induction false} TupleFewer(t: Ty, p: string, c: char)
    requires t.Tuple?
    requires c in p && c !in Placeholder
    ensures Fewer(t, p, c)
    decreases t, 1
  {
    var es := t.elems;
    var es' := seq(|es|, i requires 0 <= i < |es| => ReplaceType(es[i], p, Named(Placeholder)));
    var xs := seq(|es|, i requires 0 <= i < |es| => Render(es[i]));
    var ys := seq(|es'|, i requires 0 <= i < |es'| => Render(es'[i]));
    TysFewer(t, es', xs, ys, p, c);
    assert ReplaceType(t, p, Named(Placeholder)) == Tuple(es');
    Strings.WrapFewer("(", Strings.Join(xs, " , "), Strings.Join(ys, " , "), ")", c);
  }

  /** The elements of a tuple, joined as `Render` joins them. */
  lemma {:induction false} TysFewer(t: Ty, es': seq<Ty>, xs: seq<string>, ys: seq<string>, p: string, c: char)
    requires t.Tuple? && c in p && c !in Placeholder
    requires es' == seq(|t.elems|, i requires 0 <= i < |t.elems| => ReplaceType(t.elems[i], p, Named(Placeholder)))
    requires xs == seq(|t.elems|, i requires 0 <= i < |t.elems| => Render(t.elems[i]))
    requires ys == seq(|es'|, i requires 0 <= i < |es'| => Render(es'[i]))
    ensures Strings.CountChar(Strings.Join(ys, " , "), c) <= Strings.CountChar(Strings.Join(xs, " , "), c)
    ensures Mentions(t, p) ==> Strings.CountChar(Strings.Join(ys, " , "), c) < Strings.CountChar(Strings.Join(xs, " , "), c)
    decreases t, 0
  {
    forall i | 0 <= i < |t.elems| ensures Fewer(t.elems[i], p, c) {
      ReplaceFewer(t.elems[i], p, c);
    }
    Strings.JoinFewer(xs, ys, " , ", c);
    if Mentions(t, p) {
      var i :| 0 <= i < |t.elems| && Mentions(t.elems[i], p);
      assert Strings.CountChar(ys[i], c) < Strings.CountChar(xs[i], c);
    }
  }

  lemma {:induction false} PathFewer(t: Ty, p: string, c: char)
    requires t.Path?
    requires c in p && c !in Placeholder
    ensures Fewer(t, p, c)
    decreases t, 1
  {
    var segs := t.segs;
    if |segs| == 1 && segs[0].ident == p {
      RenderNamed(Placeholder);
      assert Strings.CountChar(Placeholder, c) == 0;
      assert Render(t) == p + RenderSegment(segs[0])[|p|..];
      Strings.CountCharAppend(p, RenderSegment(segs[0])[|p|..], c);
    } else {
      var segs' := seq(|segs|, i requires 0 <= i < |segs| => ReplaceInSegment(segs[i], p, Named(Placeholder)));
      var xs := seq(|segs|, i requires 0 <= i < |segs| => RenderSegment(segs[i]));
      var ys := seq(|segs'|, i requires 0 <= i < |segs'| => RenderSegment(segs'[i]));
      SegsFewer(t, segs', xs, ys, p, c);
      assert ReplaceType(t, p, Named(Placeholder)) == Path(segs');
    }
  }

  /** The segments of a path other than a lone `p`, joined as `Render` joins them. */
  lemma {:induction false} SegsFewer(t: Ty, segs': seq<Segment>, xs: seq<string>, ys: seq<string>, p: string, c: char)
    requires t.Path? && c in p && c !in Placeholder && !(|t.segs| == 1 && t.segs[0].ident == p)
    requires segs' == seq(|t.segs|, i requires 0 <= i < |t.segs| => ReplaceInSegment(t.segs[i], p, Named(Placeholder)))
    requires xs == seq(|t.segs|, i requires 0 <= i < |t.segs| => RenderSegment(t.segs[i]))
    requires ys == seq(|segs'|, i requires 0 <= i < |segs'| => RenderSegment(segs'[i]))
    ensures Strings.CountChar(Strings.Join(ys, " :: "), c) <= Strings.CountChar(Strings.Join(xs, " :: "), c)
    ensures (exists i :: 0 <= i < |t.segs| && SegmentMentions(t.segs[i], p)) ==>
              Strings.CountChar(Strings.Join(ys, " :: "), c) < Strings.CountChar(Strings.Join(xs, " :: "), c)
    decreases t, 0
  {
    forall i | 0 <= i < |t.segs|
      ensures Strings.CountChar(ys[i], c) <= Strings.CountChar(xs[i], c)
      ensures SegmentMentions(t.segs[i], p) ==> Strings.CountChar(ys[i], c) < Strings.CountChar(xs[i], c)
    {
      SegmentFewerHolds(t.segs[i], p, c);
    }
    Strings.JoinFewer(xs, ys, " :: ", c);
  }

  /** `Fewer` for one path segment. */
  ghost predicate SegmentFewer(s: Segment, p: string, c: char) {
    var n, n' := Strings.CountChar(RenderSegment(s), c), Strings.CountChar(RenderSegment(ReplaceInSegment(s, p, Named(Placeholder))), c);
    n' <= n && (SegmentMentions(s, p) ==> n' < n)
  }

  lemma {:induction false} SegmentFewerHolds(s: Segment, p: string, c: char)
    requires c in p && c !in Placeholder
    ensures SegmentFewer(s, p, c)
    decreases s, 1
  {
    if s.args.Angle? {
      var args := s.args.args;
      var args' := seq(|args|, j requires 0 <= j < |args| => ReplaceInArg(args[j], p, Named(Placeholder)));
      var xs := seq(|args|, j requires 0 <= j < |args| => RenderArg(args[j]));
      var ys := seq(|args'|, j requires 0 <= j < |args'| => RenderArg(args'[j]));
      ArgsFewer(s, args', xs, ys, p, c);
      assert ReplaceInSegment(s, p, Named(Placeholder)) == Segment(s.ident, Angle(args'));
      var x, y := " < " + Strings.Join(xs, " , ") + " >", " < " + Strings.Join(ys, " , ") + " >";
      assert RenderSegment(s) == s.ident + x;
      assert RenderSegment(Segment(s.ident, Angle(args'))) == s.ident + y;
      Strings.WrapFewer(" < ", Strings.Join(xs, " , "), Strings.Join(ys, " , "), " >", c);
      Strings.CountCharAppend(s.ident, x, c);
      Strings.CountCharAppend(s.ident, y, c);
    } else {
      assert ReplaceInSegment(s, p, Named(Placeholder)) == s;
    }
  }

  /** The arguments of a segment, joined as `RenderSegment` joins them. */
  lemma {:induction false} ArgsFewer(s: Segment, args': seq<GenericArg>, xs: seq<string>, ys: seq<string>, p: string, c: char)
    requires s.args.Angle? && c in p && c !in Placeholder
    requires args' == seq(|s.args.args|, j requires 0 <= j < |s.args.args| => ReplaceInArg(s.args.args[j], p, Named(Placeholder)))
    requires xs == seq(|s.args.args|, j requires 0 <= j < |s.args.args| => RenderArg(s.args.args[j]))
    requires ys == seq(|args'|, j requires 0 <= j < |args'| => RenderArg(args'[j]))
    ensures Strings.CountChar(Strings.Join(ys, " , "), c) <= Strings.CountChar(Strings.Join(xs, " , "), c)
    ensures SegmentMentions(s, p) ==> Strings.CountChar(Strings.Join(ys, " , "), c) < Strings.CountChar(Strings.Join(xs, " , "), c)
    decreases s, 0
  {
    var args := s.args.args;
    forall j | 0 <= j < |args|
      ensures Strings.CountChar(ys[j], c) <= Strings.CountChar(xs[j], c)
      ensures ArgMentions(args[j], p) ==> Strings.CountChar(ys[j], c) < Strings.CountChar(xs[j], c)
    {
      if args[j].TypeArg? {
        ReplaceFewer(args[j].ty, p, c);
      }
    }
    Strings.JoinFewer(xs, ys, " , ", c);
  }

  /** `type_contains` holds exactly when the type mentions the generic, for every generic with a
    * character that the placeholder `__G__` lacks (every name but those spelt with `_` and `G`). */
  lemma TypeContainsMentions(t: Ty, generic: string, c: char)
    requires c in generic && c !in Placeholder
    ensures TypeContains(t, generic) <==> Mentions(t, generic)
  {
    ReplaceFewer(t, generic, c);
  }

  /** The exception: the placeholder itself is mentioned by `__G__` but not contained in it. */
  lemma TypeContainsPlaceholder()
    ensures Mentions(Named(Placeholder), Placeholder) && !TypeContains(Named(Placeholder), Placeholder)
  {
  }

  /** From the tests: `Option<(T, &[T])>` becomes `Option<(String, &[String])>`. */
  lemma ReplaceTypeNestedExample()
    ensures ReplaceType(Path([Segment("Option", Angle([TypeArg(Tuple([Named("T"), Ref(None, false, Slice(Named("T")))]))]))]), "T", Named("String"))
            == Path([Segment("Option", Angle([TypeArg(Tuple([Named("String"), Ref(None, false, Slice(Named("String")))]))]))])
  {
    var tup := Tuple([Named("T"), Ref(None, false, Slice(Named("T")))]);
    var tup' := Tuple([Named("String"), Ref(None, false, Slice(Named("String")))]);
    assert ReplaceType(tup, "T", Named("String")) == tup';
    var seg := Segment("Option", Angle([TypeArg(tup)]));
    assert ReplaceInSegment(seg, "T", Named("String")) == Segment("Option", Angle([TypeArg(tup')]));
  }

  /** `type_contains` from the tests: `Vec<T>` contains `T`, `Vec<U>` does not. */
  lemma TypeContainsExample()
    ensures !TypeContains(Path([Segment("Vec", Angle([TypeArg(Named("U"))]))]), "T")
  {
    var t := Path([Segment("Vec", Angle([TypeArg(Named("U"))]))]);
    assert !Mentions(t, "T") by {
      assert !Mentions(Named("U"), "T");
      assert !ArgMentions(TypeArg(Named("U")), "T");
      assert !SegmentMentions(Segment("Vec", Angle([TypeArg(Named("U"))])), "T");
    }
  }

  // ============================================================ fresh generic names

  /** The names `get_unique_generic_name` tries: `__G_{n}__`. */
  const G := Pattern("__G_", "__")

  /** `get_unique_generic_name`: tries `__G_{counter}__`, bumping the counter after every try,
    * until a name is not in `generics`; that name is inserted and returned. The loop ends
    * because the set is finite and every try is a new name. */
  method GetUniqueGenericName(generics: set<string>, counter: nat)
    returns (name: string, generics': set<string>, counter': nat)
    ensures name !in generics && generics' == generics + {name}
    ensures counter < counter' && name == Name(G, counter' - 1)
    ensures forall k :: counter <= k < counter' - 1 ==> Name(G, k) in generics
  {
    var c := counter;
    while true
      invariant counter <= c
      invariant forall k :: counter <= k < c ==> Name(G, k) in generics
      decreases |generics| - (c - counter)
    {
      var candidate := Name(G, c);
      c := c + 1;
      if candidate !in generics {
        return candidate, generics + {candidate}, c;
      }
      TakenBound(G, counter, c, generics);
    }
  }


  /** `replace_infers(ty, generics, counter, new_generics)`: every `_`, left to right, is
    * replaced by a fresh generic name, which is also appended to `new_generics`. */
  method ReplaceInfers(t: Ty, s: Namer) returns (r: Ty, s': Namer)
    ensures Extends(G, s, s', InferCount(t))
    ensures r == FillInfers(t, Added(s, s'))
    decreases TySize(t), 3
  {
    match t {
      case Tuple(es) =>
        var es', s1 := ReplaceInfersTys(es, s);
        r, s' := Tuple(es'), s1;
      case Ref(lt, m, e) =>
        var e', s1 := ReplaceInfers(e, s);
        r, s' := Ref(lt, m, e'), s1;
      case Array(e, n) =>
        var e', s1 := ReplaceInfers(e, s);
        r, s' := Array(e', n), s1;
      case Slice(e) =>
        var e', s1 := ReplaceInfers(e, s);
        r, s' := Slice(e'), s1;
      case Paren(e) =>
        var e', s1 := ReplaceInfers(e, s);
        r, s' := Paren(e'), s1;
      case Path(segs) =>
        var segs', s1 := ReplaceInfersSegs(segs, s);
        r, s' := Path(segs'), s1;
      case Infer =>
        var name, generics', counter' := GetUniqueGenericName(s.generics, s.counter);
        ExtendsOne(G, s, name, generics', counter');
        s' := Namer(generics', counter', s.newGenerics + [name]);
        assert Added(s, s') == [name];
        r := Named(name);
      case Other(_) =>
        ExtendsRefl(G, s);
        r, s' := t, s;
    }
  }

  /** The tuple part of `replace_infers`: every element, left to right. */
  method ReplaceInfersTys(es: seq<Ty>, s: Namer) returns (r: seq<Ty>, s': Namer)
    ensures Extends(G, s, s', InferCountTys(es))
    ensures r == FillInfersTys(es, Added(s, s'))
    decreases TysSize(es), 4
  {
    r, s' := [], s;
    TysStart(G, es, s);
    var i := 0;
    while i < |es|
      invariant 0 <= i <= |es|
      invariant TysDone(G, es, i, s, s', r)
    {
      var e, next := ReplaceInfers(es[i], s');
      TysStep(G, es, i, s, s', next, r, e);
      r, s' := r + [e], next;
      i := i + 1;
    }
    TysEnd(G, es, s, s', r);
  }

  /** The path part of `replace_infers`: every segment, left to right. */
  method ReplaceInfersSegs(segs: seq<Segment>, s: Namer) returns (r: seq<Segment>, s': Namer)
    ensures Extends(G, s, s', InferCountSegs(segs))
    ensures r == FillInfersSegs(segs, Added(s, s'))
    decreases SegsSize(segs), 4
  {
    r, s' := [], s;
    SegsStart(G, segs, s);
    var i := 0;
    while i < |segs|
      invariant 0 <= i <= |segs|
      invariant SegsDone(G, segs, i, s, s', r)
    {
      var seg, next := ReplaceInfersSegment(segs[i], s');
      SegsStep(G, segs, i, s, s', next, r, seg);
      r, s' := r + [seg], next;
      i := i + 1;
    }
    SegsEnd(G, segs, s, s', r);
  }

  /** One path segment: the type arguments of an angle-bracketed segment. */
  method ReplaceInfersSegment(seg: Segment, s: Namer) returns (r: Segment, s': Namer)
    ensures Extends(G, s, s', InferCountSeg(seg))
    ensures r == FillInfersSeg(seg, Added(s, s'))
    decreases SegSize(seg), 3
  {
    if !seg.args.Angle? {
      ExtendsRefl(G, s);
      return seg, s;
    }
    var args, s1 := ReplaceInfersArgs(seg.args.args, s);
    r, s' := Segment(seg.ident, Angle(args)), s1;
  }

  /** Every generic argument, left to right. */
  method ReplaceInfersArgs(args: seq<GenericArg>, s: Namer) returns (r: seq<GenericArg>, s': Namer)
    ensures Extends(G, s, s', InferCountArgs(args))
    ensures r == FillInfersArgs(args, Added(s, s'))
    decreases ArgsSize(args), 5
  {
    r, s' := [], s;
    ArgsStart(G, args, s);
    var i := 0;
    while i < |args|
      invariant 0 <= i <= |args|
      invariant ArgsDone(G, args, i, s, s', r)
    {
      var arg, next := ReplaceInfersArg(args[i], s');
      ArgsStep(G, args, i, s, s', next, r, arg);
      r, s' := r + [arg], next;
      i := i + 1;
    }
    ArgsEnd(G, args, s, s', r);
  }

  /** A type argument is rewritten; lifetimes and constants are kept. */
  method ReplaceInfersArg(arg: GenericArg, s: Namer) returns (r: GenericArg, s': Namer)
    ensures Extends(G, s, s', InferCountArg(arg))
    ensures r == FillInfersArg(arg, Added(s, s'))
    decreases ArgSize(arg), 4
  {
    if arg.TypeArg? {
      var ty, s1 := ReplaceInfers(arg.ty, s);
      r, s' := TypeArg(ty), s1;
    } else {
      ExtendsRefl(G, s);
      r, s' := arg, s;
    }
  }

  /** From the tests: starting from no generics and counter 0 the first two names are
    * `__G_0__` and `__G_1__` (from a clean state `Extends` fixes the names to `Names(G, 0, 2)`). */
  lemma ReplaceInfersFirstNames()
    ensures Clean(G, Namer({}, 0, []))
    ensures Names(G, 0, 2) == ["__G_0__", "__G_1__"]
  {
    assert Strings.Decimal(0) == "0" && Strings.Decimal(1) == "1";
    var c := Names(G, 0, 2);
    assert c[0] == "__G_0__" && c[1] == "__G_1__";
  }

  /** From the tests: with those names `Option<(_, &[_])>` becomes `Option<(__G_0__, &[__G_1__])>`. */
  lemma ReplaceInfersNestedExample()
    ensures InferCount(Path([Segment("Option", Angle([TypeArg(Tuple([Infer, Ref(None, false, Slice(Infer))]))]))])) == 2
    ensures FillInfers(Path([Segment("Option", Angle([TypeArg(Tuple([Infer, Ref(None, false, Slice(Infer))]))]))]), ["__G_0__", "__G_1__"])
            == Path([Segment("Option", Angle([TypeArg(Tuple([Named("__G_0__"), Ref(None, false, Slice(Named("__G_1__")))]))]))])
  {
    var tup := Tuple([Infer, Ref(None, false, Slice(Infer))]);
    var tup' := Tuple([Named("__G_0__"), Ref(None, false, Slice(Named("__G_1__")))]);
    var none: seq<string> := [];
    var names := ["__G_0__", "__G_1__"];
    var args := [TypeArg(tup)];
    var seg := Segment("Option", Angle(args));
    assert InferCountSeg(seg) == 2 && FillInfersSeg(seg, names) == Segment("Option", Angle([TypeArg(tup')])) by {
      NestedTupleFill();
      assert args[..0] == [] && args[..1] == args && none + names == names;
      FillInfersArgsStep(args, 0, none, names);
    }
    var segs := [seg];
    assert segs[..0] == [] && segs[..1] == segs;
    FillInfersSegsStep(segs, 0, none, names);
  }

  lemma NestedTupleFill()
    ensures InferCount(Tuple([Infer, Ref(None, false, Slice(Infer))])) == 2
    ensures FillInfers(Tuple([Infer, Ref(None, false, Slice(Infer))]), ["__G_0__", "__G_1__"])
            == Tuple([Named("__G_0__"), Ref(None, false, Slice(Named("__G_1__")))])
  {
    var es := [Infer, Ref(None, false, Slice(Infer))];
    var a, b := "__G_0__", "__G_1__";
    assert InferCountTys(es[..1]) == 1 && FillInfersTys(es[..1], [a]) == [Named(a)] by {
      var none: seq<string> := [];
      assert es[..0] == [] && none + [a] == [a];
      FillInferLeaf(a);
      FillInfersTysStep(es, 0, none, [a]);
    }
    assert InferCountTys(es) == 2 && FillInfersTys(es, [a, b]) == [Named(a), Ref(None, false, Slice(Named(b)))] by {
      assert es[..2] == es && [a] + [b] == [a, b];
      FillRefSliceInfer(b);
      FillInfersTysStep(es, 1, [a], [b]);
    }
  }

  lemma FillInferLeaf(n: string)
    ensures InferCount(Infer) == 1 && FillInfers(Infer, [n]) == Named(n)
  {
  }

  lemma FillRefSliceInfer(n: string)
    ensures InferCount(Ref(None, false, Slice(Infer))) == 1
    ensures FillInfers(Ref(None, false, Slice(Infer)), [n]) == Ref(None, false, Slice(Named(n)))
  {
    FillInferLeaf(n);
  }
}
