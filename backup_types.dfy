/** Type matching and rewriting of the earlier snapshot of the utilities crate
  * (`spec-trait-impl.backup/crates/spec-trait-utils/src/types.rs`): alias resolution,
  * `can_assign` with its generic and lifetime bindings, substitution of types and lifetimes,
  * lifetime stripping and copying, and fresh generic names for `_`. */
module BackupTypes {
  import opened Wrappers
  import opened Syntax
  import Strings
  import opened FreshNames

  // ============================================================ aliases

  /** `Aliases`: a concrete type and the names that stand for it. The source keeps them in a
    * `HashMap` and searches it in iteration order; the model takes that order as given, so the
    * entries are listed in it. */
  type Aliases = seq<(Ty, seq<string>)>

  /** `aliases.iter().find(|(_, v)| v.contains(&ident))`: the first entry that lists `ident`. */
  function FindAlias(aliases: Aliases, ident: string): (r: Option<Ty>)
    ensures r.None? <==> forall i :: 0 <= i < |aliases| ==> ident !in aliases[i].1
    ensures r.Some? ==> exists i :: 0 <= i < |aliases| && ident in aliases[i].1 && r.value == aliases[i].0 &&
                          forall j :: 0 <= j < i ==> ident !in aliases[j].1
  {
    if aliases == [] then None
    else if ident in aliases[0].1 then Some(aliases[0].0)
    else
      var r := FindAlias(aliases[1..], ident);
      assert forall i :: 1 <= i < |aliases| ==> aliases[i] == aliases[1..][i - 1];
      assert r.Some? ==> exists i :: 1 <= i < |aliases| && ident in aliases[i].1 && r.value == aliases[i].0 &&
                          forall j :: 0 <= j < i ==> ident !in aliases[j].1 by {
        if r.Some? {
          var i :| 0 <= i < |aliases| - 1 && ident in aliases[1..][i].1 && r.value == aliases[1..][i].0 &&
                   forall j :: 0 <= j < i ==> ident !in aliases[1..][j].1;
          assert forall j :: 0 <= j < i + 1 ==> ident !in aliases[j].1 by {
            forall j | 0 <= j < i + 1 ensures ident !in aliases[j].1 {
              if j > 0 { assert aliases[j] == aliases[1..][j - 1]; }
            }
          }
        }
      }
      r
  }

  /** The alias replacing a path, looked up by its last identifier. */
  function PathAlias(segs: seq<Segment>, aliases: Aliases): Option<Ty> {
    if segs == [] then None else FindAlias(aliases, segs[|segs| - 1].ident)
  }

  /** `resolve_type`: after removing parentheses, a path whose last identifier is an alias
    * becomes the aliased type; tuples, references, arrays, slices and the type arguments of
    * paths are resolved inside; any other type is returned as it was given. */
  function ResolveType(t: Ty, aliases: Aliases): (r: Ty)
    ensures var u := UnwrapParens(t); u.Path? && PathAlias(u.segs, aliases).Some? ==> r == PathAlias(u.segs, aliases).value
    ensures var u := UnwrapParens(t); !(u.Tuple? || u.Ref? || u.Array? || u.Slice? || u.Path?) ==> r == t
    decreases TySize(t), 1
  {
    var u := UnwrapParens(t);
    match u
    case Tuple(es) => Tuple(seq(|es|, i requires 0 <= i < |es| => ResolveType(es[i], aliases)))
    case Ref(lt, m, e) => Ref(lt, m, ResolveType(e, aliases))
    case Array(e, n) => Array(ResolveType(e, aliases), n)
    case Slice(e) => Slice(ResolveType(e, aliases))
    case Path(segs) =>
      if PathAlias(segs, aliases).Some? then PathAlias(segs, aliases).value
      else Path(ResolveSegments(segs, aliases))
    case _ => t
  }

  function ResolveSegments(segs: seq<Segment>, aliases: Aliases): (r: seq<Segment>)
    ensures |r| == |segs| && forall i :: 0 <= i < |segs| ==> r[i] == ResolveSegment(segs[i], aliases)
    decreases SegsSize(segs), 2
  {
    seq(|segs|, i requires 0 <= i < |segs| => ResolveSegment(segs[i], aliases))
  }

  function ResolveSegment(s: Segment, aliases: Aliases): (r: Segment)
    ensures r.ident == s.ident
    decreases SegSize(s), 0
  {
    if s.args.Angle? then
      Segment(s.ident, Angle(seq(|s.args.args|, j requires 0 <= j < |s.args.args| => ResolveArg(s.args.args[j], aliases))))
    else s
  }

  function ResolveArg(a: GenericArg, aliases: Aliases): (r: GenericArg)
    ensures !a.TypeArg? ==> r == a
    decreases ArgSize(a), 2
  {
    if a.TypeArg? then TypeArg(ResolveType(a.ty, aliases)) else a
  }

  /** Every alias key is already resolved (for instance, no key is itself the name of an alias). */
  predicate KeysResolved(aliases: Aliases) {
    forall i :: 0 <= i < |aliases| ==> ResolveType(aliases[i].0, aliases) == aliases[i].0
  }

  /** Resolving is idempotent when the aliased types are themselves resolved. */
  lemma {:induction false} ResolveTypeIdempotent(t: Ty, aliases: Aliases)
    requires KeysResolved(aliases)
    ensures ResolveType(ResolveType(t, aliases), aliases) == ResolveType(t, aliases)
    decreases TySize(t), 1
  {
    var u := UnwrapParens(t);
    var r := ResolveType(t, aliases);
    match u
    case Tuple(es) =>
      forall i | 0 <= i < |es| ensures ResolveType(ResolveType(es[i], aliases), aliases) == ResolveType(es[i], aliases) {
        ResolveTypeIdempotent(es[i], aliases);
      }
    case Ref(lt, _, e) => ResolveTypeIdempotent(e, aliases);
    case Array(e, n) => ResolveTypeIdempotent(e, aliases);
    case Slice(e) => ResolveTypeIdempotent(e, aliases);
    case Path(segs) =>
      if PathAlias(segs, aliases).None? {
        ResolveSegmentsIdempotent(segs, aliases);
      } else {
        var k := PathAlias(segs, aliases).value;
        assert exists i :: 0 <= i < |aliases| && k == aliases[i].0;
      }
    case _ =>
  }

  /** The segments of a path that is not an alias: resolving them again changes nothing. */
  lemma {:induction false} ResolveSegmentsIdempotent(segs: seq<Segment>, aliases: Aliases)
    requires KeysResolved(aliases) && PathAlias(segs, aliases).None?
    ensures ResolveType(Path(ResolveSegments(segs, aliases)), aliases) == Path(ResolveSegments(segs, aliases))
    decreases SegsSize(segs), 3
  {
    var rs := ResolveSegments(segs, aliases);
    assert PathAlias(rs, aliases) == PathAlias(segs, aliases);
    forall i | 0 <= i < |segs| ensures ResolveSegment(rs[i], aliases) == rs[i] {
      ResolveSegmentIdempotent(segs[i], aliases);
    }
    assert ResolveSegments(rs, aliases) == rs;
  }

  lemma {:induction false} ResolveSegmentIdempotent(s: Segment, aliases: Aliases)
    requires KeysResolved(aliases)
    ensures ResolveSegment(ResolveSegment(s, aliases), aliases) == ResolveSegment(s, aliases)
    decreases SegSize(s), 0
  {
    if s.args.Angle? {
      var rs := ResolveSegment(s, aliases);
      forall j | 0 <= j < |s.args.args| ensures ResolveArg(rs.args.args[j], aliases) == rs.args.args[j] {
        ResolveArgIdempotent(s.args.args[j], aliases);
      }
    }
  }

  lemma {:induction false} ResolveArgIdempotent(a: GenericArg, aliases: Aliases)
    requires KeysResolved(aliases)
    ensures ResolveArg(ResolveArg(a, aliases), aliases) == ResolveArg(a, aliases)
    decreases ArgSize(a), 2
  {
    if a.TypeArg? {
      ResolveTypeIdempotent(a.ty, aliases);
    }
  }

  /** `resolve_type` on the alias map `{u8: [MyType]}` of the tests: inside `Option<(.., Vec<..>)>`
    * every `MyType` becomes `u8`. */
  lemma ResolveTypeExample()
    ensures var aliases := [(Named("u8"), ["MyType"])];
      ResolveType(Path([Segment("Option", Angle([TypeArg(Tuple([Named("MyType"), Path([Segment("Vec", Angle([TypeArg(Named("MyType"))]))])]))]))]), aliases)
      == Path([Segment("Option", Angle([TypeArg(Tuple([Named("u8"), Path([Segment("Vec", Angle([TypeArg(Named("u8"))]))])]))]))])
  {
    var aliases := [(Named("u8"), ["MyType"])];
    ResolveAliasName();
    ResolveOneArgPath("Vec", Named("MyType"), aliases);
    var inner := Path([Segment("Vec", Angle([TypeArg(Named("MyType"))]))]);
    var tup := Tuple([Named("MyType"), inner]);
    assert ResolveType(tup, aliases) == Tuple([Named("u8"), Path([Segment("Vec", Angle([TypeArg(Named("u8"))]))])]);
    ResolveOneArgPath("Option", tup, aliases);
  }

  /** `(MyType)` resolves to `u8`. */
  lemma ResolveTypeParenExample()
    ensures ResolveType(Paren(Named("MyType")), [(Named("u8"), ["MyType"])]) == Named("u8")
  {
    ResolveAliasName();
  }

  lemma ResolveAliasName()
    ensures ResolveType(Named("MyType"), [(Named("u8"), ["MyType"])]) == Named("u8")
  {
  }

  /** A one-segment path that is not an alias keeps its name and resolves its one argument. */
  lemma ResolveOneArgPath(id: string, t: Ty, aliases: Aliases)
    requires FindAlias(aliases, id).None?
    ensures ResolveType(Path([Segment(id, Angle([TypeArg(t)]))]), aliases) == Path([Segment(id, Angle([TypeArg(ResolveType(t, aliases))]))])
  {
    var seg := Segment(id, Angle([TypeArg(t)]));
    assert PathAlias([seg], aliases).None?;
    var rs := ResolveSegment(seg, aliases);
    assert ResolveArg(TypeArg(t), aliases) == TypeArg(ResolveType(t, aliases));
    assert seg.args.args[0] == TypeArg(t);
    assert |rs.args.args| == 1 && rs.args.args[0] == TypeArg(ResolveType(t, aliases));
    assert rs == Segment(id, Angle([TypeArg(ResolveType(t, aliases))]));
    assert ResolveSegments([seg], aliases) == [rs];
  }

  // ============================================================ constrained generics

  /** `ConstrainedGenerics`: every declared type and lifetime parameter with the type or
    * lifetime it has been bound to so far, if any. */
  datatype ConstrainedGenerics = ConstrainedGenerics(types: map<string, Option<Ty>>, lifetimes: map<string, Option<string>>)

  /** `ConstrainedGenerics::from`: every type parameter and every lifetime parameter, unbound. */
  function FromGenerics(gs: Generics): (r: ConstrainedGenerics)
    ensures forall n :: n in r.types <==> exists i :: 0 <= i < |gs.params| && IsTypeParamNamed(gs.params[i], n)
    ensures forall n :: n in r.lifetimes <==> exists i :: 0 <= i < |gs.params| && IsLifetimeParamNamed(gs.params[i], n)
    ensures forall n :: n in r.types ==> r.types[n].None?
    ensures forall n :: n in r.lifetimes ==> r.lifetimes[n].None?
  {
    var tys := TypeParamNames(gs.params);
    var lts := LifetimeParamNames(gs.params);
    ConstrainedGenerics(map n | n in tys :: None, map n | n in lts :: None)
  }

  /** `ConstrainedGenerics::default()`. */
  function NoGenerics(): ConstrainedGenerics {
    ConstrainedGenerics(map[], map[])
  }

  // ============================================================ can_assign

  /** The result of the matcher: a verdict with the updated bindings, or `OutOfFuel` when the
    * recursion through bindings has not finished within the given depth. */
  datatype Outcome = Done(ok: bool, g: ConstrainedGenerics) | OutOfFuel

  /** Both halves of the matcher keep the declared names: only bindings change. */
  predicate SameNames(g: ConstrainedGenerics, g': ConstrainedGenerics) {
    g'.types.Keys == g.types.Keys && g'.lifetimes.Keys == g.lifetimes.Keys
  }

  /** `syn::PathArguments::is_empty`. */
  predicate ArgsEmpty(a: PathArgs) {
    a.NoArgs? || (a.Angle? && a.args == [])
  }

  /** The wildcard lifetime that a declared lifetime is compared with: the source writes `"_"`,
    * which no rendered lifetime equals; `'_` is meant. */
  function WildcardLifetime(fixLifetimes: bool): string {
    if fixLifetimes then "'_" else "_"
  }

  /** `check_and_assign_lifetime_generic`. A declared lifetime that is a lifetime generic binds
    * to the concrete one if it is unbound; if it is bound, the source compares the declared
    * name with the binding, the corrected version the concrete lifetime with it. Otherwise the
    * match succeeds only if the declared lifetime is absent or the wildcard, or the concrete
    * one is `'static`. */
  function CheckLifetime(concrete: Option<string>, declared: Option<string>, lts: map<string, Option<string>>, fixLifetimes: bool)
    : (r: (bool, map<string, Option<string>>))
    ensures r.1.Keys == lts.Keys
    ensures declared.None? ==> r == (true, lts)
    ensures declared.Some? && declared.value in lts && lts[declared.value].None? ==> r == (true, lts[declared.value := concrete])
    ensures declared.Some? && declared.value !in lts ==>
              r == (declared.value == WildcardLifetime(fixLifetimes) || concrete == Some("'static"), lts)
    ensures concrete == Some("'static") ==> r.0
    ensures fixLifetimes && declared.Some? && declared.value in lts && lts[declared.value] == concrete ==> r.0
  {
    if declared.Some? && declared.value in lts &&
       (lts[declared.value].None? ||
        (if fixLifetimes then concrete == lts[declared.value] else declared.value == lts[declared.value].value))
    then (true, lts[declared.value := concrete])
    else (declared.None? || declared.value == WildcardLifetime(fixLifetimes) || concrete == Some("'static"), lts)
  }

  /** `check_and_assign_type_generic`: the declared side is looked up by its rendering. An
    * unbound generic binds to the concrete type. A bound one is matched against its binding
    * with the same bindings, re-entering `can_assign` (this is where the recursion may not end,
    * so each such step spends one unit of fuel); on success the binding is overwritten with the
    * concrete type. Otherwise, with the bindings the attempt left, the two renderings must be
    * equal or the declared one `_`. */
  function CheckType(concrete: Ty, declared: Ty, g: ConstrainedGenerics, fixLifetimes: bool, fuel: nat): (r: Outcome)
    ensures r.Done? ==> SameNames(g, r.g)
    decreases fuel, 0, 1
  {
    var key := Render(declared);
    if key !in g.types then Done(Render(concrete) == key || key == "_", g)
    else if g.types[key].None? then Done(true, g.(types := g.types[key := Some(concrete)]))
    else CheckBound(concrete, key, g.types[key].value, g, fixLifetimes, fuel)
  }

  /** The bound case of `check_and_assign_type_generic`: the concrete type against the binding
    * `bound` of `key`. */
  function CheckBound(concrete: Ty, key: string, bound: Ty, g: ConstrainedGenerics, fixLifetimes: bool, fuel: nat): (r: Outcome)
    requires key in g.types
    ensures r.Done? ==> SameNames(g, r.g)
    ensures fuel == 0 ==> r.OutOfFuel?
    decreases fuel, 0, 0
  {
    if fuel == 0 then OutOfFuel
    else
      var sub := Go(concrete, bound, g, fixLifetimes, fuel - 1);
      if sub.OutOfFuel? then OutOfFuel
      else if sub.ok then Done(true, sub.g.(types := sub.g.types[key := Some(concrete)]))
      else Done(Render(concrete) == key || key == "_", sub.g)
  }

  /** A one-segment path whose identifier is a declared type generic: the shape the generic arm
    * of `can_assign` looks for on the declared side. */
  predicate IsGenericPath(t: Ty, g: ConstrainedGenerics) {
    t.Path? && |t.segs| == 1 && t.segs[0].ident in g.types
  }

  /** `can_assign(concrete, declared, generics)`, directional, after removing parentheses: `_` on
    * either side fits, a declared generic goes through `check_and_assign_type_generic`, and
    * anything else is compared part by part. */
  function Go(t1: Ty, t2: Ty, g: ConstrainedGenerics, fixLifetimes: bool, fuel: nat): (r: Outcome)
    ensures r.Done? ==> SameNames(g, r.g)
    ensures UnwrapParens(t2).Infer? || UnwrapParens(t1).Infer? ==> r == Done(true, g)
    decreases fuel, TySize(t2), 2
  {
    var u1 := UnwrapParens(t1);
    var u2 := UnwrapParens(t2);
    if u2.Infer? || u1.Infer? then Done(true, g)
    else if IsGenericPath(u2, g) then CheckType(u1, u2, g, fixLifetimes, fuel)
    else GoShape(u1, u2, g, fixLifetimes, fuel)
  }

  /** The structural arms of `can_assign`: tuples of the same length element by element,
    * references by lifetime and then referent, slices, arrays by element and length, paths of
    * the same length segment by segment; any other pair does not fit. */
  function GoShape(u1: Ty, u2: Ty, g: ConstrainedGenerics, fixLifetimes: bool, fuel: nat): (r: Outcome)
    ensures r.Done? ==> SameNames(g, r.g)
    decreases fuel, TySize(u2), 1
  {
    match (u1, u2)
    case (Tuple(es1), Tuple(es2)) => if |es1| == |es2| then GoAll(es1, es2, g, fixLifetimes, fuel) else Done(false, g)
    case (Ref(l1, _, e1), Ref(l2, _, e2)) =>
      var (ok, lts) := CheckLifetime(l1, l2, g.lifetimes, fixLifetimes);
      if ok then Go(e1, e2, g.(lifetimes := lts), fixLifetimes, fuel) else Done(false, g.(lifetimes := lts))
    case (Slice(e1), Slice(e2)) => Go(e1, e2, g, fixLifetimes, fuel)
    case (Array(e1, n1), Array(e2, n2)) =>
      var sub := Go(e1, e2, g, fixLifetimes, fuel);
      if sub.OutOfFuel? then sub else Done(sub.ok && (n1.LenInfer? || n2.LenInfer? || n1 == n2), sub.g)
    case (Path(s1), Path(s2)) => if |s1| == |s2| then GoSegs(s1, s2, g, fixLifetimes, fuel) else Done(false, g)
    case _ => Done(false, g)
  }

  /** `zip(..).all(can_assign)`: stops at the first failure, keeping the bindings made so far. */
  function GoAll(es1: seq<Ty>, es2: seq<Ty>, g: ConstrainedGenerics, fixLifetimes: bool, fuel: nat): (r: Outcome)
    ensures r.Done? ==> SameNames(g, r.g)
    decreases fuel, TysSize(es2), 3
  {
    if es1 == [] || es2 == [] then Done(true, g)
    else
      var sub := Go(es1[0], es2[0], g, fixLifetimes, fuel);
      if sub.OutOfFuel? || !sub.ok then sub
      else GoAll(es1[1..], es2[1..], sub.g, fixLifetimes, fuel)
  }

  /** The segments of two paths of the same length: identifiers through
    * `check_and_assign_type_generic`, then the arguments. */
  function GoSegs(s1: seq<Segment>, s2: seq<Segment>, g: ConstrainedGenerics, fixLifetimes: bool, fuel: nat): (r: Outcome)
    ensures r.Done? ==> SameNames(g, r.g)
    decreases fuel, SegsSize(s2), 3
  {
    if s1 == [] || s2 == [] then Done(true, g)
    else
      var c := CheckType(Named(s1[0].ident), Named(s2[0].ident), g, fixLifetimes, fuel);
      if c.OutOfFuel? || !c.ok then c
      else
        var a := if s1[0].args.Angle? && s2[0].args.Angle? then GoArgs(s1[0].args.args, s2[0].args.args, c.g, fixLifetimes, fuel)
                 else Done(ArgsEmpty(s1[0].args) && ArgsEmpty(s2[0].args), c.g);
        if a.OutOfFuel? || !a.ok then a
        else GoSegs(s1[1..], s2[1..], a.g, fixLifetimes, fuel)
  }

  /** Angle-bracketed arguments, pairwise: two type arguments are matched, any other pair fails. */
  function GoArgs(a1: seq<GenericArg>, a2: seq<GenericArg>, g: ConstrainedGenerics, fixLifetimes: bool, fuel: nat): (r: Outcome)
    ensures r.Done? ==> SameNames(g, r.g)
    decreases fuel, ArgsSize(a2), 3
  {
    if a1 == [] || a2 == [] then Done(true, g)
    else if a1[0].TypeArg? && a2[0].TypeArg? then
      var sub := Go(a1[0].ty, a2[0].ty, g, fixLifetimes, fuel);
      if sub.OutOfFuel? || !sub.ok then sub
      else GoArgs(a1[1..], a2[1..], sub.g, fixLifetimes, fuel)
    else Done(false, g)
  }

  /** `can_assign` as written, run with a recursion depth `fuel`. */
  function CanAssignAsWritten(concrete: Ty, declared: Ty, g: ConstrainedGenerics, fuel: nat): (r: Outcome)
    ensures r.Done? ==> SameNames(g, r.g)
    ensures UnwrapParens(declared).Infer? || UnwrapParens(concrete).Infer? ==> r == Done(true, g)
  {
    Go(concrete, declared, g, false, fuel)
  }

  // ------------------------------------------------------------ more fuel changes nothing

  /** Once the matcher finishes within some depth, any greater depth gives the same outcome. */
  lemma {:induction false} GoMono(t1: Ty, t2: Ty, g: ConstrainedGenerics, fix: bool, fuel: nat, fuel': nat)
    requires fuel <= fuel' && Go(t1, t2, g, fix, fuel).Done?
    ensures Go(t1, t2, g, fix, fuel') == Go(t1, t2, g, fix, fuel)
    decreases fuel, TySize(t2), 2
  {
    var u1, u2 := UnwrapParens(t1), UnwrapParens(t2);
    if u2.Infer? || u1.Infer? {
    } else if IsGenericPath(u2, g) {
      CheckTypeMono(u1, u2, g, fix, fuel, fuel');
    } else {
      GoShapeMono(u1, u2, g, fix, fuel, fuel');
    }
  }

  lemma {:induction false} CheckTypeMono(concrete: Ty, declared: Ty, g: ConstrainedGenerics, fix: bool, fuel: nat, fuel': nat)
    requires fuel <= fuel' && CheckType(concrete, declared, g, fix, fuel).Done?
    ensures CheckType(concrete, declared, g, fix, fuel') == CheckType(concrete, declared, g, fix, fuel)
    decreases fuel, 0, 1
  {
    var key := Render(declared);
    if key in g.types && g.types[key].Some? {
      CheckBoundMono(concrete, key, g.types[key].value, g, fix, fuel, fuel');
    }
  }

  lemma {:induction false} CheckBoundMono(concrete: Ty, key: string, bound: Ty, g: ConstrainedGenerics, fix: bool, fuel: nat, fuel': nat)
    requires key in g.types
    requires fuel <= fuel' && CheckBound(concrete, key, bound, g, fix, fuel).Done?
    ensures CheckBound(concrete, key, bound, g, fix, fuel') == CheckBound(concrete, key, bound, g, fix, fuel)
    decreases fuel, 0, 0
  {
    assert fuel > 0;
    var sub := Go(concrete, bound, g, fix, fuel - 1);
    assert sub.Done?;
    GoMono(concrete, bound, g, fix, fuel - 1, fuel' - 1);
  }

  lemma {:induction false} GoShapeMono(u1: Ty, u2: Ty, g: ConstrainedGenerics, fix: bool, fuel: nat, fuel': nat)
    requires fuel <= fuel' && GoShape(u1, u2, g, fix, fuel).Done?
    ensures GoShape(u1, u2, g, fix, fuel') == GoShape(u1, u2, g, fix, fuel)
    decreases fuel, TySize(u2), 1
  {
    match (u1, u2)
    case (Tuple(es1), Tuple(es2)) => if |es1| == |es2| { GoAllMono(es1, es2, g, fix, fuel, fuel'); }
    case (Ref(l1, _, e1), Ref(l2, _, e2)) =>
      var (ok, lts) := CheckLifetime(l1, l2, g.lifetimes, fix);
      if ok { GoMono(e1, e2, g.(lifetimes := lts), fix, fuel, fuel'); }
    case (Slice(e1), Slice(e2)) => GoMono(e1, e2, g, fix, fuel, fuel');
    case (Array(e1, _), Array(e2, _)) => GoMono(e1, e2, g, fix, fuel, fuel');
    case (Path(s1), Path(s2)) => if |s1| == |s2| { GoSegsMono(s1, s2, g, fix, fuel, fuel'); }
    case _ =>
  }

  lemma {:induction false} GoAllMono(es1: seq<Ty>, es2: seq<Ty>, g: ConstrainedGenerics, fix: bool, fuel: nat, fuel': nat)
    requires fuel <= fuel' && GoAll(es1, es2, g, fix, fuel).Done?
    ensures GoAll(es1, es2, g, fix, fuel') == GoAll(es1, es2, g, fix, fuel)
    decreases fuel, TysSize(es2), 3
  {
    if es1 != [] && es2 != [] {
      var sub := Go(es1[0], es2[0], g, fix, fuel);
      GoMono(es1[0], es2[0], g, fix, fuel, fuel');
      if sub.Done? && sub.ok {
        GoAllMono(es1[1..], es2[1..], sub.g, fix, fuel, fuel');
      }
    }
  }

  lemma {:induction false} GoSegsMono(s1: seq<Segment>, s2: seq<Segment>, g: ConstrainedGenerics, fix: bool, fuel: nat, fuel': nat)
    requires fuel <= fuel' && GoSegs(s1, s2, g, fix, fuel).Done?
    ensures GoSegs(s1, s2, g, fix, fuel') == GoSegs(s1, s2, g, fix, fuel)
    decreases fuel, SegsSize(s2), 3
  {
    if s1 != [] && s2 != [] {
      var c := CheckType(Named(s1[0].ident), Named(s2[0].ident), g, fix, fuel);
      CheckTypeMono(Named(s1[0].ident), Named(s2[0].ident), g, fix, fuel, fuel');
      if c.Done? && c.ok {
        if s1[0].args.Angle? && s2[0].args.Angle? {
          GoArgsMono(s1[0].args.args, s2[0].args.args, c.g, fix, fuel, fuel');
        }
        var a := if s1[0].args.Angle? && s2[0].args.Angle? then GoArgs(s1[0].args.args, s2[0].args.args, c.g, fix, fuel)
                 else Done(ArgsEmpty(s1[0].args) && ArgsEmpty(s2[0].args), c.g);
        if a.Done? && a.ok {
          GoSegsMono(s1[1..], s2[1..], a.g, fix, fuel, fuel');
        }
      }
    }
  }

  lemma {:induction false} GoArgsMono(a1: seq<GenericArg>, a2: seq<GenericArg>, g: ConstrainedGenerics, fix: bool, fuel: nat, fuel': nat)
    requires fuel <= fuel' && GoArgs(a1, a2, g, fix, fuel).Done?
    ensures GoArgs(a1, a2, g, fix, fuel') == GoArgs(a1, a2, g, fix, fuel)
    decreases fuel, ArgsSize(a2), 3
  {
    if a1 != [] && a2 != [] && a1[0].TypeArg? && a2[0].TypeArg? {
      var sub := Go(a1[0].ty, a2[0].ty, g, fix, fuel);
      GoMono(a1[0].ty, a2[0].ty, g, fix, fuel, fuel');
      if sub.Done? && sub.ok {
        GoArgsMono(a1[1..], a2[1..], sub.g, fix, fuel, fuel');
      }
    }
  }

  /** Any two depths at which the matcher finishes give the same outcome. */
  lemma GoAgree(t1: Ty, t2: Ty, g: ConstrainedGenerics, fix: bool, fuel: nat)
    requires Go(t1, t2, g, fix, fuel).Done?
    ensures forall fuel': nat :: Go(t1, t2, g, fix, fuel').Done? ==> Go(t1, t2, g, fix, fuel') == Go(t1, t2, g, fix, fuel)
  {
    forall fuel': nat | Go(t1, t2, g, fix, fuel').Done?
      ensures Go(t1, t2, g, fix, fuel') == Go(t1, t2, g, fix, fuel)
    {
      if fuel <= fuel' {
        GoMono(t1, t2, g, fix, fuel, fuel');
      } else {
        GoMono(t1, t2, g, fix, fuel', fuel);
      }
    }
  }

  // ------------------------------------------------------------ the matcher as a whole

  /** `can_assign` returns at all: some depth of recursion through bindings is enough. */
  ghost predicate Finishes(t1: Ty, t2: Ty, g: ConstrainedGenerics, fix: bool) {
    exists fuel: nat :: Go(t1, t2, g, fix, fuel).Done?
  }

  /** The outcome of `can_assign` independent of any depth: what it returns whenever it returns,
    * and a rejection with the bindings unchanged on the inputs where it recurses forever (see
    * `CanAssignAsWrittenDiverges`). */
  ghost function Matched(t1: Ty, t2: Ty, g: ConstrainedGenerics, fix: bool): (r: Outcome)
    ensures r.Done? && SameNames(g, r.g)
    ensures forall fuel: nat :: Go(t1, t2, g, fix, fuel).Done? ==> r == Go(t1, t2, g, fix, fuel)
    ensures !Finishes(t1, t2, g, fix) ==> r == Done(false, g)
  {
    if Finishes(t1, t2, g, fix) then
      var fuel: nat :| Go(t1, t2, g, fix, fuel).Done?;
      GoAgree(t1, t2, g, fix, fuel);
      Go(t1, t2, g, fix, fuel)
    else Done(false, g)
  }

  /** A one-segment path without arguments whose name is a declared type generic: the
    * declared side of a binding. */
  predicate IsGenericName(t: Ty, g: ConstrainedGenerics) {
    t.Path? && |t.segs| == 1 && t.segs[0] == Segment(t.segs[0].ident, NoArgs) && t.segs[0].ident in g.types
  }

  /** `can_assign`, corrected: `'_` is the wildcard lifetime and a bound lifetime is compared
    * with the concrete one; on inputs where the recursion through type bindings never ends the
    * answer is `false` with the bindings unchanged; on all others it is what the matcher returns. */
  ghost function CanAssign(concrete: Ty, declared: Ty, g: ConstrainedGenerics): (r: (bool, ConstrainedGenerics))
    ensures SameNames(g, r.1)
    ensures UnwrapParens(declared).Infer? || UnwrapParens(concrete).Infer? ==> r == (true, g)
    ensures var u1, u2 := UnwrapParens(concrete), UnwrapParens(declared);
      !u1.Infer? && IsGenericName(u2, g) && g.types[u2.segs[0].ident].None? ==>
        r == (true, g.(types := g.types[u2.segs[0].ident := Some(u1)]))
    ensures forall fuel: nat :: Go(concrete, declared, g, true, fuel).Done? ==>
              r == (Go(concrete, declared, g, true, fuel).ok, Go(concrete, declared, g, true, fuel).g)
    ensures !Finishes(concrete, declared, g, true) ==> r == (false, g)
  {
    var u1 := UnwrapParens(concrete);
    var u2 := UnwrapParens(declared);
    var o := Matched(concrete, declared, g, true);
    assert !u1.Infer? && IsGenericName(u2, g) && g.types[u2.segs[0].ident].None? ==>
             Go(concrete, declared, g, true, 0) == Done(true, g.(types := g.types[u2.segs[0].ident := Some(u1)])) by {
      if !u1.Infer? && IsGenericName(u2, g) && g.types[u2.segs[0].ident].None? {
        var name := u2.segs[0].ident;
        assert u2 == Named(name);
        RenderNamed(name);
        assert Go(concrete, declared, g, true, 0) == CheckType(u1, u2, g, true, 0);
      }
    }
    assert UnwrapParens(declared).Infer? || UnwrapParens(concrete).Infer? ==> Go(concrete, declared, g, true, 0) == Done(true, g);
    (o.ok, o.g)
  }

  /** `type_assignable_generic_constraints`: both types are resolved through the aliases, the
    * generics start unbound, and the bindings are returned when the concrete type can be
    * assigned to the declared one. */
  ghost function TypeAssignableGenericConstraints(concrete: Ty, declared: Ty, gs: Generics, aliases: Aliases): (r: Option<ConstrainedGenerics>)
    ensures r.Some? ==> SameNames(FromGenerics(gs), r.value)
    ensures UnwrapParens(ResolveType(declared, aliases)).Infer? ==> r == Some(FromGenerics(gs))
    ensures r.Some? <==> CanAssign(ResolveType(concrete, aliases), ResolveType(declared, aliases), FromGenerics(gs)).0
  {
    var (ok, g) := CanAssign(ResolveType(concrete, aliases), ResolveType(declared, aliases), FromGenerics(gs));
    if ok then Some(g) else None
  }

  /** `type_assignable`. */
  ghost predicate TypeAssignable(concrete: Ty, declared: Ty, gs: Generics, aliases: Aliases) {
    TypeAssignableGenericConstraints(concrete, declared, gs, aliases).Some?
  }

  // ------------------------------------------------------------ properties of can_assign

  /** The types `can_assign` accepts against themselves without generics: no opaque type, no
    * lifetime other than none, `'static` or `'_`, and only type arguments in paths. */
  predicate Plain(t: Ty)
    decreases t, 1
  {
    match t
    case Tuple(es) => forall i :: 0 <= i < |es| ==> Plain(es[i])
    case Ref(l, _, e) => (l.None? || l == Some("'static") || l == Some("'_")) && Plain(e)
    case Array(e, _) => Plain(e)
    case Slice(e) => Plain(e)
    case Paren(e) => Plain(e)
    case Path(segs) => forall i :: 0 <= i < |segs| ==> PlainSegment(segs[i])
    case Infer => true
    case Other(_) => false
  }

  predicate PlainSegment(s: Segment)
    decreases s, 0
  {
    s.args.NoArgs? ||
    (s.args.Angle? && forall j :: 0 <= j < |s.args.args| ==> s.args.args[j].TypeArg? && Plain(s.args.args[j].ty))
  }

  lemma PlainUnwrap(t: Ty)
    requires Plain(t)
    ensures Plain(UnwrapParens(t))
  {
  }

  /** Without generics, a plain type can be assigned to itself and nothing is bound. */
  lemma CanAssignReflexive(t: Ty)
    requires Plain(t)
    ensures CanAssign(t, t, NoGenerics()) == (true, NoGenerics())
  {
    GoReflexive(t);
  }

  lemma {:induction false} GoReflexive(t: Ty)
    requires Plain(t)
    ensures Go(t, t, NoGenerics(), true, 0) == Done(true, NoGenerics())
    decreases TySize(t), 1
  {
    var u := UnwrapParens(t);
    PlainUnwrap(t);
    match u
    case Tuple(es) => GoAllReflexive(es);
    case Ref(l, _, e) => GoReflexive(e);
    case Array(e, _) => GoReflexive(e);
    case Slice(e) => GoReflexive(e);
    case Path(segs) => GoSegsReflexive(segs);
    case Infer =>
  }

  lemma {:induction false} GoAllReflexive(es: seq<Ty>)
    requires forall i :: 0 <= i < |es| ==> Plain(es[i])
    ensures GoAll(es, es, NoGenerics(), true, 0) == Done(true, NoGenerics())
    decreases TysSize(es), 2
  {
    if es != [] {
      GoReflexive(es[0]);
      GoAllReflexive(es[1..]);
    }
  }

  lemma {:induction false} GoSegsReflexive(segs: seq<Segment>)
    requires forall i :: 0 <= i < |segs| ==> PlainSegment(segs[i])
    ensures GoSegs(segs, segs, NoGenerics(), true, 0) == Done(true, NoGenerics())
    decreases SegsSize(segs), 2
  {
    if segs != [] {
      RenderNamed(segs[0].ident);
      if segs[0].args.Angle? {
        GoArgsReflexive(segs[0].args.args);
      }
      GoSegsReflexive(segs[1..]);
    }
  }

  lemma {:induction false} GoArgsReflexive(args: seq<GenericArg>)
    requires forall j :: 0 <= j < |args| ==> args[j].TypeArg? && Plain(args[j].ty)
    ensures GoArgs(args, args, NoGenerics(), true, 0) == Done(true, NoGenerics())
    decreases ArgsSize(args), 2
  {
    if args != [] {
      GoReflexive(args[0].ty);
      GoArgsReflexive(args[1..]);
    }
  }

  /** The generic map `{T: None}` of the tests, and the same with `T` bound to `x`. */
  function GenericT(x: Option<Ty>): ConstrainedGenerics {
    ConstrainedGenerics(map["T" := x], map[])
  }

  /** Two plain names that are not generics match exactly when they are equal (or the
    * declared one is `_`), and bind nothing. */
  lemma NamesMatch(x: string, y: string, g: ConstrainedGenerics, fix: bool, fuel: nat)
    requires y !in g.types
    ensures Go(Named(x), Named(y), g, fix, fuel) == Done(x == y || y == "_", g)
  {
    RenderNamed(x);
    RenderNamed(y);
    var c := CheckType(Named(x), Named(y), g, fix, fuel);
    assert c == Done(x == y || y == "_", g);
    assert [Segment(x, NoArgs)][1..] == [] && [Segment(y, NoArgs)][1..] == [];
    assert GoSegs([], [], g, fix, fuel) == Done(true, g);
    assert GoSegs([Segment(x, NoArgs)], [Segment(y, NoArgs)], g, fix, fuel) == c;
  }

  /** An unbound generic binds to whatever (not `_`) is assigned to it. */
  lemma BindUnbound(t: Ty, x: string, g: ConstrainedGenerics, fix: bool, fuel: nat)
    requires x in g.types && g.types[x].None? && !UnwrapParens(t).Infer?
    ensures Go(t, Named(x), g, fix, fuel) == Done(true, g.(types := g.types[x := Some(UnwrapParens(t))]))
  {
    RenderNamed(x);
    assert UnwrapParens(Named(x)) == Named(x);
    var c := CheckType(UnwrapParens(t), Named(x), g, fix, fuel);
    assert c == Done(true, g.(types := g.types[x := Some(UnwrapParens(t))]));
  }

  /** The match is directional: `u8` can be assigned to `T`, `T` cannot be assigned to `u8`. */
  lemma CanAssignDirectional()
    ensures CanAssign(Named("u8"), Named("T"), GenericT(None)) == (true, GenericT(Some(Named("u8"))))
    ensures !CanAssign(Named("T"), Named("u8"), GenericT(None)).0
  {
    BindUnbound(Named("u8"), "T", GenericT(None), true, 0);
    assert GenericT(None).types["T" := Some(Named("u8"))] == GenericT(Some(Named("u8"))).types;
    NamesMatch("T", "u8", GenericT(None), true, 0);
  }

  /** `(u8, i32)` cannot be assigned to `(T, T)`: `T` is bound to `u8` first. */
  lemma CanAssignSameGenericExample()
    ensures !CanAssign(Tuple([Named("u8"), Named("i32")]), Tuple([Named("T"), Named("T")]), GenericT(None)).0
  {
    var g0, g1 := GenericT(None), GenericT(Some(Named("u8")));
    var a, b := [Named("u8"), Named("i32")], [Named("T"), Named("T")];
    GoTuples(a, b, g0, true, 1);
    assert Go(a[0], b[0], g0, true, 1) == Done(true, g1) by {
      BindUnbound(Named("u8"), "T", g0, true, 1);
      assert g0.types["T" := Some(Named("u8"))] == g1.types;
    }
    GoAllStep(a, b, g0, true, 1, g1);
    assert a[1..] == [Named("i32")] && b[1..] == [Named("T")];
    GoAllSingle(Named("i32"), Named("T"), g1, true, 1);
    BoundToOther();
  }

  /** Two tuples of the same length are matched element by element. */
  lemma GoTuples(a: seq<Ty>, b: seq<Ty>, g: ConstrainedGenerics, fix: bool, fuel: nat)
    requires |a| == |b|
    ensures Go(Tuple(a), Tuple(b), g, fix, fuel) == GoAll(a, b, g, fix, fuel)
  {
    assert !IsGenericPath(Tuple(b), g);
  }

  /** A first pair that matches hands its bindings on to the rest. */
  lemma GoAllStep(a: seq<Ty>, b: seq<Ty>, g: ConstrainedGenerics, fix: bool, fuel: nat, g': ConstrainedGenerics)
    requires a != [] && b != [] && Go(a[0], b[0], g, fix, fuel) == Done(true, g')
    ensures GoAll(a, b, g, fix, fuel) == GoAll(a[1..], b[1..], g', fix, fuel)
  {
  }

  /** On one pair `GoAll` is `Go`. */
  lemma GoAllSingle(x: Ty, y: Ty, g: ConstrainedGenerics, fix: bool, fuel: nat)
    ensures GoAll([x], [y], g, fix, fuel) == Go(x, y, g, fix, fuel)
  {
    assert [x][1..] == [] && [y][1..] == [];
  }

  /** `i32` against `T` bound to `u8` fails: `i32` is not `u8`, and not `T` either. */
  lemma BoundToOther()
    ensures Go(Named("i32"), Named("T"), GenericT(Some(Named("u8"))), true, 1) == Done(false, GenericT(Some(Named("u8"))))
  {
    var g1 := GenericT(Some(Named("u8")));
    NamesMatch("i32", "u8", g1, true, 0);
    RenderNamed("T");
    RenderNamed("i32");
    assert CheckType(Named("i32"), Named("T"), g1, true, 1) == Done(false, g1);
  }

  /** `&'a u8` cannot be assigned to `&'static u8`. */
  lemma CanAssignStaticExample()
    ensures !CanAssign(Ref(Some("'a"), false, Named("u8")), Ref(Some("'static"), false, Named("u8")),
                       ConstrainedGenerics(map[], map["'a" := None])).0
  {
    var g := ConstrainedGenerics(map[], map["'a" := None]);
    assert Go(Ref(Some("'a"), false, Named("u8")), Ref(Some("'static"), false, Named("u8")), g, true, 0) == Done(false, g);
  }

  /** `&'static u8` can be assigned to `&u8`. */
  lemma CanAssignFromStaticExample()
    ensures CanAssign(Ref(Some("'static"), false, Named("u8")), Ref(None, false, Named("u8")), NoGenerics()).0
  {
    NamesMatch("u8", "u8", NoGenerics(), true, 0);
    assert Go(Ref(Some("'static"), false, Named("u8")), Ref(None, false, Named("u8")), NoGenerics(), true, 0).ok;
  }

  /** `[u8; 3]` cannot be assigned to `[u8; 4]`, but can to `[_; _]`. */
  lemma CanAssignArrayExamples()
    ensures !CanAssign(Array(Named("u8"), LenExpr("3")), Array(Named("u8"), LenExpr("4")), NoGenerics()).0
    ensures CanAssign(Array(Named("u8"), LenExpr("3")), Array(Infer, LenInfer), NoGenerics()).0
  {
    NamesMatch("u8", "u8", NoGenerics(), true, 0);
    assert LenExpr("3") != LenExpr("4");
    assert !Go(Array(Named("u8"), LenExpr("3")), Array(Named("u8"), LenExpr("4")), NoGenerics(), true, 0).ok;
    assert Go(Array(Named("u8"), LenExpr("3")), Array(Infer, LenInfer), NoGenerics(), true, 0).ok;
  }

  /** A nested case from the tests: `Result<Vec<u8>, String>` fits `Result<Vec<_>, _>`. */
  lemma CanAssignNestedExample()
    ensures CanAssign(Path([Segment("Result", Angle([TypeArg(Path([Segment("Vec", Angle([TypeArg(Named("u8"))]))])), TypeArg(Named("String"))]))]),
                      Path([Segment("Result", Angle([TypeArg(Path([Segment("Vec", Angle([TypeArg(Infer)]))])), TypeArg(Infer)]))]),
                      NoGenerics()).0
  {
    var v1 := Path([Segment("Vec", Angle([TypeArg(Named("u8"))]))]);
    var v2 := Path([Segment("Vec", Angle([TypeArg(Infer)]))]);
    GoOneSegment("Vec", [TypeArg(Named("u8"))], [TypeArg(Infer)], NoGenerics());
    InferArgMatches(Named("u8"));
    InferArgMatches(Named("String"));
    var a1, a2 := [TypeArg(v1), TypeArg(Named("String"))], [TypeArg(v2), TypeArg(Infer)];
    assert a1[1..] == [TypeArg(Named("String"))] && a2[1..] == [TypeArg(Infer)];
    assert GoArgs(a1, a2, NoGenerics(), true, 0) == Done(true, NoGenerics());
    GoOneSegment("Result", a1, a2, NoGenerics());
  }

  /** Any type fits a single `_` argument. */
  lemma InferArgMatches(t: Ty)
    ensures GoArgs([TypeArg(t)], [TypeArg(Infer)], NoGenerics(), true, 0) == Done(true, NoGenerics())
  {
    assert [TypeArg(t)][1..] == [] && [TypeArg(Infer)][1..] == [];
  }

  /** Two one-segment paths with the same identifier, which is not a generic, match as their
    * arguments do. */
  lemma GoOneSegment(id: string, a1: seq<GenericArg>, a2: seq<GenericArg>, g: ConstrainedGenerics)
    requires id !in g.types
    ensures Go(Path([Segment(id, Angle(a1))]), Path([Segment(id, Angle(a2))]), g, true, 0) == GoArgs(a1, a2, g, true, 0)
  {
    RenderNamed(id);
    var s1, s2 := [Segment(id, Angle(a1))], [Segment(id, Angle(a2))];
    assert CheckType(Named(id), Named(id), g, true, 0) == Done(true, g);
    assert s1[1..] == [] && s2[1..] == [];
    assert GoSegs(s1, s2, g, true, 0) == GoArgs(a1, a2, g, true, 0);
  }

  /** Bindings are followed through other generics: assigning `(U, i32)` to `(T, T)` binds `T`
    * to `U`, then matches `i32` against `U`, which binds `U` to `i32`, and `T` is rebound to
    * `i32`. */
  lemma ChainAccepted()
    ensures CanAssign(Tuple([Named("U"), Named("i32")]), Tuple([Named("T"), Named("T")]),
                      ConstrainedGenerics(map["T" := None, "U" := None], map[]))
            == (true, ConstrainedGenerics(map["T" := Some(Named("i32")), "U" := Some(Named("i32"))], map[]))
  {
    var g0 := ConstrainedGenerics(map["T" := None, "U" := None], map[]);
    var g1 := ConstrainedGenerics(map["T" := Some(Named("U")), "U" := None], map[]);
    var a, b := [Named("U"), Named("i32")], [Named("T"), Named("T")];
    GoTuples(a, b, g0, true, 1);
    assert Go(a[0], b[0], g0, true, 1) == Done(true, g1) by {
      BindUnbound(Named("U"), "T", g0, true, 1);
      assert g0.types["T" := Some(Named("U"))] == g1.types;
    }
    GoAllStep(a, b, g0, true, 1, g1);
    assert a[1..] == [Named("i32")] && b[1..] == [Named("T")];
    GoAllSingle(Named("i32"), Named("T"), g1, true, 1);
    ChainLast(g1);
  }

  /** The last step of `ChainAccepted`: `i32` against `T`, bound to the unbound `U`. */
  lemma ChainLast(g1: ConstrainedGenerics)
    requires g1 == ConstrainedGenerics(map["T" := Some(Named("U")), "U" := None], map[])
    ensures Go(Named("i32"), Named("T"), g1, true, 1)
            == Done(true, ConstrainedGenerics(map["T" := Some(Named("i32")), "U" := Some(Named("i32"))], map[]))
  {
    var g2 := ConstrainedGenerics(map["T" := Some(Named("U")), "U" := Some(Named("i32"))], map[]);
    RenderNamed("T");
    BindUnbound(Named("i32"), "U", g1, true, 0);
    assert g1.types["U" := Some(Named("i32"))] == g2.types;
    assert CheckType(Named("i32"), Named("T"), g1, true, 1) == Done(true, g2.(types := g2.types["T" := Some(Named("i32"))]));
    assert g2.types["T" := Some(Named("i32"))] == map["T" := Some(Named("i32")), "U" := Some(Named("i32"))];
  }

  // ------------------------------------------------------------ findings

  /** Once `T` is bound to `T`, matching `T` against `T` re-enters `can_assign` with the same
    * bindings forever. */
  lemma {:induction false} SelfBoundDiverges(fix: bool, fuel: nat)
    ensures Go(Named("T"), Named("T"), GenericT(Some(Named("T"))), fix, fuel) == OutOfFuel
  {
    RenderNamed("T");
    var g := GenericT(Some(Named("T")));
    assert IsGenericPath(Named("T"), g);
    assert Go(Named("T"), Named("T"), g, fix, fuel) == CheckBound(Named("T"), "T", Named("T"), g, fix, fuel);
    if fuel > 0 {
      SelfBoundDiverges(fix, fuel - 1);
    }
  }

  /** `can_assign((T, T), (T, T))` with `T` generic does not finish as written, whatever depth
    * it is given: the first `T` binds `T` to `T`, the second loops on that binding. */
  lemma {:induction false} SelfBoundCycle(fix: bool, fuel: nat)
    ensures Go(Tuple([Named("T"), Named("T")]), Tuple([Named("T"), Named("T")]), GenericT(None), fix, fuel) == OutOfFuel
  {
    RenderNamed("T");
    var g1 := GenericT(Some(Named("T")));
    BindUnbound(Named("T"), "T", GenericT(None), fix, fuel);
    assert GenericT(None).types["T" := Some(Named("T"))] == g1.types;
    SelfBoundDiverges(fix, fuel);
    assert GoAll([Named("T")], [Named("T")], g1, fix, fuel) == OutOfFuel;
    assert [Named("T"), Named("T")][1..] == [Named("T")];
    assert GoAll([Named("T"), Named("T")], [Named("T"), Named("T")], GenericT(None), fix, fuel) == OutOfFuel;
    assert !IsGenericPath(Tuple([Named("T"), Named("T")]), GenericT(None));
  }

  lemma CanAssignAsWrittenDiverges(fuel: nat)
    ensures CanAssignAsWritten(Tuple([Named("T"), Named("T")]), Tuple([Named("T"), Named("T")]), GenericT(None), fuel) == OutOfFuel
  {
    SelfBoundCycle(false, fuel);
  }

  /** The corrected matcher rejects the same pair, leaving `T` unbound, instead of recursing. */
  lemma CanAssignSelfBound()
    ensures CanAssign(Tuple([Named("T"), Named("T")]), Tuple([Named("T"), Named("T")]), GenericT(None))
            == (false, GenericT(None))
  {
    forall fuel: nat
      ensures Go(Tuple([Named("T"), Named("T")]), Tuple([Named("T"), Named("T")]), GenericT(None), true, fuel) == OutOfFuel
    {
      SelfBoundCycle(true, fuel);
    }
  }

  /** `(&'b u8, &'b u8)` against `(&'a u8, &'a u8)` with `'a` generic: the second `'a` is
    * rejected as written, because the bound lifetime `'b` is compared with the name `'a`. */
  lemma LifetimeRebindAsWritten(fuel: nat)
    ensures var g := ConstrainedGenerics(map[], map["'a" := None]);
      CanAssignAsWritten(Tuple([Ref(Some("'b"), false, Named("u8")), Ref(Some("'b"), false, Named("u8"))]),
                         Tuple([Ref(Some("'a"), false, Named("u8")), Ref(Some("'a"), false, Named("u8"))]), g, fuel).Done?
      && !CanAssignAsWritten(Tuple([Ref(Some("'b"), false, Named("u8")), Ref(Some("'b"), false, Named("u8"))]),
                             Tuple([Ref(Some("'a"), false, Named("u8")), Ref(Some("'a"), false, Named("u8"))]), g, fuel).ok
  {
    RenderNamed("u8");
    var g := ConstrainedGenerics(map[], map["'a" := None]);
    var g1 := ConstrainedGenerics(map[], map["'a" := Some("'b")]);
    NamesMatch("u8", "u8", g1, false, fuel);
    assert g.lifetimes["'a" := Some("'b")] == g1.lifetimes;
    assert CheckLifetime(Some("'b"), Some("'a"), g.lifetimes, false) == (true, g1.lifetimes);
    var rb, ra := Ref(Some("'b"), false, Named("u8")), Ref(Some("'a"), false, Named("u8"));
    assert !IsGenericPath(ra, g) && !IsGenericPath(ra, g1);
    assert Go(rb, ra, g, false, fuel) == Done(true, g1);
    assert CheckLifetime(Some("'b"), Some("'a"), g1.lifetimes, false) == (false, g1.lifetimes);
    assert Go(rb, ra, g1, false, fuel) == Done(false, g1);
    GoTuples([rb, rb], [ra, ra], g, false, fuel);
    GoAllStep([rb, rb], [ra, ra], g, false, fuel, g1);
    assert [rb, rb][1..] == [rb] && [ra, ra][1..] == [ra];
    GoAllSingle(rb, ra, g1, false, fuel);
  }

  /** The corrected check accepts the same lifetime twice. */
  lemma LifetimeRebind()
    ensures CanAssign(Tuple([Ref(Some("'b"), false, Named("u8")), Ref(Some("'b"), false, Named("u8"))]),
                      Tuple([Ref(Some("'a"), false, Named("u8")), Ref(Some("'a"), false, Named("u8"))]),
                      ConstrainedGenerics(map[], map["'a" := None])).0
  {
    RenderNamed("u8");
    var g := ConstrainedGenerics(map[], map["'a" := None]);
    var g1 := ConstrainedGenerics(map[], map["'a" := Some("'b")]);
    NamesMatch("u8", "u8", g1, true, 0);
    assert g.lifetimes["'a" := Some("'b")] == g1.lifetimes;
    assert g1.lifetimes["'a" := Some("'b")] == g1.lifetimes;
    var rb, ra := Ref(Some("'b"), false, Named("u8")), Ref(Some("'a"), false, Named("u8"));
    assert CheckLifetime(Some("'b"), Some("'a"), g.lifetimes, true) == (true, g1.lifetimes);
    assert Go(rb, ra, g, true, 0) == Done(true, g1);
    assert CheckLifetime(Some("'b"), Some("'a"), g1.lifetimes, true) == (true, g1.lifetimes);
    assert Go(rb, ra, g1, true, 0) == Done(true, g1);
    GoTuples([rb, rb], [ra, ra], g, true, 0);
    GoAllStep([rb, rb], [ra, ra], g, true, 0, g1);
    assert [rb, rb][1..] == [rb] && [ra, ra][1..] == [ra];
    GoAllSingle(rb, ra, g1, true, 0);
  }

  /** `&'x u8` against `&'_ u8`: the wildcard lifetime renders as `'_`, never as `_`, so the
    * source rejects it. */
  lemma WildcardLifetimeRejectedAsWritten(fuel: nat)
    ensures CanAssignAsWritten(Ref(Some("'x"), false, Named("u8")), Ref(Some("'_"), false, Named("u8")), NoGenerics(), fuel) == Done(false, NoGenerics())
  {
    var g := NoGenerics();
    assert !IsGenericPath(Ref(Some("'_"), false, Named("u8")), g);
    assert CheckLifetime(Some("'x"), Some("'_"), g.lifetimes, false) == (false, g.lifetimes);
    assert g.(lifetimes := g.lifetimes) == g;
    assert GoShape(Ref(Some("'x"), false, Named("u8")), Ref(Some("'_"), false, Named("u8")), g, false, fuel) == Done(false, g);
  }

  /** The corrected check accepts any lifetime for `'_`. */
  lemma WildcardLifetimeAccepted()
    ensures CanAssign(Ref(Some("'x"), false, Named("u8")), Ref(Some("'_"), false, Named("u8")), NoGenerics()).0
  {
    NamesMatch("u8", "u8", NoGenerics(), true, 0);
    assert Go(Ref(Some("'x"), false, Named("u8")), Ref(Some("'_"), false, Named("u8")), NoGenerics(), true, 0).ok;
  }

  // ============================================================ replace_type

  /** `prev` occurs in `t` where `replace_type` looks for it: a sub-type rendered as `prev`, or a
    * path segment named `prev`. */
  predicate Occurs(t: Ty, p: string)
    decreases t, 1
  {
    Render(t) == p ||
    match t
    case Tuple(es) => exists i :: 0 <= i < |es| && Occurs(es[i], p)
    case Ref(_, _, e) => Occurs(e, p)
    case Array(e, _) => Occurs(e, p)
    case Slice(e) => Occurs(e, p)
    case Paren(e) => Occurs(e, p)
    case Path(segs) => exists i :: 0 <= i < |segs| && SegmentOccurs(segs[i], p)
    case Infer => false
    case Other(_) => false
  }

  predicate SegmentOccurs(s: Segment, p: string)
    decreases s, 0
  {
    s.ident == p ||
    (s.args.Angle? && exists j :: 0 <= j < |s.args.args| && s.args.args[j].TypeArg? && Occurs(s.args.args[j].ty, p))
  }

  /** `replace_type(ty, prev, new)`, where `prev` is given parsed. A sub-type rendered like
    * `prev` is replaced whole; `_` is replaced when `prev` is `_`; a one-segment path named
    * `prev` without arguments is replaced; any other path segment named `prev` is renamed to the
    * rendering of `new`, which panics (`Err`) unless that rendering is an identifier. */
  function ReplaceType(t: Ty, prev: Ty, repl: Ty): (r: Result<Ty>)
    ensures Render(t) == Render(prev) ==> r == Ok(repl)
    ensures IsIdent(Render(repl)) ==> r.Ok?
    ensures !Occurs(t, Render(prev)) ==> r == Ok(t)
    decreases TySize(t), 1
  {
    var p := Render(prev);
    if Render(t) == p then Ok(repl)
    else
      match t
      case Tuple(es) => var es' :- ReplaceTypes(es, prev, repl); Ok(Tuple(es'))
      case Ref(l, m, e) => var e' :- ReplaceType(e, prev, repl); Ok(Ref(l, m, e'))
      case Array(e, n) => var e' :- ReplaceType(e, prev, repl); Ok(Array(e', n))
      case Slice(e) => var e' :- ReplaceType(e, prev, repl); Ok(Slice(e'))
      case Paren(e) => var e' :- ReplaceType(e, prev, repl); Ok(Paren(e'))
      case Infer => if p == "_" then Ok(repl) else Ok(t)
      case Path(segs) =>
        if |segs| == 1 && segs[0].ident == p && ArgsEmpty(segs[0].args) then assert SegmentOccurs(segs[0], p); Ok(repl)
        else var segs' :- ReplaceSegments(segs, prev, repl); Ok(Path(segs'))
      case Other(_) => Ok(t)
  }

  function ReplaceTypes(es: seq<Ty>, prev: Ty, repl: Ty): (r: Result<seq<Ty>>)
    ensures r.Ok? ==> |r.value| == |es|
    ensures IsIdent(Render(repl)) ==> r.Ok?
    ensures (forall i :: 0 <= i < |es| ==> !Occurs(es[i], Render(prev))) ==> r == Ok(es)
    decreases TysSize(es), 2
  {
    if es == [] then Ok([])
    else
      var e :- ReplaceType(es[0], prev, repl);
      var rest :- ReplaceTypes(es[1..], prev, repl);
      assert (forall i :: 0 <= i < |es| ==> !Occurs(es[i], Render(prev))) ==> [es[0]] + es[1..] == es;
      Ok([e] + rest)
  }

  function ReplaceSegments(segs: seq<Segment>, prev: Ty, repl: Ty): (r: Result<seq<Segment>>)
    ensures r.Ok? ==> |r.value| == |segs|
    ensures IsIdent(Render(repl)) ==> r.Ok?
    ensures (forall i :: 0 <= i < |segs| ==> !SegmentOccurs(segs[i], Render(prev))) ==> r == Ok(segs)
    decreases SegsSize(segs), 2
  {
    if segs == [] then Ok([])
    else
      var s :- ReplaceSegment(segs[0], prev, repl);
      var rest :- ReplaceSegments(segs[1..], prev, repl);
      assert (forall i :: 0 <= i < |segs| ==> !SegmentOccurs(segs[i], Render(prev))) ==> [segs[0]] + segs[1..] == segs;
      Ok([s] + rest)
  }

  /** One segment: `Ident::repl(&to_string(repl))` for a segment named `prev`, then the type
    * arguments. */
  function ReplaceSegment(s: Segment, prev: Ty, repl: Ty): (r: Result<Segment>)
    ensures IsIdent(Render(repl)) ==> r.Ok?
    ensures r.Ok? ==> r.value.ident == (if s.ident == Render(prev) then Render(repl) else s.ident)
    ensures !SegmentOccurs(s, Render(prev)) ==> r == Ok(s)
    decreases SegSize(s), 1
  {
    var ident :- if s.ident != Render(prev) then Ok(s.ident)
                 else if IsIdent(Render(repl)) then Ok(Render(repl))
                 else Err("`" + Render(repl) + "` is not a valid Ident");
    if s.args.Angle? then
      var args :- ReplaceArgs(s.args.args, prev, repl);
      Ok(Segment(ident, Angle(args)))
    else Ok(Segment(ident, s.args))
  }

  function ReplaceArgs(args: seq<GenericArg>, prev: Ty, repl: Ty): (r: Result<seq<GenericArg>>)
    ensures r.Ok? ==> |r.value| == |args|
    ensures IsIdent(Render(repl)) ==> r.Ok?
    ensures (forall j :: 0 <= j < |args| ==> !(args[j].TypeArg? && Occurs(args[j].ty, Render(prev)))) ==> r == Ok(args)
    decreases ArgsSize(args), 3
  {
    if args == [] then Ok([])
    else
      var a :- ReplaceArg(args[0], prev, repl);
      var rest :- ReplaceArgs(args[1..], prev, repl);
      assert (forall j :: 0 <= j < |args| ==> !(args[j].TypeArg? && Occurs(args[j].ty, Render(prev)))) ==> [args[0]] + args[1..] == args;
      Ok([a] + rest)
  }

  function ReplaceArg(a: GenericArg, prev: Ty, repl: Ty): (r: Result<GenericArg>)
    ensures IsIdent(Render(repl)) ==> r.Ok?
    ensures !(a.TypeArg? && Occurs(a.ty, Render(prev))) ==> r == Ok(a)
    decreases ArgSize(a), 2
  {
    if a.TypeArg? then var t :- ReplaceType(a.ty, prev, repl); Ok(TypeArg(t)) else Ok(a)
  }

  /** The placeholder `type_contains` substitutes. */
  const Placeholder := "__G__"

  /** `type_contains(ty, generic)`: replacing `generic` by a placeholder changes the rendering. */
  predicate TypeContains(t: Ty, generic: Ty) {
    var r := ReplaceType(t, generic, Named(Placeholder));
    r.Ok? && Render(r.value) != Render(t)
  }

  /** The placeholder is an identifier, so the replacement never panics; a type that changes
    * mentions the generic. */
  lemma TypeContainsOccurs(t: Ty, generic: Ty)
    ensures ReplaceType(t, generic, Named(Placeholder)).Ok?
    ensures TypeContains(t, generic) ==> Occurs(t, Render(generic))
  {
    RenderNamed(Placeholder);
    assert IsIdent(Placeholder);
  }

  /** Replacing `prev` by the placeholder in `t` succeeds, leaves no more copies of `c` than
    * `t` has, and fewer when `prev` occurs in `t`. */
  ghost predicate Fewer(t: Ty, prev: Ty, c: char) {
    var r := ReplaceType(t, prev, Named(Placeholder));
    r.Ok? && Strings.CountChar(Render(r.value), c) <= Strings.CountChar(Render(t), c) &&
    (Occurs(t, Render(prev)) ==> Strings.CountChar(Render(r.value), c) < Strings.CountChar(Render(t), c))
  }

  /** For every character of the rendering of `prev` that the placeholder lacks: the
    * placeholder never adds a copy, and every occurrence of `prev` removes at least one. */
  lemma {:induction false} ReplaceFewer(t: Ty, prev: Ty, c: char)
    requires c in Render(prev) && c !in Placeholder
    ensures Fewer(t, prev, c)
    decreases TySize(t), 2
  {
    RenderNamed(Placeholder);
    if Render(t) == Render(prev) {
      assert Strings.CountChar(Placeholder, c) == 0;
    } else {
      match t
      case Tuple(_) => TupleFewer(t, prev, c);
      case Path(_) => PathFewer(t, prev, c);
      case Infer =>
      case Other(_) =>
      case _ => ElemFewer(t, prev, c);
    }
  }

  lemma {:induction false} ElemFewer(t: Ty, prev: Ty, c: char)
    requires c in Render(prev) && c !in Placeholder && Render(t) != Render(prev)
    requires t.Ref? || t.Array? || t.Slice? || t.Paren?
    ensures Fewer(t, prev, c)
    decreases TySize(t), 1
  {
    ReplaceFewer(t.elem, prev, c);
    var e' := ReplaceType(t.elem, prev, Named(Placeholder)).value;
    assert ReplaceType(t, prev, Named(Placeholder)) == Ok(t.(elem := e'));
    ElemContextSame(t, e');
    assert Occurs(t, Render(prev)) <==> Occurs(t.elem, Render(prev));
    Strings.WrapFewer(ElemContext(t).0, Render(t.elem), Render(e'), ElemContext(t).1, c);
  }

  lemma {:induction false} TupleFewer(t: Ty, prev: Ty, c: char)
    requires c in Render(prev) && c !in Placeholder && Render(t) != Render(prev) && t.Tuple?
    ensures Fewer(t, prev, c)
    decreases TySize(t), 1
  {
    var es := t.elems;
    var es' := TysFewer(es, prev, c);
    var xs := seq(|es|, i requires 0 <= i < |es| => Render(es[i]));
    var ys := seq(|es'|, i requires 0 <= i < |es'| => Render(es'[i]));
    Strings.JoinFewer(xs, ys, " , ", c);
    assert ReplaceType(t, prev, Named(Placeholder)) == Ok(Tuple(es'));
    Strings.WrapFewer("(", Strings.Join(xs, " , "), Strings.Join(ys, " , "), ")", c);
    assert Render(t) == "(" + Strings.Join(xs, " , ") + ")";
    assert Render(Tuple(es')) == "(" + Strings.Join(ys, " , ") + ")";
    if Occurs(t, Render(prev)) {
      var i :| 0 <= i < |es| && Occurs(es[i], Render(prev));
      assert Strings.CountChar(ys[i], c) < Strings.CountChar(xs[i], c);
    }
  }

  /** The elements of a tuple, one by one. */
  lemma {:induction false} TysFewer(es: seq<Ty>, prev: Ty, c: char) returns (r: seq<Ty>)
    requires c in Render(prev) && c !in Placeholder
    ensures ReplaceTypes(es, prev, Named(Placeholder)) == Ok(r) && |r| == |es|
    ensures forall i :: 0 <= i < |es| ==> Strings.CountChar(Render(r[i]), c) <= Strings.CountChar(Render(es[i]), c)
    ensures forall i :: 0 <= i < |es| && Occurs(es[i], Render(prev)) ==> Strings.CountChar(Render(r[i]), c) < Strings.CountChar(Render(es[i]), c)
    decreases TysSize(es), 3
  {
    RenderNamed(Placeholder);
    assert IsIdent(Placeholder);
    if es == [] {
      r := [];
    } else {
      ReplaceFewer(es[0], prev, c);
      var rest := TysFewer(es[1..], prev, c);
      r := [ReplaceType(es[0], prev, Named(Placeholder)).value] + rest;
      forall i | 0 <= i < |es|
        ensures Strings.CountChar(Render(r[i]), c) <= Strings.CountChar(Render(es[i]), c)
        ensures Occurs(es[i], Render(prev)) ==> Strings.CountChar(Render(r[i]), c) < Strings.CountChar(Render(es[i]), c)
      {
        if i > 0 {
          assert r[i] == rest[i - 1] && es[i] == es[1..][i - 1];
        }
      }
    }
  }

  lemma {:induction false} PathFewer(t: Ty, prev: Ty, c: char)
    requires c in Render(prev) && c !in Placeholder && Render(t) != Render(prev) && t.Path?
    ensures Fewer(t, prev, c)
    decreases TySize(t), 1
  {
    RenderNamed(Placeholder);
    var g := Render(prev);
    var segs := t.segs;
    if |segs| == 1 && segs[0].ident == g && ArgsEmpty(segs[0].args) {
      assert Render(t) == g + RenderSegment(segs[0])[|g|..];
      Strings.CountCharAppend(g, RenderSegment(segs[0])[|g|..], c);
    } else {
      var segs' := SegsFewer(segs, prev, c);
      assert ReplaceType(t, prev, Named(Placeholder)) == Ok(Path(segs'));
      PathOccurs(t, g);
      SegsJoinFewer(segs, segs', g, c);
    }
  }

  /** Below the top, a path contains `g` exactly where one of its segments does. */
  lemma PathOccurs(t: Ty, g: string)
    requires t.Path? && Render(t) != g
    ensures Occurs(t, g) <==> exists i :: 0 <= i < |t.segs| && SegmentOccurs(t.segs[i], g)
  {
  }

  /** Each segment of `segs'` has no more copies of `c` than its counterpart in `segs`, and fewer where that one contains `g`. */
  ghost predicate SegsPointwiseFewer(segs: seq<Segment>, segs': seq<Segment>, g: string, c: char)
  {
    |segs'| == |segs| &&
    (forall i :: 0 <= i < |segs| ==> Strings.CountChar(RenderSegment(segs'[i]), c) <= Strings.CountChar(RenderSegment(segs[i]), c)) &&
    (forall i :: 0 <= i < |segs| && SegmentOccurs(segs[i], g) ==>
       Strings.CountChar(RenderSegment(segs'[i]), c) < Strings.CountChar(RenderSegment(segs[i]), c))
  }

  /** Segments that each lose copies of `c` give a path rendering that does. */
  lemma SegsJoinFewer(segs: seq<Segment>, segs': seq<Segment>, g: string, c: char)
    requires SegsPointwiseFewer(segs, segs', g, c)
    ensures Strings.CountChar(Render(Path(segs')), c) <= Strings.CountChar(Render(Path(segs)), c)
    ensures (exists i :: 0 <= i < |segs| && SegmentOccurs(segs[i], g)) ==>
              Strings.CountChar(Render(Path(segs')), c) < Strings.CountChar(Render(Path(segs)), c)
  {
    var xs := RenderPathJoin(segs);
    var ys := RenderPathJoin(segs');
    Strings.JoinFewer(xs, ys, " :: ", c);
    if exists i :: 0 <= i < |segs| && SegmentOccurs(segs[i], g) {
      var i :| 0 <= i < |segs| && SegmentOccurs(segs[i], g);
      assert Strings.CountChar(ys[i], c) < Strings.CountChar(xs[i], c);
    }
  }

  /** The segments of a path, one by one. */
  lemma {:induction false} SegsFewer(segs: seq<Segment>, prev: Ty, c: char) returns (r: seq<Segment>)
    requires c in Render(prev) && c !in Placeholder
    ensures ReplaceSegments(segs, prev, Named(Placeholder)) == Ok(r)
    ensures SegsPointwiseFewer(segs, r, Render(prev), c)
    decreases SegsSize(segs), 3
  {
    RenderNamed(Placeholder);
    assert IsIdent(Placeholder);
    if segs == [] {
      r := [];
    } else {
      var s := SegmentFewer(segs[0], prev, c);
      var rest := SegsFewer(segs[1..], prev, c);
      r := [s] + rest;
      SegsFewerCons(segs, s, rest, Render(prev), c);
    }
  }

  /** The pointwise facts for a non-empty list of segments, from those for its head and its tail. */
  lemma SegsFewerCons(segs: seq<Segment>, s: Segment, rest: seq<Segment>, g: string, c: char)
    requires |segs| > 0
    requires Strings.CountChar(RenderSegment(s), c) <= Strings.CountChar(RenderSegment(segs[0]), c)
    requires SegmentOccurs(segs[0], g) ==> Strings.CountChar(RenderSegment(s), c) < Strings.CountChar(RenderSegment(segs[0]), c)
    requires SegsPointwiseFewer(segs[1..], rest, g, c)
    ensures SegsPointwiseFewer(segs, [s] + rest, g, c)
  {
    var r := [s] + rest;
    forall i | 0 <= i < |segs|
      ensures Strings.CountChar(RenderSegment(r[i]), c) <= Strings.CountChar(RenderSegment(segs[i]), c)
      ensures SegmentOccurs(segs[i], g) ==> Strings.CountChar(RenderSegment(r[i]), c) < Strings.CountChar(RenderSegment(segs[i]), c)
    {
      if i > 0 {
        assert r[i] == rest[i - 1] && segs[i] == segs[1..][i - 1];
      }
    }
  }

  /** One segment: a renamed identifier loses its copies of `c`, and so do its arguments. */
  lemma {:induction false} SegmentFewer(s: Segment, prev: Ty, c: char) returns (v: Segment)
    requires c in Render(prev) && c !in Placeholder
    ensures ReplaceSegment(s, prev, Named(Placeholder)) == Ok(v)
    ensures Strings.CountChar(RenderSegment(v), c) <= Strings.CountChar(RenderSegment(s), c)
    ensures SegmentOccurs(s, Render(prev)) ==> Strings.CountChar(RenderSegment(v), c) < Strings.CountChar(RenderSegment(s), c)
    decreases SegSize(s), 2
  {
    var g := Render(prev);
    var id' := if s.ident == g then Placeholder else s.ident;
    assert ReplaceSegment(s, prev, Named(Placeholder)).Ok? &&
           ReplaceSegment(s, prev, Named(Placeholder)).value.ident == id' by {
      RenderNamed(Placeholder);
      assert IsIdent(Placeholder);
    }
    if s.args.Angle? {
      var args' := ArgsFewer(s.args.args, prev, c);
      v := Segment(id', Angle(args'));
      SegmentArgsFewer(s, id', args', g, c);
    } else {
      v := Segment(id', s.args);
      SegmentTailFewer(s, id', g, c);
    }
  }

  /** A segment without angle-bracketed arguments loses copies of `c` only through its identifier. */
  lemma SegmentTailFewer(s: Segment, id': string, g: string, c: char)
    requires !s.args.Angle? && c in g && c !in Placeholder
    requires id' == if s.ident == g then Placeholder else s.ident
    ensures Strings.CountChar(RenderSegment(Segment(id', s.args)), c) <= Strings.CountChar(RenderSegment(s), c)
    ensures SegmentOccurs(s, g) ==> Strings.CountChar(RenderSegment(Segment(id', s.args)), c) < Strings.CountChar(RenderSegment(s), c)
  {
    var tail := RenderSegment(s)[|s.ident|..];
    assert RenderSegment(s) == s.ident + tail;
    assert RenderSegment(Segment(id', s.args)) == id' + tail;
    Strings.CountCharAppend(s.ident, tail, c);
    Strings.CountCharAppend(id', tail, c);
  }

  /** The rendering of a segment whose identifier and arguments each lose copies of `c`. */
  lemma SegmentArgsFewer(s: Segment, id': string, args': seq<GenericArg>, g: string, c: char)
    requires s.args.Angle? && |args'| == |s.args.args| && c in g && c !in Placeholder
    requires id' == if s.ident == g then Placeholder else s.ident
    requires forall j :: 0 <= j < |args'| ==> Strings.CountChar(RenderArg(args'[j]), c) <= Strings.CountChar(RenderArg(s.args.args[j]), c)
    requires forall j :: 0 <= j < |args'| && s.args.args[j].TypeArg? && Occurs(s.args.args[j].ty, g) ==>
               Strings.CountChar(RenderArg(args'[j]), c) < Strings.CountChar(RenderArg(s.args.args[j]), c)
    ensures Strings.CountChar(RenderSegment(Segment(id', Angle(args'))), c) <= Strings.CountChar(RenderSegment(s), c)
    ensures SegmentOccurs(s, g) ==> Strings.CountChar(RenderSegment(Segment(id', Angle(args'))), c) < Strings.CountChar(RenderSegment(s), c)
  {
    var args := s.args.args;
    var xs := seq(|args|, j requires 0 <= j < |args| => RenderArg(args[j]));
    var ys := seq(|args'|, j requires 0 <= j < |args'| => RenderArg(args'[j]));
    Strings.JoinFewer(xs, ys, " , ", c);
    var x, y := " < " + Strings.Join(xs, " , ") + " >", " < " + Strings.Join(ys, " , ") + " >";
    Strings.WrapFewer(" < ", Strings.Join(xs, " , "), Strings.Join(ys, " , "), " >", c);
    assert RenderSegment(s) == s.ident + x;
    assert RenderSegment(Segment(id', Angle(args'))) == id' + y;
    Strings.CountCharAppend(s.ident, x, c);
    Strings.CountCharAppend(id', y, c);
    if SegmentOccurs(s, g) {
      if s.ident == g {
        assert Strings.CountChar(id', c) == 0 < Strings.CountChar(s.ident, c);
      } else {
        var j :| 0 <= j < |args| && args[j].TypeArg? && Occurs(args[j].ty, g);
        assert Strings.CountChar(ys[j], c) < Strings.CountChar(xs[j], c);
      }
    }
  }

  /** The arguments of a segment, one by one. */
  lemma {:induction false} ArgsFewer(args: seq<GenericArg>, prev: Ty, c: char) returns (r: seq<GenericArg>)
    requires c in Render(prev) && c !in Placeholder
    ensures ReplaceArgs(args, prev, Named(Placeholder)) == Ok(r) && |r| == |args|
    ensures forall j :: 0 <= j < |args| ==> Strings.CountChar(RenderArg(r[j]), c) <= Strings.CountChar(RenderArg(args[j]), c)
    ensures forall j :: 0 <= j < |args| && args[j].TypeArg? && Occurs(args[j].ty, Render(prev)) ==>
              Strings.CountChar(RenderArg(r[j]), c) < Strings.CountChar(RenderArg(args[j]), c)
    decreases ArgsSize(args), 3
  {
    RenderNamed(Placeholder);
    assert IsIdent(Placeholder);
    if args == [] {
      r := [];
    } else {
      if args[0].TypeArg? {
        ReplaceFewer(args[0].ty, prev, c);
      }
      var rest := ArgsFewer(args[1..], prev, c);
      r := [ReplaceArg(args[0], prev, Named(Placeholder)).value] + rest;
      forall j | 0 <= j < |args|
        ensures Strings.CountChar(RenderArg(r[j]), c) <= Strings.CountChar(RenderArg(args[j]), c)
        ensures args[j].TypeArg? && Occurs(args[j].ty, Render(prev)) ==> Strings.CountChar(RenderArg(r[j]), c) < Strings.CountChar(RenderArg(args[j]), c)
      {
        if j > 0 {
          assert r[j] == rest[j - 1] && args[j] == args[1..][j - 1];
        }
      }
    }
  }

  /** `type_contains` holds exactly when the generic occurs in the type, for every generic whose
    * rendering has a character that the placeholder `__G__` lacks. */
  lemma TypeContainsOccursIff(t: Ty, generic: Ty, c: char)
    requires c in Render(generic) && c !in Placeholder
    ensures TypeContains(t, generic) <==> Occurs(t, Render(generic))
  {
    ReplaceFewer(t, generic, c);
    TypeContainsOccurs(t, generic);
  }

  /** The exception: `__G__` occurs in itself but is not contained in it. */
  lemma TypeContainsPlaceholder()
    ensures Occurs(Named(Placeholder), Placeholder) && !TypeContains(Named(Placeholder), Named(Placeholder))
  {
    RenderNamed(Placeholder);
  }

  /** From the tests: `T<T<i32>>` becomes `String<String<i32>>`. */
  lemma ReplaceTypeNestedExample()
    ensures ReplaceType(Path([Segment("T", Angle([TypeArg(Path([Segment("T", Angle([TypeArg(Named("i32"))]))]))]))]), Named("T"), Named("String"))
            == Ok(Path([Segment("String", Angle([TypeArg(Path([Segment("String", Angle([TypeArg(Named("i32"))]))]))]))]))
  {
    RenderNamed("T");
    RenderNamed("String");
    RenderNamed("i32");
    assert IsIdent("String");
    var T, S := Named("T"), Named("String");
    var args := [TypeArg(Named("i32"))];
    assert !Occurs(Named("i32"), "T");
    assert ReplaceArgs(args, T, S) == Ok(args);
    var seg1 := Segment("T", Angle(args));
    var seg1' := Segment("String", Angle(args));
    assert ReplaceSegment(seg1, T, S) == Ok(seg1');
    assert [seg1][1..] == [];
    assert ReplaceSegments([], T, S) == Ok([]);
    var segs1 := ReplaceSegments([seg1], T, S);
    assert segs1 == Ok([seg1'] + []);
    assert [seg1'] + [] == [seg1'];
    assert segs1 == Ok([seg1']);
    var inner, inner' := Path([seg1]), Path([seg1']);
    assert Render(inner) != "T";
    assert ReplaceType(inner, T, S) == Ok(inner');
    var args2 := [TypeArg(inner)];
    assert args2[1..] == [];
    assert ReplaceArg(TypeArg(inner), T, S) == Ok(TypeArg(inner'));
    assert ReplaceArgs([], T, S) == Ok([]);
    var r2 := ReplaceArgs(args2, T, S);
    assert r2 == Ok([TypeArg(inner')] + []);
    assert [TypeArg(inner')] + [] == [TypeArg(inner')];
    assert r2 == Ok([TypeArg(inner')]);
    var seg2 := Segment("T", Angle(args2));
    var seg2' := Segment("String", Angle([TypeArg(inner')]));
    assert ReplaceSegment(seg2, T, S) == Ok(seg2');
    assert [seg2][1..] == [];
    var segs2 := ReplaceSegments([seg2], T, S);
    assert segs2 == Ok([seg2'] + []);
    assert [seg2'] + [] == [seg2'];
    assert segs2 == Ok([seg2']);
    assert Render(Path([seg2])) != "T";
  }

  /** From the tests: `(T, Other, T)` becomes `(String, Other, String)`. */
  lemma ReplaceTypeTupleExample()
    ensures ReplaceType(Tuple([Named("T"), Named("Other"), Named("T")]), Named("T"), Named("String"))
            == Ok(Tuple([Named("String"), Named("Other"), Named("String")]))
  {
    RenderNamed("T");
    RenderNamed("String");
    RenderNamed("Other");
    var T, S, O := Named("T"), Named("String"), Named("Other");
    assert ReplaceType(T, T, S) == Ok(S);
    assert !Occurs(O, "T");
    assert ReplaceType(O, T, S) == Ok(O);
    assert [T][1..] == [] && [O, T][1..] == [T] && [T, O, T][1..] == [O, T];
    assert ReplaceTypes([], T, S) == Ok([]);
    var r1 := ReplaceTypes([T], T, S);
    assert r1 == Ok([S] + []);
    assert [S] + [] == [S];
    assert r1 == Ok([S]);
    var r2 := ReplaceTypes([O, T], T, S);
    assert r2 == Ok([O] + [S]);
    assert [O] + [S] == [O, S];
    assert r2 == Ok([O, S]);
    var r3 := ReplaceTypes([T, O, T], T, S);
    assert r3 == Ok([S] + [O, S]);
    assert [S] + [O, S] == [S, O, S];
    assert r3 == Ok([S, O, S]);
    assert Render(Tuple([T, O, T])) != "T";
  }

  // ============================================================ lifetimes

  /** Drops a reference lifetime named in `names`. */
  function StripFrom(names: set<string>): Option<string> -> Option<string> {
    (o: Option<string>) => if o.Some? && o.value in names then None else o
  }

  /** `strip_lifetimes`: every reference lifetime that is a lifetime parameter of `gs` is
    * removed, at any depth; nothing else changes. */
  function StripLifetimes(t: Ty, gs: Generics): (r: Ty)
    ensures forall x :: HasLifetime(r, x) <==> HasLifetime(t, x) && x !in LifetimeParamNames(gs.params)
    ensures EraseLifetimes(r) == EraseLifetimes(t)
  {
    var f := StripFrom(LifetimeParamNames(gs.params));
    forall x ensures HasLifetime(MapLifetimes(t, f), x) <==> HasLifetime(t, x) && x !in LifetimeParamNames(gs.params) {
      MapLifetimesHas(t, f, x);
    }
    MapLifetimesCompose(t, f, NoLifetime, NoLifetime);
    MapLifetimes(t, f)
  }

  /** Stripping twice is stripping once. */
  lemma StripLifetimesIdempotent(t: Ty, gs: Generics)
    ensures StripLifetimes(StripLifetimes(t, gs), gs) == StripLifetimes(t, gs)
  {
    var f := StripFrom(LifetimeParamNames(gs.params));
    MapLifetimesCompose(t, f, f, f);
  }

  /** From the tests: with `<'a, 'b>`, `Option<&'a (u8, &'b i32)>` becomes `Option<&(u8, &i32)>`. */
  lemma StripLifetimesNestedExample()
    ensures StripLifetimes(Path([Segment("Option", Angle([TypeArg(Ref(Some("'a"), false, Tuple([Named("u8"), Ref(Some("'b"), false, Named("i32"))])))]))]),
                           Generics([LifetimeParam("'a", []), LifetimeParam("'b", [])], []))
            == Path([Segment("Option", Angle([TypeArg(Ref(None, false, Tuple([Named("u8"), Ref(None, false, Named("i32"))])))]))])
  {
    var gs := Generics([LifetimeParam("'a", []), LifetimeParam("'b", [])], []);
    assert LifetimeParamNames(gs.params) == {"'a", "'b"};
    var f := StripFrom({"'a", "'b"});
    var inner := Ref(Some("'a"), false, Tuple([Named("u8"), Ref(Some("'b"), false, Named("i32"))]));
    var inner' := Ref(None, false, Tuple([Named("u8"), Ref(None, false, Named("i32"))]));
    StripInner();
    var seg := Segment("Option", Angle([TypeArg(inner)]));
    assert MapArgLifetimes(TypeArg(inner), f) == TypeArg(inner');
    var ms := MapSegLifetimes(seg, f);
    assert |ms.args.args| == 1 && ms.args.args[0] == TypeArg(inner');
    assert ms == Segment("Option", Angle([TypeArg(inner')]));
  }

  lemma StripInner()
    ensures MapLifetimes(Ref(Some("'a"), false, Tuple([Named("u8"), Ref(Some("'b"), false, Named("i32"))])), StripFrom({"'a", "'b"}))
            == Ref(None, false, Tuple([Named("u8"), Ref(None, false, Named("i32"))]))
  {
    var f := StripFrom({"'a", "'b"});
    var i32 := Named("i32");
    var u8 := Named("u8");
    MapLifetimesFixes(i32, f);
    MapLifetimesFixes(u8, f);
    assert MapLifetimes(Ref(Some("'b"), false, i32), f) == Ref(None, false, i32);
    var es := [u8, Ref(Some("'b"), false, i32)];
    assert MapLifetimes(Tuple(es), f) == Tuple([u8, Ref(None, false, i32)]);
  }

  /** From the tests: with `<'b>`, `(&'a u8, &'b i32)` becomes `(&'a u8, &i32)`. */
  lemma StripLifetimesTupleExample()
    ensures StripLifetimes(Tuple([Ref(Some("'a"), false, Named("u8")), Ref(Some("'b"), false, Named("i32"))]), Generics([LifetimeParam("'b", [])], []))
            == Tuple([Ref(Some("'a"), false, Named("u8")), Ref(None, false, Named("i32"))])
  {
    var gs2 := Generics([LifetimeParam("'b", [])], []);
    assert LifetimeParamNames(gs2.params) == {"'b"};
    var f2 := StripFrom({"'b"});
    MapLifetimesFixes(Named("i32"), f2);
    MapLifetimesFixes(Named("u8"), f2);
  }

  /** Renames the lifetime `prev` to `repl`. */
  function Rename(prev: string, repl: string): Option<string> -> Option<string> {
    (o: Option<string>) => if o == Some(prev) then Some(repl) else o
  }

  /** `replace_lifetime`: every reference lifetime `prev` becomes `repl`, at any depth. */
  function ReplaceLifetime(t: Ty, prev: string, repl: string): (r: Ty)
    ensures forall x :: HasLifetime(r, x) <==> (HasLifetime(t, x) && x != prev) || (x == repl && HasLifetime(t, prev))
    ensures EraseLifetimes(r) == EraseLifetimes(t)
    ensures !HasLifetime(t, prev) ==> r == t
  {
    var f := Rename(prev, repl);
    forall x ensures HasLifetime(MapLifetimes(t, f), x) <==> (HasLifetime(t, x) && x != prev) || (x == repl && HasLifetime(t, prev)) {
      MapLifetimesHas(t, f, x);
    }
    MapLifetimesCompose(t, f, NoLifetime, NoLifetime);
    assert !HasLifetime(t, prev) ==> MapLifetimes(t, f) == t by {
      if !HasLifetime(t, prev) {
        MapLifetimesFixes(t, f);
      }
    }
    MapLifetimes(t, f)
  }

  /** Renaming to a fresh lifetime and back gives the type back. */
  lemma ReplaceLifetimeRoundTrip(t: Ty, a: string, b: string)
    requires !HasLifetime(t, b)
    ensures ReplaceLifetime(ReplaceLifetime(t, a, b), b, a) == t
  {
    RenameRoundTrip(t, a, b);
  }

  lemma RenameRoundTrip(t: Ty, a: string, b: string)
    requires !HasLifetime(t, b)
    ensures MapLifetimes(MapLifetimes(t, Rename(a, b)), Rename(b, a)) == t
  {
    var f, g := Rename(a, b), Rename(b, a);
    var h := RenameBack(a, b);
    assert forall o :: h(o) == g(f(o));
    MapLifetimesCompose(t, f, g, h);
    MapLifetimesFixes(t, h);
  }

  /** Renaming `a` to `b` and back, as one map: only a lifetime `b` is changed. */
  function RenameBack(a: string, b: string): Option<string> -> Option<string> {
    (o: Option<string>) => if o == Some(b) then Some(a) else o
  }

  /** `type_contains_lifetime`: renaming the lifetime to a placeholder changes the rendering. */
  predicate TypeContainsLifetime(t: Ty, l: string): (r: bool)
    ensures r ==> HasLifetime(t, l)
  {
    Render(ReplaceLifetime(t, l, "'" + Placeholder)) != Render(t)
  }

  /** The lifetime `assign_lifetimes` gives a reference of `t1` matched with one of `t2`: t2's
    * lifetime, or what it is bound to, unless t1's is `'static` and t2's is unbound. */
  function AssignedLifetime(l1: Option<string>, l2: Option<string>, lts: map<string, Option<string>>): (r: Option<string>)
    ensures l2.None? ==> r == l1
    ensures l2.Some? && l1.None? ==> r == l2
    ensures l2.Some? && l1.Some? && l2.value in lts && lts[l2.value].Some? ==> r == lts[l2.value]
    ensures l2.Some? && l1.Some? && !(l2.value in lts && lts[l2.value].Some?) ==> r == (if l1 == Some("'static") then l1 else l2)
  {
    if l2.None? then l1
    else if l1.None? then l2
    else if l2.value in lts && lts[l2.value].Some? then lts[l2.value]
    else if l1.value != "'static" then l2
    else l1
  }

  /** `assign_lifetimes(t1, t2, generics)`: walks both types together (tuples, path segments and
    * type arguments pairwise, up to the shorter side) and sets each reference lifetime of `t1`
    * from the matching reference of `t2`. The generics are only read. */
  function AssignLifetimes(t1: Ty, t2: Ty, lts: map<string, Option<string>>): (r: Ty)
    decreases t1, 1
  {
    match (t1, t2)
    case (Tuple(es1), Tuple(es2)) =>
      Tuple(seq(|es1|, i requires 0 <= i < |es1| => if i < |es2| then AssignLifetimes(es1[i], es2[i], lts) else es1[i]))
    case (Ref(l1, m1, e1), Ref(l2, _, e2)) => Ref(AssignedLifetime(l1, l2, lts), m1, AssignLifetimes(e1, e2, lts))
    case (Slice(e1), Slice(e2)) => Slice(AssignLifetimes(e1, e2, lts))
    case (Paren(e1), Paren(e2)) => Paren(AssignLifetimes(e1, e2, lts))
    case (Array(e1, n), Array(e2, _)) => Array(AssignLifetimes(e1, e2, lts), n)
    case (Path(s1), Path(s2)) =>
      Path(seq(|s1|, i requires 0 <= i < |s1| => if i < |s2| then AssignSegmentLifetimes(s1[i], s2[i], lts) else s1[i]))
    case _ => t1
  }

  function AssignSegmentLifetimes(s1: Segment, s2: Segment, lts: map<string, Option<string>>): (r: Segment)
    ensures r.ident == s1.ident
    decreases s1, 0
  {
    if s1.args.Angle? && s2.args.Angle? then
      var a1, a2 := s1.args.args, s2.args.args;
      Segment(s1.ident, Angle(seq(|a1|, j requires 0 <= j < |a1| =>
        if j < |a2| && a1[j].TypeArg? && a2[j].TypeArg? then TypeArg(AssignLifetimes(a1[j].ty, a2[j].ty, lts)) else a1[j])))
    else s1
  }

  /** Only lifetimes change: with every lifetime erased, the result is `t1`. */
  lemma {:induction false} AssignLifetimesShape(t1: Ty, t2: Ty, lts: map<string, Option<string>>)
    ensures EraseLifetimes(AssignLifetimes(t1, t2, lts)) == EraseLifetimes(t1)
    decreases t1, 1
  {
    match (t1, t2)
    case (Tuple(es1), Tuple(es2)) =>
      forall i | 0 <= i < |es1| && i < |es2|
        ensures MapLifetimes(AssignLifetimes(es1[i], es2[i], lts), NoLifetime) == MapLifetimes(es1[i], NoLifetime)
      {
        AssignLifetimesShape(es1[i], es2[i], lts);
      }
    case (Ref(l1, _, e1), Ref(l2, _, e2)) => AssignLifetimesShape(e1, e2, lts);
    case (Slice(e1), Slice(e2)) => AssignLifetimesShape(e1, e2, lts);
    case (Paren(e1), Paren(e2)) => AssignLifetimesShape(e1, e2, lts);
    case (Array(e1, n), Array(e2, _)) => AssignLifetimesShape(e1, e2, lts);
    case (Path(s1), Path(s2)) =>
      var r := AssignLifetimes(t1, t2, lts).segs;
      forall i | 0 <= i < |s1| ensures MapSegLifetimes(r[i], NoLifetime) == MapSegLifetimes(s1[i], NoLifetime) {
        if i < |s2| {
          AssignSegmentLifetimesShape(s1[i], s2[i], lts);
        }
      }
    case _ =>
  }

  lemma {:induction false} AssignSegmentLifetimesShape(s1: Segment, s2: Segment, lts: map<string, Option<string>>)
    ensures MapSegLifetimes(AssignSegmentLifetimes(s1, s2, lts), NoLifetime) == MapSegLifetimes(s1, NoLifetime)
    decreases s1, 0
  {
    if s1.args.Angle? && s2.args.Angle? {
      var a1, a2 := s1.args.args, s2.args.args;
      var r := AssignSegmentLifetimes(s1, s2, lts).args.args;
      var x := MapSegLifetimes(AssignSegmentLifetimes(s1, s2, lts), NoLifetime).args.args;
      var y := MapSegLifetimes(s1, NoLifetime).args.args;
      forall j | 0 <= j < |a1| ensures x[j] == y[j] {
        assert x[j] == MapArgLifetimes(r[j], NoLifetime);
        assert y[j] == MapArgLifetimes(a1[j], NoLifetime);
        if j < |a2| && a1[j].TypeArg? && a2[j].TypeArg? {
          AssignLifetimesShape(a1[j].ty, a2[j].ty, lts);
        }
      }
      assert x == y;
    }
  }

  /** Assigning a type's own lifetimes to it, with nothing bound, changes nothing. */
  lemma {:induction false} AssignLifetimesSelf(t: Ty)
    ensures AssignLifetimes(t, t, map[]) == t
    decreases t, 1
  {
    match t
    case Tuple(es) =>
      forall i | 0 <= i < |es| ensures AssignLifetimes(es[i], es[i], map[]) == es[i] {
        AssignLifetimesSelf(es[i]);
      }
    case Ref(_, _, e) => AssignLifetimesSelf(e);
    case Slice(e) => AssignLifetimesSelf(e);
    case Paren(e) => AssignLifetimesSelf(e);
    case Array(e, _) => AssignLifetimesSelf(e);
    case Path(segs) =>
      forall i | 0 <= i < |segs| ensures AssignSegmentLifetimes(segs[i], segs[i], map[]) == segs[i] {
        AssignSegmentLifetimesSelf(segs[i]);
      }
    case Infer =>
    case Other(_) =>
  }

  lemma {:induction false} AssignSegmentLifetimesSelf(s: Segment)
    ensures AssignSegmentLifetimes(s, s, map[]) == s
    decreases s, 0
  {
    if s.args.Angle? {
      var a := s.args.args;
      var r := AssignSegmentLifetimes(s, s, map[]).args.args;
      forall j | 0 <= j < |a| ensures r[j] == a[j] {
        if a[j].TypeArg? {
          AssignLifetimesSelf(a[j].ty);
        }
      }
      assert r == a;
    }
  }

  /** From the tests: `&'a Option<&'a u8>` against `&'b Option<&'static u8>` with `'b` bound to
    * `'static` becomes `&'static Option<&'static u8>`. */
  lemma AssignLifetimesExamples()
    ensures AssignLifetimes(Ref(Some("'a"), false, Path([Segment("Option", Angle([TypeArg(Ref(Some("'a"), false, Named("u8")))]))])),
                            Ref(Some("'b"), false, Path([Segment("Option", Angle([TypeArg(Ref(Some("'static"), false, Named("u8")))]))])),
                            map["'b" := Some("'static")])
            == Ref(Some("'static"), false, Path([Segment("Option", Angle([TypeArg(Ref(Some("'static"), false, Named("u8")))]))]))
  {
    var lts := map["'b" := Some("'static")];
    var u8 := Named("u8");
    assert AssignLifetimes(Ref(Some("'a"), false, u8), Ref(Some("'static"), false, u8), lts) == Ref(Some("'static"), false, u8) by {
      AssignPlainName("u8", lts);
    }
    var s1 := Segment("Option", Angle([TypeArg(Ref(Some("'a"), false, u8))]));
    var s2 := Segment("Option", Angle([TypeArg(Ref(Some("'static"), false, u8))]));
    var rs := AssignSegmentLifetimes(s1, s2, lts);
    assert rs.args.args[0] == TypeArg(Ref(Some("'static"), false, u8));
    assert rs == s2;
  }

  /** From the tests: `&u8` against `&'a u8` becomes `&'a u8`. */
  lemma AssignLifetimesElidedExample()
    ensures AssignLifetimes(Ref(None, false, Named("u8")), Ref(Some("'a"), false, Named("u8")), map["'a" := None]) == Ref(Some("'a"), false, Named("u8"))
  {
    AssignPlainName("u8", map["'a" := None]);
  }

  /** A plain name has no lifetime to take. */
  lemma AssignPlainName(name: string, lts: map<string, Option<string>>)
    ensures AssignLifetimes(Named(name), Named(name), lts) == Named(name)
  {
    assert AssignSegmentLifetimes(Segment(name, NoArgs), Segment(name, NoArgs), lts) == Segment(name, NoArgs);
  }

  // ============================================================ fresh generic names

  /** The names `get_unique_generic_name` tries: `{prefix}__G_{n}__`. */
  function GenericPattern(prefix: string): Pattern {
    Pattern(prefix + "__G_", "__")
  }

  /** `get_unique_generic_name`: tries `{prefix}__G_{counter}__`, bumping the counter after every
    * try, until a name is not in `generics`; that name is inserted and returned. The loop ends
    * because the set is finite and every try is a new name. */
  method GetUniqueGenericName(generics: set<string>, counter: nat, prefix: Option<string>)
    returns (name: string, generics': set<string>, counter': nat)
    ensures name !in generics && generics' == generics + {name}
    ensures counter < counter' && name == Name(GenericPattern(prefix.UnwrapOr("")), counter' - 1)
    ensures forall k :: counter <= k < counter' - 1 ==> Name(GenericPattern(prefix.UnwrapOr("")), k) in generics
  {
    var p := GenericPattern(prefix.UnwrapOr(""));
    var c := counter;
    while true
      invariant counter <= c
      invariant forall k :: counter <= k < c ==> Name(p, k) in generics
      decreases |generics| - (c - counter)
    {
      var candidate := Name(p, c);
      c := c + 1;
      if candidate !in generics {
        return candidate, generics + {candidate}, c;
      }
      TakenBound(p, counter, c, generics);
    }
  }

  /** The pattern of the names `replace_infers` makes (no prefix). */
  const G := GenericPattern("")

  /** `replace_infers(ty, generics, counter, new_generics)`: every `_`, left to right, is
    * replaced by a fresh generic name, which is also appended to `new_generics`. */
  method ReplaceInfers(t: Ty, s: Namer) returns (r: Ty, s': Namer)
    ensures Extends(G, s, s', InferCount(t))
    ensures r == FillInfers(t, Added(s, s'))
    decreases TySize(t), 3
  {
    match t {
      case Tuple(es) =>
        var es', s1 := ReplaceInfersTys(es, s);
        r, s' := Tuple(es'), s1;
      case Ref(lt, m, e) =>
        var e', s1 := ReplaceInfers(e, s);
        r, s' := Ref(lt, m, e'), s1;
      case Array(e, n) =>
        var e', s1 := ReplaceInfers(e, s);
        r, s' := Array(e', n), s1;
      case Slice(e) =>
        var e', s1 := ReplaceInfers(e, s);
        r, s' := Slice(e'), s1;
      case Paren(e) =>
        var e', s1 := ReplaceInfers(e, s);
        r, s' := Paren(e'), s1;
      case Path(segs) =>
        var segs', s1 := ReplaceInfersSegs(segs, s);
        r, s' := Path(segs'), s1;
      case Infer =>
        var name, generics', counter' := GetUniqueGenericName(s.generics, s.counter, None);
        ExtendsOne(G, s, name, generics', counter');
        s' := Namer(generics', counter', s.newGenerics + [name]);
        assert Added(s, s') == [name];
        r := Named(name);
      case Other(_) =>
        ExtendsRefl(G, s);
        r, s' := t, s;
    }
  }

  /** The tuple part of `replace_infers`: every element, left to right. */
  method ReplaceInfersTys(es: seq<Ty>, s: Namer) returns (r: seq<Ty>, s': Namer)
    ensures Extends(G, s, s', InferCountTys(es))
    ensures r == FillInfersTys(es, Added(s, s'))
    decreases TysSize(es), 4
  {
    r, s' := [], s;
    TysStart(G, es, s);
    var i := 0;
    while i < |es|
      invariant 0 <= i <= |es|
      invariant TysDone(G, es, i, s, s', r)
    {
      var e, next := ReplaceInfers(es[i], s');
      TysStep(G, es, i, s, s', next, r, e);
      r, s' := r + [e], next;
      i := i + 1;
    }
    TysEnd(G, es, s, s', r);
  }

  /** The path part of `replace_infers`: every segment, left to right. */
  method ReplaceInfersSegs(segs: seq<Segment>, s: Namer) returns (r: seq<Segment>, s': Namer)
    ensures Extends(G, s, s', InferCountSegs(segs))
    ensures r == FillInfersSegs(segs, Added(s, s'))
    decreases SegsSize(segs), 4
  {
    r, s' := [], s;
    SegsStart(G, segs, s);
    var i := 0;
    while i < |segs|
      invariant 0 <= i <= |segs|
      invariant SegsDone(G, segs, i, s, s', r)
    {
      var seg, next := ReplaceInfersSegment(segs[i], s');
      SegsStep(G, segs, i, s, s', next, r, seg);
      r, s' := r + [seg], next;
      i := i + 1;
    }
    SegsEnd(G, segs, s, s', r);
  }

  /** One path segment: the type arguments of an angle-bracketed segment. */
  method ReplaceInfersSegment(seg: Segment, s: Namer) returns (r: Segment, s': Namer)
    ensures Extends(G, s, s', InferCountSeg(seg))
    ensures r == FillInfersSeg(seg, Added(s, s'))
    decreases SegSize(seg), 3
  {
    if !seg.args.Angle? {
      ExtendsRefl(G, s);
      return seg, s;
    }
    var args, s1 := ReplaceInfersArgs(seg.args.args, s);
    r, s' := Segment(seg.ident, Angle(args)), s1;
  }

  /** Every generic argument, left to right. */
  method ReplaceInfersArgs(args: seq<GenericArg>, s: Namer) returns (r: seq<GenericArg>, s': Namer)
    ensures Extends(G, s, s', InferCountArgs(args))
    ensures r == FillInfersArgs(args, Added(s, s'))
    decreases ArgsSize(args), 5
  {
    r, s' := [], s;
    ArgsStart(G, args, s);
    var i := 0;
    while i < |args|
      invariant 0 <= i <= |args|
      invariant ArgsDone(G, args, i, s, s', r)
    {
      var arg, next := ReplaceInfersArg(args[i], s');
      ArgsStep(G, args, i, s, s', next, r, arg);
      r, s' := r + [arg], next;
      i := i + 1;
    }
    ArgsEnd(G, args, s, s', r);
  }

  /** A type argument is rewritten; lifetimes and constants are kept. */
  method ReplaceInfersArg(arg: GenericArg, s: Namer) returns (r: GenericArg, s': Namer)
    ensures Extends(G, s, s', InferCountArg(arg))
    ensures r == FillInfersArg(arg, Added(s, s'))
    decreases ArgSize(arg), 4
  {
    if arg.TypeArg? {
      var ty, s1 := ReplaceInfers(arg.ty, s);
      r, s' := TypeArg(ty), s1;
    } else {
      ExtendsRefl(G, s);
      r, s' := arg, s;
    }
  }

  /** From the tests: starting from no generics and counter 0 the first two names are
    * `__G_0__` and `__G_1__` (from a clean state `Extends` fixes the names to `Names(G, 0, 2)`). */
  lemma ReplaceInfersFirstNames()
    ensures Clean(G, Namer({}, 0, []))
    ensures Names(G, 0, 2) == ["__G_0__", "__G_1__"]
  {
    assert Strings.Decimal(0) == "0" && Strings.Decimal(1) == "1";
    var c := Names(G, 0, 2);
    assert c[0] == "__G_0__" && c[1] == "__G_1__";
  }

  /** From the tests: with those names `Option<(_, &[_])>` becomes `Option<(__G_0__, &[__G_1__])>`. */
  lemma ReplaceInfersNestedExample()
    ensures InferCount(Path([Segment("Option", Angle([TypeArg(Tuple([Infer, Ref(None, false, Slice(Infer))]))]))])) == 2
    ensures FillInfers(Path([Segment("Option", Angle([TypeArg(Tuple([Infer, Ref(None, false, Slice(Infer))]))]))]), ["__G_0__", "__G_1__"])
            == Path([Segment("Option", Angle([TypeArg(Tuple([Named("__G_0__"), Ref(None, false, Slice(Named("__G_1__")))]))]))])
  {
    var tup := Tuple([Infer, Ref(None, false, Slice(Infer))]);
    var tup' := Tuple([Named("__G_0__"), Ref(None, false, Slice(Named("__G_1__")))]);
    var none: seq<string> := [];
    var names := ["__G_0__", "__G_1__"];
    var args := [TypeArg(tup)];
    var seg := Segment("Option", Angle(args));
    assert InferCountSeg(seg) == 2 && FillInfersSeg(seg, names) == Segment("Option", Angle([TypeArg(tup')])) by {
      NestedTupleFill();
      assert args[..0] == [] && args[..1] == args && none + names == names;
      FillInfersArgsStep(args, 0, none, names);
    }
    var segs := [seg];
    assert segs[..0] == [] && segs[..1] == segs;
    FillInfersSegsStep(segs, 0, none, names);
  }

  lemma NestedTupleFill()
    ensures InferCount(Tuple([Infer, Ref(None, false, Slice(Infer))])) == 2
    ensures FillInfers(Tuple([Infer, Ref(None, false, Slice(Infer))]), ["__G_0__", "__G_1__"])
            == Tuple([Named("__G_0__"), Ref(None, false, Slice(Named("__G_1__")))])
  {
    var a, b := "__G_0__", "__G_1__";
    FillInferLeaf(a);
    FillRefSliceInfer(b);
    PairFill(Infer, Ref(None, false, Slice(Infer)), [a], [b]);
    assert [a] + [b] == [a, b];
  }

  /** A pair's wildcards are those of its first element, then those of its second. */
  lemma PairFill(x: Ty, y: Ty, a: seq<string>, b: seq<string>)
    requires |a| == InferCount(x) && |b| == InferCount(y)
    ensures InferCount(Tuple([x, y])) == |a| + |b|
    ensures FillInfers(Tuple([x, y]), a + b) == Tuple([FillInfers(x, a), FillInfers(y, b)])
  {
    var es := [x, y];
    FillInfersTysFirst(es, a);
    assert es[..2] == es;
    FillInfersTysStep(es, 1, a, b);
  }

  lemma FillInferLeaf(n: string)
    ensures InferCount(Infer) == 1 && FillInfers(Infer, [n]) == Named(n)
  {
  }

  lemma FillRefSliceInfer(n: string)
    ensures InferCount(Ref(None, false, Slice(Infer))) == 1
    ensures FillInfers(Ref(None, false, Slice(Infer)), [n]) == Ref(None, false, Slice(Named(n)))
  {
    FillInferLeaf(n);
  }
}
