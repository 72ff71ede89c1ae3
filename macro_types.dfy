/** Type comparison of the macro crate (`crates/spec-trait-macro/src/types.rs`): alias
  * resolution through the call's variables and a structural comparison that treats `_` as any
  * type and ignores reference lifetimes. */
module MacroTypes {
  import opened Wrappers
  import opened Syntax

  // ============================================================ aliases

  /** The parts of a `VarInfo` this file reads: the concrete type (kept parsed) and the alias
    * names that stand for it. */
  datatype Var = Var(concreteType: Ty, typeAliases: seq<string>)

  /** `vars.iter().find(|v| v.type_aliases.contains(&ident))`. */
  function FindVar(vars: seq<Var>, ident: string): (r: Option<Ty>)
    ensures r.None? <==> forall i :: 0 <= i < |vars| ==> ident !in vars[i].typeAliases
    ensures r.Some? ==> exists i :: 0 <= i < |vars| && ident in vars[i].typeAliases && r.value == vars[i].concreteType &&
                          forall j :: 0 <= j < i ==> ident !in vars[j].typeAliases
  {
    if vars == [] then None
    else if ident in vars[0].typeAliases then Some(vars[0].concreteType)
    else
      var r := FindVar(vars[1..], ident);
      assert forall i :: 1 <= i < |vars| ==> vars[i] == vars[1..][i - 1];
      assert r.Some? ==> exists i :: 1 <= i < |vars| && ident in vars[i].typeAliases && r.value == vars[i].concreteType &&
                          forall j :: 0 <= j < i ==> ident !in vars[j].typeAliases by {
        if r.Some? {
          var i :| 0 <= i < |vars| - 1 && ident in vars[1..][i].typeAliases && r.value == vars[1..][i].concreteType &&
                   forall j :: 0 <= j < i ==> ident !in vars[1..][j].typeAliases;
          forall j | 0 <= j < i + 1 ensures ident !in vars[j].typeAliases {
            if j > 0 { assert vars[j] == vars[1..][j - 1]; }
          }
        }
      }
      r
  }

  /** The variable a path stands for, looked up by its last identifier. */
  function PathVar(segs: seq<Segment>, vars: seq<Var>): Option<Ty> {
    if segs == [] then None else FindVar(vars, segs[|segs| - 1].ident)
  }

  /** `resolve_type`: after removing parentheses, a path whose last identifier is an alias of
    * some variable becomes that variable's concrete type; tuples, references, arrays, slices and
    * the type arguments of paths are resolved inside; any other type is returned as given. */
  function ResolveType(t: Ty, vars: seq<Var>): (r: Ty)
    ensures var u := UnwrapParens(t); u.Path? && PathVar(u.segs, vars).Some? ==> r == PathVar(u.segs, vars).value
    ensures var u := UnwrapParens(t); !(u.Tuple? || u.Ref? || u.Array? || u.Slice? || u.Path?) ==> r == t
    ensures (forall i :: 0 <= i < |vars| ==> vars[i].typeAliases == []) ==> r == UnwrapParensOf(t)
    decreases TySize(t), 1
  {
    var u := UnwrapParens(t);
    match u
    case Tuple(es) =>
      var es' := seq(|es|, i requires 0 <= i < |es| => ResolveType(es[i], vars));
      assert (forall i :: 0 <= i < |vars| ==> vars[i].typeAliases == []) ==>
               es' == seq(|es|, i requires 0 <= i < |es| => UnwrapParensOf(es[i]));
      Tuple(es')
    case Ref(lt, m, e) => Ref(lt, m, ResolveType(e, vars))
    case Array(e, n) => Array(ResolveType(e, vars), n)
    case Slice(e) => Slice(ResolveType(e, vars))
    case Path(segs) =>
      if PathVar(segs, vars).Some? then PathVar(segs, vars).value
      else Path(ResolveSegments(segs, vars))
    case _ => t
  }

  function ResolveSegments(segs: seq<Segment>, vars: seq<Var>): (r: seq<Segment>)
    ensures |r| == |segs| && forall i :: 0 <= i < |segs| ==> r[i] == ResolveSegment(segs[i], vars)
    ensures (forall i :: 0 <= i < |vars| ==> vars[i].typeAliases == []) ==>
              r == seq(|segs|, i requires 0 <= i < |segs| => UnwrapParensOfSegment(segs[i]))
    decreases SegsSize(segs), 2
  {
    seq(|segs|, i requires 0 <= i < |segs| => ResolveSegment(segs[i], vars))
  }

  function ResolveSegment(s: Segment, vars: seq<Var>): (r: Segment)
    ensures r.ident == s.ident
    ensures (forall i :: 0 <= i < |vars| ==> vars[i].typeAliases == []) ==> r == UnwrapParensOfSegment(s)
    decreases SegSize(s), 0
  {
    if s.args.Angle? then
      var args := s.args.args;
      var args' := seq(|args|, j requires 0 <= j < |args| =>
        if args[j].TypeArg? then TypeArg(ResolveType(args[j].ty, vars)) else args[j]);
      assert (forall i :: 0 <= i < |vars| ==> vars[i].typeAliases == []) ==>
               args' == seq(|args|, j requires 0 <= j < |args| =>
                 if args[j].TypeArg? then TypeArg(UnwrapParensOf(args[j].ty)) else args[j]);
      Segment(s.ident, Angle(args'))
    else s
  }

  /** What resolving leaves when there is no alias: the parentheses removed at the top of every
    * type it visits, everything else unchanged. */
  function UnwrapParensOf(t: Ty): Ty
    decreases TySize(t), 1
  {
    var u := UnwrapParens(t);
    match u
    case Tuple(es) => Tuple(seq(|es|, i requires 0 <= i < |es| => UnwrapParensOf(es[i])))
    case Ref(lt, m, e) => Ref(lt, m, UnwrapParensOf(e))
    case Array(e, n) => Array(UnwrapParensOf(e), n)
    case Slice(e) => Slice(UnwrapParensOf(e))
    case Path(segs) => Path(seq(|segs|, i requires 0 <= i < |segs| => UnwrapParensOfSegment(segs[i])))
    case _ => t
  }

  function UnwrapParensOfSegment(s: Segment): Segment
    decreases SegSize(s), 0
  {
    if s.args.Angle? then
      var args := s.args.args;
      Segment(s.ident, Angle(seq(|args|, j requires 0 <= j < |args| =>
        if args[j].TypeArg? then TypeArg(UnwrapParensOf(args[j].ty)) else args[j])))
    else s
  }

  /** `get_concrete_type`: the rendering of the resolved type. */
  function GetConcreteType(t: Ty, vars: seq<Var>): (r: string)
    ensures var u := UnwrapParens(t); u.Path? && PathVar(u.segs, vars).Some? ==> r == Render(PathVar(u.segs, vars).value)
  {
    Render(ResolveType(t, vars))
  }

  /** The variable of the tests: `MyType` stands for `u8`. */
  function TestVars(): seq<Var> {
    [Var(Named("u8"), ["MyType"])]
  }

  /** A reference keeps its `mut` through resolution and rendering: `&mut MyType` is
    * `& mut u8`. */
  lemma GetConcreteTypeMutExample()
    ensures GetConcreteType(Ref(None, true, Named("MyType")), TestVars()) == "& mut u8"
  {
    assert ResolveType(Named("MyType"), TestVars()) == Named("u8");
    RenderNamed("u8");
  }

  /** A one-segment path that is not an alias is resolved inside its segment. */
  lemma ResolveSingleSegment(seg: Segment, vars: seq<Var>)
    requires FindVar(vars, seg.ident).None?
    ensures ResolveType(Path([seg]), vars) == Path([ResolveSegment(seg, vars)])
  {
    assert PathVar([seg], vars).None?;
    var r := ResolveSegments([seg], vars);
    assert |r| == 1 && r[0] == ResolveSegment(seg, vars);
  }

  /** A segment with one type argument resolves that argument. */
  lemma ResolveOneArg(id: string, t: Ty, vars: seq<Var>)
    ensures ResolveSegment(Segment(id, Angle([TypeArg(t)])), vars) == Segment(id, Angle([TypeArg(ResolveType(t, vars))]))
  {
    var a := ResolveSegment(Segment(id, Angle([TypeArg(t)])), vars).args.args;
    assert |a| == 1 && a[0] == TypeArg(ResolveType(t, vars));
  }

  /** From the tests: `Option<(MyType, Vec<MyType>)>` resolves to `Option<(u8, Vec<u8>)>`. */
  lemma ResolveTypeNestedExample()
    ensures ResolveType(Path([Segment("Option", Angle([TypeArg(Tuple([Named("MyType"), Path([Segment("Vec", Angle([TypeArg(Named("MyType"))]))])]))]))]), TestVars())
            == Path([Segment("Option", Angle([TypeArg(Tuple([Named("u8"), Path([Segment("Vec", Angle([TypeArg(Named("u8"))]))])]))]))])
  {
    var vars := TestVars();
    assert ResolveType(Named("MyType"), vars) == Named("u8");
    ResolveOneArg("Vec", Named("MyType"), vars);
    ResolveSingleSegment(Segment("Vec", Angle([TypeArg(Named("MyType"))])), vars);
    var vec := Path([Segment("Vec", Angle([TypeArg(Named("MyType"))]))]);
    var tup := Tuple([Named("MyType"), vec]);
    var tup' := Tuple([Named("u8"), Path([Segment("Vec", Angle([TypeArg(Named("u8"))]))])]);
    assert ResolveType(tup, vars) == tup';
    ResolveOneArg("Option", tup, vars);
    ResolveSingleSegment(Segment("Option", Angle([TypeArg(tup)])), vars);
  }

  /** From the tests: parentheses around an alias are dropped, `(MyType)` resolves to `u8`. */
  lemma ResolveTypeParenExample()
    ensures ResolveType(Paren(Named("MyType")), TestVars()) == Named("u8")
  {
  }

  // ============================================================ compare_types

  /** `compare_types`, after removing parentheses: `_` on either side matches; tuples need the
    * same length and matching elements; references match by their elements alone; slices by
    * their elements; arrays by their elements and equal lengths unless one is `_`; paths by
    * segments; anything else never matches. */
  predicate CompareTypes(t1: Ty, t2: Ty)
    decreases TySize(t1), 1
  {
    var u1, u2 := UnwrapParens(t1), UnwrapParens(t2);
    if u1.Infer? || u2.Infer? then true
    else if u1.Tuple? && u2.Tuple? then
      |u1.elems| == |u2.elems| && forall i :: 0 <= i < |u1.elems| ==> CompareTypes(u1.elems[i], u2.elems[i])
    else if (u1.Ref? && u2.Ref?) || (u1.Slice? && u2.Slice?) then CompareTypes(u1.elem, u2.elem)
    else if u1.Array? && u2.Array? then
      CompareTypes(u1.elem, u2.elem) && (u1.len.LenInfer? || u2.len.LenInfer? || u1.len == u2.len)
    else if u1.Path? && u2.Path? then
      |u1.segs| == |u2.segs| && forall i :: 0 <= i < |u1.segs| ==> CompareSegments(u1.segs[i], u2.segs[i])
    else false
  }

  /** Two segments: the same identifier, then the arguments. Angle-bracketed arguments are
    * zipped (extra ones on either side are not looked at) and must be type arguments that
    * match; otherwise both sides must have no arguments. */
  predicate CompareSegments(s1: Segment, s2: Segment)
    decreases SegSize(s1), 0
  {
    s1.ident == s2.ident &&
    if s1.args.Angle? && s2.args.Angle? then
      var a1, a2 := s1.args.args, s2.args.args;
      forall j :: 0 <= j < |a1| && j < |a2| ==> a1[j].TypeArg? && a2[j].TypeArg? && CompareTypes(a1[j].ty, a2[j].ty)
    else ArgsEmpty(s1.args) && ArgsEmpty(s2.args)
  }

  /** `PathArguments::is_empty`. */
  predicate ArgsEmpty(a: PathArgs) {
    a.NoArgs? || (a.Angle? && a.args == [])
  }

  /** `types_equal`: both types resolved through the variables' aliases, then compared. */
  predicate TypesEqual(type1: Ty, type2: Ty, vars: seq<Var>) {
    CompareTypes(ResolveType(type1, vars), ResolveType(type2, vars))
  }

  // ------------------------------------------------------------ properties

  /** `compare_types` is symmetric: every arm treats both sides alike. */
  lemma {:induction false} CompareTypesSymmetric(t1: Ty, t2: Ty)
    ensures CompareTypes(t1, t2) == CompareTypes(t2, t1)
    decreases TySize(t1) + TySize(t2), 1
  {
    var u1, u2 := UnwrapParens(t1), UnwrapParens(t2);
    if u1.Infer? || u2.Infer? {
    } else if u1.Tuple? && u2.Tuple? && |u1.elems| == |u2.elems| {
      forall i | 0 <= i < |u1.elems| ensures CompareTypes(u1.elems[i], u2.elems[i]) == CompareTypes(u2.elems[i], u1.elems[i]) {
        CompareTypesSymmetric(u1.elems[i], u2.elems[i]);
      }
    } else if (u1.Ref? && u2.Ref?) || (u1.Slice? && u2.Slice?) || (u1.Array? && u2.Array?) {
      CompareTypesSymmetric(u1.elem, u2.elem);
    } else if u1.Path? && u2.Path? && |u1.segs| == |u2.segs| {
      forall i | 0 <= i < |u1.segs| ensures CompareSegments(u1.segs[i], u2.segs[i]) == CompareSegments(u2.segs[i], u1.segs[i]) {
        CompareSegmentsSymmetric(u1.segs[i], u2.segs[i]);
      }
    }
  }

  lemma {:induction false} CompareSegmentsSymmetric(s1: Segment, s2: Segment)
    ensures CompareSegments(s1, s2) == CompareSegments(s2, s1)
    decreases SegSize(s1) + SegSize(s2), 0
  {
    if s1.args.Angle? && s2.args.Angle? {
      var a1, a2 := s1.args.args, s2.args.args;
      forall j | 0 <= j < |a1| && j < |a2| && a1[j].TypeArg? && a2[j].TypeArg?
        ensures CompareTypes(a1[j].ty, a2[j].ty) == CompareTypes(a2[j].ty, a1[j].ty)
      {
        assert ArgSize(a1[j]) <= ArgsSize(a1) && ArgSize(a2[j]) <= ArgsSize(a2);
        CompareTypesSymmetric(a1[j].ty, a2[j].ty);
      }
    }
  }

  /** The types `compare_types` can compare with themselves: no opaque type, and only type
    * arguments in paths. */
  predicate Comparable(t: Ty)
    decreases t, 1
  {
    match t
    case Tuple(es) => forall i :: 0 <= i < |es| ==> Comparable(es[i])
    case Ref(_, _, e) => Comparable(e)
    case Array(e, _) => Comparable(e)
    case Slice(e) => Comparable(e)
    case Paren(e) => Comparable(e)
    case Path(segs) => forall i :: 0 <= i < |segs| ==> ComparableSegment(segs[i])
    case Infer => true
    case Other(_) => false
  }

  predicate ComparableSegment(s: Segment)
    decreases s, 0
  {
    s.args.NoArgs? ||
    (s.args.Angle? && forall j :: 0 <= j < |s.args.args| ==> s.args.args[j].TypeArg? && Comparable(s.args.args[j].ty))
  }

  lemma ComparableUnwrap(t: Ty)
    requires Comparable(t)
    ensures Comparable(UnwrapParens(t))
  {
  }

  /** A comparable type is the same type as itself; an opaque one is not. */
  lemma {:induction false} CompareTypesReflexive(t: Ty)
    requires Comparable(t)
    ensures CompareTypes(t, t)
    decreases TySize(t), 1
  {
    var u := UnwrapParens(t);
    ComparableUnwrap(t);
    match u
    case Tuple(es) =>
      forall i | 0 <= i < |es| ensures CompareTypes(es[i], es[i]) { CompareTypesReflexive(es[i]); }
    case Ref(_, _, e) => CompareTypesReflexive(e);
    case Array(e, _) => CompareTypesReflexive(e);
    case Slice(e) => CompareTypesReflexive(e);
    case Path(segs) =>
      forall i | 0 <= i < |segs| ensures CompareSegments(segs[i], segs[i]) {
        var s := segs[i];
        if s.args.Angle? {
          forall j | 0 <= j < |s.args.args| ensures CompareTypes(s.args.args[j].ty, s.args.args[j].ty) {
            assert ArgSize(s.args.args[j]) <= ArgsSize(s.args.args);
            CompareTypesReflexive(s.args.args[j].ty);
          }
        }
      }
    case Infer =>
  }

  lemma OpaqueNeverEqual(text: string, t: Ty)
    requires !UnwrapParens(t).Infer?
    ensures !CompareTypes(Other(text), t) && !CompareTypes(t, Other(text))
  {
  }

  /** Rewriting the lifetimes of references changes nothing: `compare_types` never reads them. */
  lemma {:induction false} CompareTypesIgnoresLifetimes(t1: Ty, t2: Ty, f: Option<string> -> Option<string>)
    ensures CompareTypes(MapLifetimes(t1, f), t2) == CompareTypes(t1, t2)
    decreases TySize(t1) + TySize(t2), 2
  {
    UnwrapMapLifetimes(t1, f);
    var u1, u2 := UnwrapParens(t1), UnwrapParens(t2);
    if u1.Infer? || u2.Infer? {
    } else if u1.Tuple? && u2.Tuple? {
      CompareTupleIgnoresLifetimes(t1, t2, f);
    } else if (u1.Ref? && u2.Ref?) || (u1.Slice? && u2.Slice?) || (u1.Array? && u2.Array?) {
      CompareTypesIgnoresLifetimes(u1.elem, u2.elem, f);
    } else if u1.Path? && u2.Path? {
      ComparePathIgnoresLifetimes(t1, t2, f);
    }
  }

  /** The tuple case of `CompareTypesIgnoresLifetimes`. */
  lemma {:induction false} CompareTupleIgnoresLifetimes(t1: Ty, t2: Ty, f: Option<string> -> Option<string>)
    requires UnwrapParens(t1).Tuple? && UnwrapParens(t2).Tuple?
    ensures CompareTypes(MapLifetimes(t1, f), t2) == CompareTypes(t1, t2)
    decreases TySize(t1) + TySize(t2), 1
  {
    UnwrapMapLifetimes(t1, f);
    var u1, u2 := UnwrapParens(t1), UnwrapParens(t2);
    var v1 := UnwrapParens(MapLifetimes(t1, f));
    if |u1.elems| == |u2.elems| {
      forall i | 0 <= i < |u1.elems|
        ensures CompareTypes(MapLifetimes(u1.elems[i], f), u2.elems[i]) == CompareTypes(u1.elems[i], u2.elems[i])
      {
        CompareTypesIgnoresLifetimes(u1.elems[i], u2.elems[i], f);
      }
      assert |v1.elems| == |u1.elems| && forall i | 0 <= i < |u1.elems| :: v1.elems[i] == MapLifetimes(u1.elems[i], f);
    }
  }

  /** The path case of `CompareTypesIgnoresLifetimes`. */
  lemma {:induction false} ComparePathIgnoresLifetimes(t1: Ty, t2: Ty, f: Option<string> -> Option<string>)
    requires UnwrapParens(t1).Path? && UnwrapParens(t2).Path?
    ensures CompareTypes(MapLifetimes(t1, f), t2) == CompareTypes(t1, t2)
    decreases TySize(t1) + TySize(t2), 1
  {
    UnwrapMapLifetimes(t1, f);
    var u1, u2 := UnwrapParens(t1), UnwrapParens(t2);
    var v1 := UnwrapParens(MapLifetimes(t1, f));
    if |u1.segs| == |u2.segs| {
      forall i | 0 <= i < |u1.segs|
        ensures CompareSegments(MapSegLifetimes(u1.segs[i], f), u2.segs[i]) == CompareSegments(u1.segs[i], u2.segs[i])
      {
        CompareSegmentsIgnoresLifetimes(u1.segs[i], u2.segs[i], f);
      }
      assert |v1.segs| == |u1.segs| && forall i | 0 <= i < |u1.segs| :: v1.segs[i] == MapSegLifetimes(u1.segs[i], f);
    }
  }

  lemma {:induction false} CompareSegmentsIgnoresLifetimes(s1: Segment, s2: Segment, f: Option<string> -> Option<string>)
    ensures CompareSegments(MapSegLifetimes(s1, f), s2) == CompareSegments(s1, s2)
    decreases SegSize(s1) + SegSize(s2), 0
  {
    var m := MapSegLifetimes(s1, f);
    if s1.args.Angle? && s2.args.Angle? {
      var a1, a2, b1 := s1.args.args, s2.args.args, m.args.args;
      assert |b1| == |a1| && forall j | 0 <= j < |a1| :: b1[j] == MapArgLifetimes(a1[j], f);
      forall j | 0 <= j < |a1| && j < |a2| && a1[j].TypeArg? && a2[j].TypeArg?
        ensures CompareTypes(MapLifetimes(a1[j].ty, f), a2[j].ty) == CompareTypes(a1[j].ty, a2[j].ty)
      {
        assert ArgSize(a1[j]) <= ArgsSize(a1) && ArgSize(a2[j]) <= ArgsSize(a2);
        CompareTypesIgnoresLifetimes(a1[j].ty, a2[j].ty, f);
      }
    }
  }

  /** Rewriting lifetimes commutes with removing parentheses. */
  lemma UnwrapMapLifetimes(t: Ty, f: Option<string> -> Option<string>)
    ensures UnwrapParens(MapLifetimes(t, f)) == MapLifetimes(UnwrapParens(t), f)
  {
  }

  /** From the tests: `&'a u8` and `&u8` are the same type, and `_` matches anything. */
  lemma CompareTypesExamples()
    ensures CompareTypes(Ref(Some("'a"), false, Named("u8")), Ref(None, false, Named("u8")))
    ensures CompareTypes(Infer, Named("u8")) && CompareTypes(Named("u8"), Infer)
  {
    assert CompareSegments(Segment("u8", NoArgs), Segment("u8", NoArgs));
    assert CompareTypes(Named("u8"), Named("u8"));
  }

  /** From the tests: array lengths must agree unless one is `_`; tuples must have the same
    * length. */
  lemma CompareTypesArrayExamples()
    ensures CompareTypes(Array(Named("u8"), LenInfer), Array(Named("u8"), LenExpr("3")))
    ensures !CompareTypes(Array(Named("u8"), LenExpr("4")), Array(Named("u8"), LenExpr("3")))
    ensures !CompareTypes(Tuple([Named("u8"), Named("i32")]), Tuple([Named("u8")]))
  {
    assert CompareSegments(Segment("u8", NoArgs), Segment("u8", NoArgs));
    assert CompareTypes(Named("u8"), Named("u8"));
    assert LenExpr("4") != LenExpr("3");
  }
}
