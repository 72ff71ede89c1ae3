/** The lifetime rules every set of specializations must follow
  * (`crates/spec-trait-utils/src/lifetimes.rs`): all impls of one trait for one type constrain
  * the trait's generics with the same lifetimes, and within one impl no two type parameters are
  * bound by the same lifetime. Both checks panic on a violation; here they return `Err`. */
module UtilsLifetimes {
  import opened Wrappers
  import opened Syntax

  /** The parts of `ImplBody` the rules read: the impl generics, parsed, and the names of the
    * generics given to the trait, in the order they are written (`<T, U>` gives `["T", "U"]`). */
  datatype ImplBody = ImplBody(
    implGenerics: Generics,
    traitGenerics: seq<string>,
    typeName: string,
    traitName: string)

  /** A type parameter and its lifetime constraint. */
  type Entry = (string, Option<string>)

  // ------------------------------------------------------------ parse_generics_lifetimes

  /** Index `i` holds the first lifetime among the bounds. */
  predicate FirstLifetimeAt(bounds: seq<Bound>, i: int) {
    0 <= i < |bounds| && bounds[i].LifetimeBound? && forall j :: 0 <= j < i ==> !bounds[j].LifetimeBound?
  }

  /** `bounds.iter().find_map(...)`: the first lifetime bound of a type parameter, if any. */
  function FirstLifetime(bounds: seq<Bound>): (r: Option<string>)
    ensures r.None? <==> forall i :: 0 <= i < |bounds| ==> !bounds[i].LifetimeBound?
    ensures r.Some? ==> exists i :: FirstLifetimeAt(bounds, i) && r.value == bounds[i].lifetime
  {
    if bounds == [] then None
    else if bounds[0].LifetimeBound? then
      assert FirstLifetimeAt(bounds, 0);
      Some(bounds[0].lifetime)
    else
      var r := FirstLifetime(bounds[1..]);
      assert forall i :: 1 <= i < |bounds| ==> bounds[i] == bounds[1..][i - 1];
      if r.Some? then
        var i :| FirstLifetimeAt(bounds[1..], i) && r.value == bounds[1..][i].lifetime;
        assert FirstLifetimeAt(bounds, i + 1);
        r
      else r
  }

  /** The type parameters of a list of generic parameters, in order. */
  function TypeParams(params: seq<GenericParam>): (r: seq<GenericParam>)
    ensures |r| <= |params|
    ensures forall i :: 0 <= i < |r| ==> r[i].TypeParam?
  {
    if params == [] then []
    else (if params[0].TypeParam? then [params[0]] else []) + TypeParams(params[1..])
  }

  /** `TypeParams` keeps every type parameter and nothing else. */
  lemma {:induction false} TypeParamsKeeps(params: seq<GenericParam>, p: GenericParam)
    ensures p in TypeParams(params) <==> p in params && p.TypeParam?
  {
    if params != [] {
      TypeParamsKeeps(params[1..], p);
      assert params == [params[0]] + params[1..];
    }
  }

  /** `parse_generics_lifetimes`: each type parameter with its first lifetime bound or `None`.
    * Lifetime and const parameters are passed over. */
  function ParseGenericsLifetimes(params: seq<GenericParam>): (r: seq<Entry>)
    ensures |r| <= |params|
  {
    if params == [] then []
    else
      match params[0]
      case TypeParam(name, bounds) =>
        [(name, FirstLifetime(bounds))] + ParseGenericsLifetimes(params[1..])
      case _ => ParseGenericsLifetimes(params[1..])
  }

  /** One entry per type parameter, in declaration order, holding its name and its first
    * lifetime bound. */
  lemma {:induction false} ParseGenericsLifetimesEntries(params: seq<GenericParam>)
    ensures |ParseGenericsLifetimes(params)| == |TypeParams(params)|
    ensures forall i :: 0 <= i < |TypeParams(params)| ==>
      ParseGenericsLifetimes(params)[i] == (TypeParams(params)[i].name, FirstLifetime(TypeParams(params)[i].bounds))
  {
    if params != [] {
      var rest := params[1..];
      ParseGenericsLifetimesEntries(rest);
      ParseGenericsLifetimesCons(params[0], rest);
      assert params == [params[0]] + rest;
      var r, tp := ParseGenericsLifetimes(params), TypeParams(params);
      if params[0].TypeParam? {
        assert tp == [params[0]] + TypeParams(rest);
        forall i | 0 <= i < |tp|
          ensures r[i] == (tp[i].name, FirstLifetime(tp[i].bounds))
        {
          if i > 0 {
            assert tp[i] == TypeParams(rest)[i - 1];
            assert r[i] == ParseGenericsLifetimes(rest)[i - 1];
          }
        }
      } else {
        assert tp == TypeParams(rest);
      }
    }
  }

  // ------------------------------------------------------------ get_lifetimes

  /** Index `i` holds the first entry for the parameter `name`. */
  predicate FirstEntryAt(entries: seq<Entry>, name: string, i: int) {
    0 <= i < |entries| && entries[i].0 == name && forall j :: 0 <= j < i ==> entries[j].0 != name
  }

  /** The lifetime of the first entry for `name`, or `None` when there is no such entry. */
  function LookupLifetime(entries: seq<Entry>, name: string): (r: Option<string>)
    ensures (forall i :: 0 <= i < |entries| ==> entries[i].0 != name) ==> r.None?
    ensures forall i :: FirstEntryAt(entries, name, i) ==> r == entries[i].1
  {
    if entries == [] then None
    else if entries[0].0 == name then entries[0].1
    else
      var r := LookupLifetime(entries[1..], name);
      assert forall i :: FirstEntryAt(entries, name, i) ==> i >= 1 && FirstEntryAt(entries[1..], name, i - 1);
      r
  }

  /** `get_lifetimes`: for each generic given to the trait, in order and with repeats, the
    * lifetime constraint of the impl parameter of that name; `None` when it has none or when
    * no type parameter has that name. */
  function GetLifetimes(impl_: ImplBody): (r: seq<Option<string>>)
    ensures |r| == |impl_.traitGenerics|
  {
    LookupAll(ParseGenericsLifetimes(impl_.implGenerics.params), impl_.traitGenerics)
  }

  /** Entry `i` of `get_lifetimes` is the lifetime of the `i`-th trait generic. */
  lemma GetLifetimesAt(impl_: ImplBody, i: int)
    requires 0 <= i < |impl_.traitGenerics|
    ensures GetLifetimes(impl_)[i] ==
      LookupLifetime(ParseGenericsLifetimes(impl_.implGenerics.params), impl_.traitGenerics[i])
  {
    LookupAllAt(ParseGenericsLifetimes(impl_.implGenerics.params), impl_.traitGenerics, i);
  }

  function LookupAll(entries: seq<Entry>, names: seq<string>): (r: seq<Option<string>>)
    ensures |r| == |names|
  {
    if names == [] then [] else [LookupLifetime(entries, names[0])] + LookupAll(entries, names[1..])
  }

  lemma {:induction false} LookupAllAt(entries: seq<Entry>, names: seq<string>, i: int)
    requires 0 <= i < |names|
    ensures LookupAll(entries, names)[i] == LookupLifetime(entries, names[i])
  {
    if i > 0 {
      LookupAllAt(entries, names[1..], i - 1);
    }
  }

  // ------------------------------------------------------------ assert_consistency

  /** Two impls of the same trait for the same type. */
  predicate SameImpl(a: ImplBody, b: ImplBody) {
    a.typeName == b.typeName && a.traitName == b.traitName
  }

  /** Rule 2 broken by a pair: same trait and type, different lifetimes for the trait generics. */
  predicate Conflicting(a: ImplBody, b: ImplBody) {
    SameImpl(a, b) && GetLifetimes(a) != GetLifetimes(b)
  }

  /** The first impl of `impls` in conflict with `impl_`. */
  function FindConflict(impl_: ImplBody, impls: seq<ImplBody>): (r: Option<ImplBody>)
    ensures r.None? <==> forall j :: 0 <= j < |impls| ==> !Conflicting(impl_, impls[j])
    ensures r.Some? ==> r.value in impls && Conflicting(impl_, r.value)
  {
    if impls == [] then None
    else if Conflicting(impl_, impls[0]) then Some(impls[0])
    else
      var r := FindConflict(impl_, impls[1..]);
      assert forall j :: 1 <= j < |impls| ==> impls[j] == impls[1..][j - 1];
      r
  }

  /** The outer loop of `assert_consistency`, from the impl at index `k` on. */
  function ConsistencyFrom(impls: seq<ImplBody>, k: nat): (r: Result<()>)
    requires k <= |impls|
    ensures r.Ok? <==> forall i, j :: k <= i < |impls| && 0 <= j < |impls| ==> !Conflicting(impls[i], impls[j])
    decreases |impls| - k
  {
    if k == |impls| then Ok(())
    else
      match FindConflict(impls[k], impls)
      case Some(_) =>
        Err("Impl for type '" + impls[k].typeName + "' and trait '" + impls[k].traitName +
            "' has conflicting lifetimes constraints")
      case None => ConsistencyFrom(impls, k + 1)
  }

  /** `assert_consistency`: fails exactly when two impls of one trait for one type give the
    * trait generics different lifetime constraints. */
  function AssertConsistency(impls: seq<ImplBody>): (r: Result<()>)
    ensures r.Ok? <==> forall i, j :: 0 <= i < |impls| && 0 <= j < |impls| ==> !Conflicting(impls[i], impls[j])
  {
    ConsistencyFrom(impls, 0)
  }

  /** Impls for another type or another trait never take part in a conflict, so adding them
    * to a consistent list keeps it consistent. */
  lemma ConsistencyIgnoresOtherImpls(impls: seq<ImplBody>, extra: ImplBody)
    requires AssertConsistency(impls).Ok?
    requires forall i :: 0 <= i < |impls| ==> !SameImpl(extra, impls[i])
    ensures AssertConsistency(impls + [extra]).Ok?
  {
    var all := impls + [extra];
    forall i, j | 0 <= i < |all| && 0 <= j < |all|
      ensures !Conflicting(all[i], all[j])
    {
      if i < |impls| && j < |impls| {
        assert all[i] == impls[i] && all[j] == impls[j];
      } else if i < |impls| {
        assert !SameImpl(extra, all[i]);
      } else if j < |impls| {
        assert !SameImpl(extra, all[j]);
      }
    }
  }

  // ------------------------------------------------------------ assert_uniqueness

  /** Rule 5 broken inside one impl: two parameters with different names bound by the same
    * lifetime. */
  predicate Repeated(entries: seq<Entry>, i: int, j: int) {
    0 <= i < |entries| && 0 <= j < |entries| &&
    entries[i].0 != entries[j].0 && entries[i].1.Some? && entries[i].1 == entries[j].1
  }

  /** The first entry that repeats the lifetime of `e`. */
  function FindRepeat(e: Entry, entries: seq<Entry>): (r: Option<Entry>)
    ensures r.None? <==> forall j :: 0 <= j < |entries| ==> !(e.0 != entries[j].0 && e.1.Some? && e.1 == entries[j].1)
    ensures r.Some? ==> r.value in entries && r.value.0 != e.0 && e.1.Some? && r.value.1 == e.1
  {
    if entries == [] then None
    else if e.0 != entries[0].0 && e.1.Some? && e.1 == entries[0].1 then Some(entries[0])
    else
      var r := FindRepeat(e, entries[1..]);
      assert forall j :: 1 <= j < |entries| ==> entries[j] == entries[1..][j - 1];
      r
  }

  /** The inner loop of `assert_uniqueness` over the entries of one impl, from index `k` on. */
  function UniqueFrom(impl_: ImplBody, entries: seq<Entry>, k: nat): (r: Result<()>)
    requires k <= |entries|
    ensures r.Ok? <==> forall i, j :: k <= i < |entries| && 0 <= j < |entries| ==> !Repeated(entries, i, j)
    decreases |entries| - k
  {
    if k == |entries| then Ok(())
    else
      match FindRepeat(entries[k], entries)
      case Some(other) =>
        var j :| 0 <= j < |entries| && entries[j] == other;
        assert Repeated(entries, k, j);
        Err("Impl for type '" + impl_.typeName + "' and trait '" + impl_.traitName +
            "' has repeated lifetime constraint")
      case None => UniqueFrom(impl_, entries, k + 1)
  }

  /** The lifetime entries of an impl. */
  function EntriesOf(impl_: ImplBody): seq<Entry> {
    ParseGenericsLifetimes(impl_.implGenerics.params)
  }

  /** No two differently named parameters share a lifetime. */
  predicate UniqueEntries(entries: seq<Entry>) {
    forall i, j | 0 <= i < |entries| && 0 <= j < |entries| :: !Repeated(entries, i, j)
  }

  /** The outer loop of `assert_uniqueness`, from the impl at index `k` on. */
  function UniquenessFrom(impls: seq<ImplBody>, k: nat): (r: Result<()>)
    requires k <= |impls|
    ensures r.Ok? <==> forall m :: k <= m < |impls| ==> UniqueEntries(EntriesOf(impls[m]))
    decreases |impls| - k
  {
    if k == |impls| then Ok(())
    else
      var u := UniqueFrom(impls[k], EntriesOf(impls[k]), 0);
      if u.Err? then u else UniquenessFrom(impls, k + 1)
  }

  /** `assert_uniqueness`: fails exactly when some impl binds two differently named type
    * parameters by the same lifetime, `'static` included; unbound parameters never count. */
  function AssertUniqueness(impls: seq<ImplBody>): (r: Result<()>)
    ensures r.Ok? <==> forall m :: 0 <= m < |impls| ==> UniqueEntries(EntriesOf(impls[m]))
  {
    UniquenessFrom(impls, 0)
  }

  /** `assert_constraints`: consistency first, then uniqueness. */
  function AssertConstraints(impls: seq<ImplBody>): (r: Result<()>)
    ensures r.Ok? <==> AssertConsistency(impls).Ok? && AssertUniqueness(impls).Ok?
    ensures AssertConsistency(impls).Err? ==> r == AssertConsistency(impls)
  {
    var c := AssertConsistency(impls);
    if c.Err? then c else AssertUniqueness(impls)
  }

  // ------------------------------------------------------------ the cases of the unit tests

  /** `parse_generics_lifetimes` on a list with a first parameter. */
  lemma ParseGenericsLifetimesCons(p: GenericParam, rest: seq<GenericParam>)
    ensures ParseGenericsLifetimes([p] + rest) ==
      (if p.TypeParam? then [(p.name, FirstLifetime(p.bounds))] else []) + ParseGenericsLifetimes(rest)
  {
    assert ([p] + rest)[1..] == rest;
  }

  /** `<'a, 'b, 'c, T: 'a, U: 'b + Trait, V, W: Trait, X: 'static>`, one parameter at a time. */
  function MixedParams(): seq<GenericParam> {
    [LifetimeParam("'a", [])] + ([LifetimeParam("'b", [])] + ([LifetimeParam("'c", [])] +
    ([TypeParam("T", [LifetimeBound("'a")])] +
    ([TypeParam("U", [LifetimeBound("'b"), TraitBound("Trait")])] +
    ([TypeParam("V", [])] +
    ([TypeParam("W", [TraitBound("Trait")])] +
    [TypeParam("X", [LifetimeBound("'static")])]))))))
  }

  /** Lifetime parameters are skipped and a trait bound after a lifetime is ignored. */
  lemma ParseGenericsLifetimesExample()
    ensures ParseGenericsLifetimes(MixedParams()) ==
      [("T", Some("'a")), ("U", Some("'b")), ("V", None), ("W", None), ("X", Some("'static"))]
  {
    var x := [TypeParam("X", [LifetimeBound("'static")])];
    ParseGenericsLifetimesCons(x[0], []);
    assert x == [x[0]] + [];
    var w := [TypeParam("W", [TraitBound("Trait")])] + x;
    ParseGenericsLifetimesCons(TypeParam("W", [TraitBound("Trait")]), x);
    var v := [TypeParam("V", [])] + w;
    ParseGenericsLifetimesCons(TypeParam("V", []), w);
    var u := [TypeParam("U", [LifetimeBound("'b"), TraitBound("Trait")])] + v;
    ParseGenericsLifetimesCons(TypeParam("U", [LifetimeBound("'b"), TraitBound("Trait")]), v);
    var t := [TypeParam("T", [LifetimeBound("'a")])] + u;
    ParseGenericsLifetimesCons(TypeParam("T", [LifetimeBound("'a")]), u);
    var c := [LifetimeParam("'c", [])] + t;
    ParseGenericsLifetimesCons(LifetimeParam("'c", []), t);
    var b := [LifetimeParam("'b", [])] + c;
    ParseGenericsLifetimesCons(LifetimeParam("'b", []), c);
    ParseGenericsLifetimesCons(LifetimeParam("'a", []), b);
  }

  /** Index by index, the lifetimes of `T`, `V`, `X`, `U`, `W` and `X` again. */
  lemma GetLifetimesExample()
    ensures var r := GetLifetimes(ImplBody(Generics(MixedParams(), []), ["T", "V", "X", "U", "W", "X"], "", ""));
      |r| == 6 && r[0] == Some("'a") && r[1] == None && r[2] == Some("'static") &&
      r[3] == Some("'b") && r[4] == None && r[5] == Some("'static")
  {
    var e := ParseGenericsLifetimes(MixedParams());
    ParseGenericsLifetimesExample();
    assert FirstEntryAt(e, "T", 0) && FirstEntryAt(e, "U", 1) && FirstEntryAt(e, "V", 2);
    assert FirstEntryAt(e, "W", 3) && FirstEntryAt(e, "X", 4);
    var impl_ := ImplBody(Generics(MixedParams(), []), ["T", "V", "X", "U", "W", "X"], "", "");
    GetLifetimesAt(impl_, 0);
    GetLifetimesAt(impl_, 1);
    GetLifetimesAt(impl_, 2);
    GetLifetimesAt(impl_, 3);
    GetLifetimesAt(impl_, 4);
    GetLifetimesAt(impl_, 5);
  }

  /** Type parameters with at most one lifetime bound each. */
  function Bounded(ps: seq<Entry>): (r: seq<GenericParam>)
    ensures |r| == |ps|
  {
    if ps == [] then []
    else [TypeParam(ps[0].0, if ps[0].1.Some? then [LifetimeBound(ps[0].1.value)] else [])] + Bounded(ps[1..])
  }

  /** Reading the lifetimes of `Bounded` gives back its entries. */
  lemma {:induction false} ParseBounded(ps: seq<Entry>)
    ensures ParseGenericsLifetimes(Bounded(ps)) == ps
  {
    if ps != [] {
      var p := TypeParam(ps[0].0, if ps[0].1.Some? then [LifetimeBound(ps[0].1.value)] else []);
      ParseGenericsLifetimesCons(p, Bounded(ps[1..]));
      ParseBounded(ps[1..]);
      assert FirstLifetime(p.bounds) == ps[0].1;
    }
  }

  /** An impl of `MyTrait` for `MyType` declaring `'a` and then the given type parameters. */
  function Declaring(ps: seq<Entry>, traitGenerics: seq<string>): ImplBody {
    ImplBody(Generics([LifetimeParam("'a", [])] + Bounded(ps), []), traitGenerics, "MyType", "MyTrait")
  }

  lemma DeclaringEntries(ps: seq<Entry>, traitGenerics: seq<string>)
    ensures EntriesOf(Declaring(ps, traitGenerics)) == ps
  {
    ParseGenericsLifetimesCons(LifetimeParam("'a", []), Bounded(ps));
    ParseBounded(ps);
  }

  /** `T: 'a, U: 'static` given as `<T, U>` agrees with `T: 'static, U: 'a` given as `<U, T>`. */
  lemma ConsistencyReorderedAgrees()
    ensures AssertConsistency([Declaring([("T", Some("'a")), ("U", Some("'static"))], ["T", "U"]),
                               Declaring([("T", Some("'static")), ("U", Some("'a"))], ["U", "T"])]).Ok?
  {
    var ea, eb := [("T", Some("'a")), ("U", Some("'static"))], [("T", Some("'static")), ("U", Some("'a"))];
    var a, b := Declaring(ea, ["T", "U"]), Declaring(eb, ["U", "T"]);
    DeclaringEntries(ea, ["T", "U"]);
    DeclaringEntries(eb, ["U", "T"]);
    assert FirstEntryAt(ea, "T", 0) && FirstEntryAt(ea, "U", 1);
    assert FirstEntryAt(eb, "T", 0) && FirstEntryAt(eb, "U", 1);
    assert GetLifetimes(a) == GetLifetimes(b);
    assert forall i, j :: 0 <= i < 2 && 0 <= j < 2 ==> !Conflicting([a, b][i], [a, b][j]);
  }

  /** The same impl generics given to the trait in another order conflict: the order of the
    * trait generics matters. */
  lemma ConsistencyReorderedConflicts()
    ensures AssertConsistency([Declaring([("T", Some("'a")), ("U", Some("'static"))], ["T", "U"]),
                               Declaring([("T", Some("'a")), ("U", Some("'static"))], ["U", "T"])]).Err?
  {
    var e := [("T", Some("'a")), ("U", Some("'static"))];
    var a, c := Declaring(e, ["T", "U"]), Declaring(e, ["U", "T"]);
    DeclaringEntries(e, ["T", "U"]);
    DeclaringEntries(e, ["U", "T"]);
    assert FirstEntryAt(e, "T", 0) && FirstEntryAt(e, "U", 1);
    assert GetLifetimes(a)[0] != GetLifetimes(c)[0];
    assert Conflicting([a, c][0], [a, c][1]);
  }

  /** An impl with one parameter `T` bound by `lt`. */
  function OneParam(lt: string, typeName: string, traitName: string): ImplBody {
    ImplBody(Generics([LifetimeParam(lt, [])] + Bounded([("T", Some(lt))]), []), ["T"], typeName, traitName)
  }

  lemma OneParamLifetimes(lt: string, typeName: string, traitName: string)
    ensures GetLifetimes(OneParam(lt, typeName, traitName)) == [Some(lt)]
  {
    var e := [("T", Some(lt))];
    ParseGenericsLifetimesCons(LifetimeParam(lt, []), Bounded(e));
    ParseBounded(e);
    assert FirstEntryAt(e, "T", 0);
  }

  /** `T: 'a` against `T: 'static` conflicts for one type and one trait. */
  lemma ConsistencyConflictExample()
    ensures AssertConsistency([OneParam("'a", "X", "Y"), OneParam("'static", "X", "Y")]).Err?
  {
    var a, b := OneParam("'a", "X", "Y"), OneParam("'static", "X", "Y");
    OneParamLifetimes("'a", "X", "Y");
    OneParamLifetimes("'static", "X", "Y");
    assert Conflicting([a, b][0], [a, b][1]);
  }

  /** The same bounds for another type or another trait do not conflict. */
  lemma ConsistencyOtherTypeOrTrait()
    ensures AssertConsistency([OneParam("'a", "TypeA", "Trait"), OneParam("'static", "TypeB", "Trait"),
                               OneParam("'static", "TypeA", "OtherTrait")]).Ok?
  {
    var l := [OneParam("'a", "TypeA", "Trait"), OneParam("'static", "TypeB", "Trait"),
              OneParam("'static", "TypeA", "OtherTrait")];
    forall i, j | 0 <= i < 3 && 0 <= j < 3
      ensures !Conflicting(l[i], l[j])
    {
      if i != j {
        assert !SameImpl(l[i], l[j]);
      }
    }
  }

  /** One impl declaring the given type parameters and nothing else. */
  function Params(ps: seq<Entry>): ImplBody {
    ImplBody(Generics(Bounded(ps), []), [], "", "")
  }

  /** Distinct lifetimes pass, `'static` included. */
  lemma UniquenessDistinctExample()
    ensures AssertUniqueness([Params([("T", Some("'a")), ("U", Some("'b")), ("V", Some("'static"))])]).Ok?
  {
    ParseBounded([("T", Some("'a")), ("U", Some("'b")), ("V", Some("'static"))]);
  }

  /** Two parameters bound by `'a` fail. */
  lemma UniquenessSharedExample()
    ensures AssertUniqueness([Params([("T", Some("'a")), ("U", Some("'a"))])]).Err?
  {
    var e := [("T", Some("'a")), ("U", Some("'a"))];
    ParseBounded(e);
    assert Repeated(e, 0, 1);
  }

  /** Two parameters bound by `'static` fail as well. */
  lemma UniquenessStaticExample()
    ensures AssertUniqueness([Params([("T", Some("'static")), ("U", Some("'static")), ("V", None)])]).Err?
  {
    var e := [("T", Some("'static")), ("U", Some("'static")), ("V", None)];
    ParseBounded(e);
    assert Repeated(e, 0, 1);
  }

  /** Parameters without a lifetime bound never count, however many there are. */
  lemma UniquenessIgnoresUnbound()
    ensures AssertUniqueness([Params([("T", None), ("U", None), ("V", Some("'a"))])]).Ok?
  {
    ParseBounded([("T", None), ("U", None), ("V", Some("'a"))]);
  }
}
