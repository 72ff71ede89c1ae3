// crates/spec-trait-utils/src/specialize.rs: which `when` conditions a specialisation can apply,
// the edits to a generic parameter list, and the substitution of a condition's type for a
// generic in the items of a trait or impl.

module UtilsSpecialize {
  import opened Wrappers
  import opened Syntax
  import opened FreshNames
  import Strings
  import C = UtilsConditions
  import T = UtilsTypes
  import UtilsTraits

  // ============================================================ get_generic_types_from_conditions

  /** The types of the `Type` conditions on `generic`, in the order of the conditions. */
  function TypesOf(generic: string, conds: seq<C.WhenCondition>): (r: seq<Ty>)
    ensures |r| <= |conds|
  {
    if conds == [] then []
    else (if conds[0].Type? && conds[0].generic == generic then [conds[0].ty] else []) + TypesOf(generic, conds[1..])
  }

  /** `TypesOf` holds exactly the types of the `Type` conditions on `generic`. */
  lemma {:induction false} TypesOfMembers(generic: string, conds: seq<C.WhenCondition>)
    ensures forall t :: t in TypesOf(generic, conds) <==> C.Type(generic, t) in conds
  {
    if conds != [] {
      TypesOfMembers(generic, conds[1..]);
      assert forall c :: c in conds <==> c == conds[0] || c in conds[1..];
    }
  }

  /** The sort key `t.replace("_", "").len()`: the length of the rendering without `_`. */
  function Key(t: Ty): nat {
    |Strings.RemoveChar(Render(t), '_')|
  }

  // ------------------------------------------------------------ a stable sort by a key

  predicate Sorted(s: seq<Ty>, key: Ty -> nat) {
    forall i, j :: 0 <= i < j < |s| ==> key(s[i]) <= key(s[j])
  }

  /** The elements of `s` whose key is `k`, in order. A sort is stable when it keeps this
    * subsequence for every key. */
  function WithKey(s: seq<Ty>, key: Ty -> nat, k: nat): (r: seq<Ty>)
    ensures |r| <= |s|
  {
    if s == [] then []
    else WithKey(s[..|s| - 1], key, k) + (if key(s[|s| - 1]) == k then [s[|s| - 1]] else [])
  }

  /** `WithKey` of a list with one more element at the end. */
  lemma WithKeySnoc(r: seq<Ty>, y: Ty, key: Ty -> nat, k: nat)
    ensures WithKey(r + [y], key, k) == WithKey(r, key, k) + (if key(y) == k then [y] else [])
  {
    assert (r + [y])[..|r|] == r && (r + [y])[|r|] == y;
  }

  /** One step of the insertion sort: `x` goes after every element from the end whose key is
    * larger, so it stays behind the elements of its own key. */
  function Insert(s: seq<Ty>, x: Ty, key: Ty -> nat): (r: seq<Ty>)
    ensures |r| == |s| + 1
  {
    if s == [] || key(s[|s| - 1]) <= key(x) then s + [x]
    else Insert(s[..|s| - 1], x, key) + [s[|s| - 1]]
  }

  /** `sort_by_key`, a stable sort, as an insertion sort. */
  function SortByKey(s: seq<Ty>, key: Ty -> nat): (r: seq<Ty>)
    ensures |r| == |s|
  {
    if s == [] then [] else Insert(SortByKey(s[..|s| - 1], key), s[|s| - 1], key)
  }

  lemma {:induction false} InsertMultiset(s: seq<Ty>, x: Ty, key: Ty -> nat)
    ensures multiset(Insert(s, x, key)) == multiset(s) + multiset{x}
    decreases |s|
  {
    if s != [] && key(s[|s| - 1]) > key(x) {
      var init, last := s[..|s| - 1], s[|s| - 1];
      assert s == init + [last];
      InsertMultiset(init, x, key);
    }
  }

  /** `Insert` adds `x` and nothing else. */
  lemma {:induction false} InsertElems(s: seq<Ty>, x: Ty, key: Ty -> nat)
    ensures forall e :: e in Insert(s, x, key) <==> e in s || e == x
    decreases |s|
  {
    if s != [] && key(s[|s| - 1]) > key(x) {
      var init, last := s[..|s| - 1], s[|s| - 1];
      assert s == init + [last];
      InsertElems(init, x, key);
    }
  }

  /** A sorted list stays sorted when an element with a key no smaller than all of its keys
    * is appended. */
  lemma SortedSnoc(r: seq<Ty>, y: Ty, key: Ty -> nat)
    requires Sorted(r, key) && forall e :: e in r ==> key(e) <= key(y)
    ensures Sorted(r + [y], key)
  {
    forall i, j | 0 <= i < j < |r| + 1 ensures key((r + [y])[i]) <= key((r + [y])[j]) {
      assert (r + [y])[i] == r[i] && r[i] in r;
      if j < |r| {
        assert (r + [y])[j] == r[j];
      }
    }
  }

  lemma {:induction false} InsertSorted(s: seq<Ty>, x: Ty, key: Ty -> nat)
    requires Sorted(s, key)
    ensures Sorted(Insert(s, x, key), key)
    decreases |s|
  {
    if s != [] && key(s[|s| - 1]) > key(x) {
      var init, last := s[..|s| - 1], s[|s| - 1];
      assert Sorted(init, key);
      InsertSorted(init, x, key);
      InsertElems(init, x, key);
      var r' := Insert(init, x, key);
      assert Insert(s, x, key) == r' + [last];
      assert forall e :: e in r' ==> key(e) <= key(last) by {
        forall e | e in r' ensures key(e) <= key(last) {
          if e != x {
            var i :| 0 <= i < |init| && init[i] == e;
            assert s[i] == e;
          }
        }
      }
      SortedSnoc(r', last, key);
    }
  }

  /** The elements of `x`'s key stay in order and `x` comes last among them. */
  lemma {:induction false} InsertWithKey(s: seq<Ty>, x: Ty, key: Ty -> nat, k: nat)
    ensures WithKey(Insert(s, x, key), key, k) == WithKey(s + [x], key, k)
    decreases |s|
  {
    if s != [] && key(s[|s| - 1]) > key(x) {
      var init, last := s[..|s| - 1], s[|s| - 1];
      var r' := Insert(init, x, key);
      var X := if key(x) == k then [x] else [];
      var L := if key(last) == k then [last] else [];
      assert Insert(s, x, key) == r' + [last];
      assert s == init + [last];
      WithKeySnoc(r', last, key, k);
      InsertWithKey(init, x, key, k);
      WithKeySnoc(init, x, key, k);
      WithKeySnoc(s, x, key, k);
      WithKeySnoc(init, last, key, k);
      assert X + L == L + X by {
        assert X == [] || L == [];
      }
    }
  }

  /** The insertion sort sorts, keeps every element, and keeps the order among equal keys. */
  lemma {:induction false} SortByKeyCorrect(s: seq<Ty>, key: Ty -> nat)
    ensures Sorted(SortByKey(s, key), key)
    ensures multiset(SortByKey(s, key)) == multiset(s)
    ensures forall k :: WithKey(SortByKey(s, key), key, k) == WithKey(s, key, k)
    decreases |s|
  {
    if s != [] {
      var init, last := s[..|s| - 1], s[|s| - 1];
      assert s == init + [last];
      SortByKeyCorrect(init, key);
      InsertSorted(SortByKey(init, key), last, key);
      InsertMultiset(SortByKey(init, key), last, key);
      forall k ensures WithKey(SortByKey(s, key), key, k) == WithKey(s, key, k) {
        InsertWithKey(SortByKey(init, key), last, key, k);
        WithKeySnoc(SortByKey(init, key), last, key, k);
        WithKeySnoc(init, last, key, k);
      }
    }
  }

  /** An already sorted list is left as it is. */
  lemma {:induction false} SortByKeySorted(s: seq<Ty>, key: Ty -> nat)
    requires Sorted(s, key)
    ensures SortByKey(s, key) == s
    decreases |s|
  {
    if s != [] {
      var init := s[..|s| - 1];
      assert Sorted(init, key);
      SortByKeySorted(init, key);
      assert init + [s[|s| - 1]] == s;
    }
  }

  /** `get_generic_types_from_conditions`. */
  function GetGenericTypesFromConditions(generic: string, conds: seq<C.WhenCondition>): seq<Ty> {
    SortByKey(TypesOf(generic, conds), Key)
  }

  /** The result holds the types of the `Type` conditions on `generic`, sorted by key and,
    * among equal keys, in the order of the conditions. */
  lemma GenericTypesCorrect(generic: string, conds: seq<C.WhenCondition>)
    ensures var r := GetGenericTypesFromConditions(generic, conds);
            Sorted(r, Key) && multiset(r) == multiset(TypesOf(generic, conds)) &&
            (forall t :: t in r <==> C.Type(generic, t) in conds) &&
            forall k :: WithKey(r, Key, k) == WithKey(TypesOf(generic, conds), Key, k)
  {
    var ts := TypesOf(generic, conds);
    SortByKeyCorrect(ts, Key);
    TypesOfMembers(generic, conds);
    var r := SortByKey(ts, Key);
    assert forall t :: t in r <==> t in multiset(ts);
  }

  /** `TypesOf` looks at the conditions one at a time. */
  lemma {:induction false} TypesOfCons(g: string, c: C.WhenCondition, rest: seq<C.WhenCondition>)
    ensures TypesOf(g, [c] + rest) == (if c.Type? && c.generic == g then [c.ty] else []) + TypesOf(g, rest)
  {
    assert ([c] + rest)[1..] == rest;
  }

  /** The conditions of the ordering test: three types for `T` and one for `U`. */
  function OrderingConds(a: Ty, vecInfer: Ty, vecString: Ty, foo: Ty): seq<C.WhenCondition> {
    [C.Type("T", a), C.Type("T", vecInfer), C.Type("T", vecString), C.Type("U", foo)]
  }

  /** The ordering test: `A`, `Vec<_>` and `Vec<String>` come out in this order for `T`. */
  lemma {:induction false} GenericTypesOrderingExample(a: Ty, vecInfer: Ty, vecString: Ty, foo: Ty)
    requires a == Named("A")
    requires vecInfer == Path([Segment("Vec", Angle([TypeArg(Infer)]))])
    requires vecString == Path([Segment("Vec", Angle([TypeArg(Named("String"))]))])
    ensures GetGenericTypesFromConditions("T", OrderingConds(a, vecInfer, vecString, foo)) == [a, vecInfer, vecString]
  {
    assert Key(a) == 1 && Key(vecInfer) == 8 && Key(vecString) == 14 by {
      KeyA(a);
      KeyVecInfer(vecInfer);
      KeyVecString(vecString);
    }
    OrderingSorted(a, vecInfer, vecString, foo);
  }

  lemma {:induction false} OrderingSorted(a: Ty, vecInfer: Ty, vecString: Ty, foo: Ty)
    requires Key(a) <= Key(vecInfer) <= Key(vecString)
    ensures GetGenericTypesFromConditions("T", OrderingConds(a, vecInfer, vecString, foo)) == [a, vecInfer, vecString]
  {
    OrderingTypes(a, vecInfer, vecString, foo);
    Sorted3(a, vecInfer, vecString);
    SortByKeySorted([a, vecInfer, vecString], Key);
  }

  lemma Sorted3(a: Ty, b: Ty, c: Ty)
    requires Key(a) <= Key(b) <= Key(c)
    ensures Sorted([a, b, c], Key)
  {
  }

  lemma {:induction false} OrderingTypes(a: Ty, vecInfer: Ty, vecString: Ty, foo: Ty)
    ensures TypesOf("T", OrderingConds(a, vecInfer, vecString, foo)) == [a, vecInfer, vecString]
  {
    var c0, c1, c2, c3 := C.Type("T", a), C.Type("T", vecInfer), C.Type("T", vecString), C.Type("U", foo);
    assert OrderingConds(a, vecInfer, vecString, foo) == [c0] + ([c1] + ([c2] + ([c3] + [])));
    TypesOfCons("T", c3, []);
    TypesOfCons("T", c2, [c3]);
    TypesOfCons("T", c1, [c2, c3]);
    TypesOfCons("T", c0, [c1, c2, c3]);
  }

  lemma {:induction false} OrderingTypesU(a: Ty, vecInfer: Ty, vecString: Ty, foo: Ty)
    ensures TypesOf("U", OrderingConds(a, vecInfer, vecString, foo)) == [foo]
  {
    var c0, c1, c2, c3 := C.Type("T", a), C.Type("T", vecInfer), C.Type("T", vecString), C.Type("U", foo);
    assert OrderingConds(a, vecInfer, vecString, foo) == [c0] + ([c1] + ([c2] + ([c3] + [])));
    TypesOfCons("U", c3, []);
    TypesOfCons("U", c2, [c3]);
    TypesOfCons("U", c1, [c2, c3]);
    TypesOfCons("U", c0, [c1, c2, c3]);
  }

  /** The ordering test, filtering: `U` has only `Foo`. */
  lemma {:induction false} GenericTypesFilteringExample(a: Ty, vecInfer: Ty, vecString: Ty, foo: Ty)
    ensures GetGenericTypesFromConditions("U", OrderingConds(a, vecInfer, vecString, foo)) == [foo]
  {
    OrderingTypesU(a, vecInfer, vecString, foo);
    SortByKeySorted([foo], Key);
  }

  /** The ordering test, filtering: `V` has nothing. */
  lemma {:induction false} GenericTypesAbsentExample(a: Ty, vecInfer: Ty, vecString: Ty, foo: Ty)
    ensures GetGenericTypesFromConditions("V", OrderingConds(a, vecInfer, vecString, foo)) == []
  {
    NoTypes("V", OrderingConds(a, vecInfer, vecString, foo));
  }

  /** A generic without type conditions has no types. */
  lemma {:induction false} NoTypes(g: string, conds: seq<C.WhenCondition>)
    requires forall i :: 0 <= i < |conds| ==> !(conds[i].Type? && conds[i].generic == g)
    ensures GetGenericTypesFromConditions(g, conds) == []
    decreases |conds|
  {
    if conds != [] {
      assert forall i :: 0 <= i < |conds| - 1 ==> conds[1..][i] == conds[i + 1];
      NoTypes(g, conds[1..]);
    }
  }


  lemma {:induction false} KeyA(a: Ty)
    requires a == Named("A")
    ensures Key(a) == 1
  {
    RenderNamed("A");
  }

  lemma {:induction false} KeyVecInfer(vecInfer: Ty)
    requires vecInfer == Path([Segment("Vec", Angle([TypeArg(Infer)]))])
    ensures Key(vecInfer) == 8
  {
    RenderVecInfer(vecInfer);
    var x, y, z := "Vec < ", "_", " >";
    assert x + y + z == "Vec < _ >";
    RemoveCharAppend(x + y, z, '_');
    RemoveCharAppend(x, y, '_');
    assert '_' !in x && '_' !in z;
    assert Strings.RemoveChar(y, '_') == [];
  }

  lemma {:induction false} RenderVecInfer(vecInfer: Ty)
    requires vecInfer == Path([Segment("Vec", Angle([TypeArg(Infer)]))])
    ensures Render(vecInfer) == "Vec < _ >"
  {
    RenderVec(Infer);
  }

  lemma {:induction false} KeyVecString(vecString: Ty)
    requires vecString == Path([Segment("Vec", Angle([TypeArg(Named("String"))]))])
    ensures Key(vecString) == 14
  {
    RenderVecString(vecString);
    assert '_' !in "Vec < String >";
  }

  lemma {:induction false} RenderVecString(vecString: Ty)
    requires vecString == Path([Segment("Vec", Angle([TypeArg(Named("String"))]))])
    ensures Render(vecString) == "Vec < String >"
  {
    RenderNamed("String");
    RenderVec(Named("String"));
  }

  lemma {:induction false} RenderVec(x: Ty)
    ensures Render(Path([Segment("Vec", Angle([TypeArg(x)]))])) == "Vec" + (" < " + Render(x) + " >")
  {
    var xs := RenderAngleJoin("Vec", [TypeArg(x)]);
    var ys := RenderPathJoin([Segment("Vec", Angle([TypeArg(x)]))]);
  }

  lemma {:induction false} RemoveCharAppend(a: string, b: string, c: char)
    ensures Strings.RemoveChar(a + b, c) == Strings.RemoveChar(a, c) + Strings.RemoveChar(b, c)
  {
    if a != [] {
      assert (a + b)[1..] == a[1..] + b;
      RemoveCharAppend(a[1..], b, c);
    } else {
      assert a + b == b;
    }
  }

  // ============================================================ get_assignable_conditions

  /** The `filter_map` arm: a trait condition is kept; a type condition is kept when its type
    * is the last (most specific) of the sorted types of its generic and equal to each of them;
    * `All`, `Any` and `Not` are dropped. The generics string the source passes to `types_equal`
    * stands here for the set of generic names it declares. */
  ghost predicate Assignable(c: C.WhenCondition, conds: seq<C.WhenCondition>, generics: set<string>) {
    match c
    case Trait(_, _) => true
    case Type(g, t) =>
      var types := GetGenericTypesFromConditions(g, conds);
      |types| > 0 && types[|types| - 1] == t &&
      forall i :: 0 <= i < |types| ==> T.TypesEqual(t, types[i], generics, [])
    case _ => false
  }

  /** The conditions of `cs` that survive against all of `conds`, in order. */
  ghost function Keep(cs: seq<C.WhenCondition>, conds: seq<C.WhenCondition>, generics: set<string>): (r: seq<C.WhenCondition>)
    ensures |r| <= |cs|
    ensures forall c :: c in r <==> c in cs && Assignable(c, conds, generics)
  {
    if cs == [] then []
    else
      var rest := Keep(cs[1..], conds, generics);
      assert forall c :: c in cs <==> c == cs[0] || c in cs[1..];
      (if Assignable(cs[0], conds, generics) then [cs[0]] else []) + rest
  }

  /** `get_assignable_conditions`. */
  ghost function GetAssignableConditions(conds: seq<C.WhenCondition>, generics: set<string>): (r: seq<C.WhenCondition>)
    ensures forall i :: 0 <= i < |r| ==> r[i].Trait? || r[i].Type?
    ensures forall c :: c in r ==> c in conds
  {
    var r := Keep(conds, conds, generics);
    assert forall i :: 0 <= i < |r| ==> r[i] in r;
    r
  }

  /** The kept conditions keep their input order: filtering works piece by piece. */
  lemma {:induction false} KeepAppend(a: seq<C.WhenCondition>, b: seq<C.WhenCondition>, conds: seq<C.WhenCondition>, generics: set<string>)
    ensures Keep(a + b, conds, generics) == Keep(a, conds, generics) + Keep(b, conds, generics)
  {
    if a == [] {
      assert a + b == b;
    } else {
      assert (a + b)[1..] == a[1..] + b;
      KeepAppend(a[1..], b, conds, generics);
    }
  }

  /** The trait conditions of a list, in order. */
  function Traits(cs: seq<C.WhenCondition>): (r: seq<C.WhenCondition>)
    ensures forall c :: c in r <==> c in cs && c.Trait?
  {
    if cs == [] then []
    else
      assert forall c :: c in cs <==> c == cs[0] || c in cs[1..];
      (if cs[0].Trait? then [cs[0]] else []) + Traits(cs[1..])
  }

  /** Every trait condition is kept, in its place among the other trait conditions. */
  lemma {:induction false} AssignableKeepsTraits(cs: seq<C.WhenCondition>, conds: seq<C.WhenCondition>, generics: set<string>)
    ensures Traits(Keep(cs, conds, generics)) == Traits(cs)
  {
    if cs != [] {
      AssignableKeepsTraits(cs[1..], conds, generics);
      var rest := Keep(cs[1..], conds, generics);
      if Assignable(cs[0], conds, generics) {
        assert ([cs[0]] + rest)[1..] == rest;
      } else {
        assert !cs[0].Trait?;
        assert Keep(cs, conds, generics) == rest;
        assert Traits(cs) == Traits(cs[1..]);
      }
    }
  }

  /** At most one type survives for each generic, and it is the most specific one, equal to all
    * the others. */
  lemma AssignableOnePerGeneric(conds: seq<C.WhenCondition>, generics: set<string>, g: string, t1: Ty, t2: Ty)
    requires C.Type(g, t1) in GetAssignableConditions(conds, generics)
    requires C.Type(g, t2) in GetAssignableConditions(conds, generics)
    ensures t1 == t2
    ensures forall u :: C.Type(g, u) in conds ==> Key(u) <= Key(t1) && T.TypesEqual(t1, u, generics, [])
  {
    var types := GetGenericTypesFromConditions(g, conds);
    GenericTypesCorrect(g, conds);
    assert Assignable(C.Type(g, t1), conds, generics);
    forall u | C.Type(g, u) in conds ensures Key(u) <= Key(t1) && T.TypesEqual(t1, u, generics, []) {
      assert u in types;
      var i :| 0 <= i < |types| && types[i] == u;
      assert i == |types| - 1 || Key(types[i]) <= Key(types[|types| - 1]);
    }
  }

  /** Two types of one generic of which neither equals the other: if they are its only types,
    * no type condition on it survives. */
  lemma AssignableConflict(conds: seq<C.WhenCondition>, generics: set<string>, g: string, a: Ty, b: Ty)
    requires C.Type(g, a) in conds && C.Type(g, b) in conds
    requires forall u :: C.Type(g, u) in conds ==> u == a || u == b
    requires !T.TypesEqual(a, b, generics, []) && !T.TypesEqual(b, a, generics, [])
    ensures forall t :: C.Type(g, t) !in GetAssignableConditions(conds, generics)
  {
    forall t | C.Type(g, t) in GetAssignableConditions(conds, generics) ensures false {
      AssignableOnePerGeneric(conds, generics, g, t, t);
    }
  }

  /** A generic whose type conditions all name the same type keeps that condition, when the
    * type equals itself. */
  lemma AssignableUniform(conds: seq<C.WhenCondition>, generics: set<string>, g: string, t: Ty)
    requires C.Type(g, t) in conds
    requires forall u :: C.Type(g, u) in conds ==> u == t
    requires T.TypesEqual(t, t, generics, [])
    ensures C.Type(g, t) in GetAssignableConditions(conds, generics)
  {
    var types := GetGenericTypesFromConditions(g, conds);
    GenericTypesCorrect(g, conds);
    assert t in types;
    assert forall i :: 0 <= i < |types| ==> types[i] == t by {
      forall i | 0 <= i < |types| ensures types[i] == t {
        assert types[i] in types;
      }
    }
    assert Assignable(C.Type(g, t), conds, generics);
  }

  // ============================================================ generic parameter lists

  /** `remove_generic`: every type parameter called `name` leaves the list; every other
    * parameter stays, in order. */
  function RemoveGeneric(gs: Generics, name: string): (r: Generics)
    ensures r.wherePreds == gs.wherePreds
    ensures forall p :: p in r.params <==> p in gs.params && !IsTypeParamNamed(p, name)
  {
    UtilsTraits.RemoveTypeParamMembers(gs.params, name);
    gs.(params := UtilsTraits.RemoveTypeParam(gs.params, name))
  }

  /** `add_generic_type`: one type parameter without bounds, pushed at the end. */
  function AddGenericType(gs: Generics, name: string): (r: Generics)
    ensures r.wherePreds == gs.wherePreds
    ensures |r.params| == |gs.params| + 1 && r.params[..|gs.params|] == gs.params
    ensures IsTypeParamNamed(r.params[|gs.params|], name) && r.params[|gs.params|].bounds == []
  {
    gs.(params := gs.params + [TypeParam(name, [])])
  }

  /** `collect_generics_types`: the names of the type parameters, in order. */
  function CollectGenericsTypes(gs: Generics): (r: seq<string>)
    ensures forall n :: n in r <==> exists i :: 0 <= i < |gs.params| && IsTypeParamNamed(gs.params[i], n)
  {
    TypeParamNames(gs.params)
  }

  /** The names of the lifetime parameters, in order. */
  function LifetimeNames(ps: seq<GenericParam>): (r: seq<string>)
    ensures |r| <= |ps|
    ensures forall n :: n in r <==> exists i :: 0 <= i < |ps| && IsLifetimeParamNamed(ps[i], n)
  {
    if ps == [] then []
    else
      var rest := LifetimeNames(ps[1..]);
      assert forall i :: 1 <= i < |ps| ==> ps[i] == ps[1..][i - 1];
      (if ps[0].LifetimeParam? then [ps[0].name] else []) + rest
  }

  /** `collect_generics_lifetimes`. */
  function CollectGenericsLifetimes(gs: Generics): (r: seq<string>)
    ensures forall n :: n in r <==> exists i :: 0 <= i < |gs.params| && IsLifetimeParamNamed(gs.params[i], n)
  {
    LifetimeNames(gs.params)
  }

  /** The names of a list without `name`, in order. */
  function Without(names: seq<string>, name: string): (r: seq<string>)
    ensures forall n :: n in r <==> n in names && n != name
  {
    if names == [] then []
    else
      assert forall n :: n in names <==> n in names[..|names| - 1] || n == names[|names| - 1] by {
        assert names == names[..|names| - 1] + [names[|names| - 1]];
      }
      Without(names[..|names| - 1], name) + (if names[|names| - 1] == name then [] else [names[|names| - 1]])
  }

  lemma {:induction false} WithoutAppend(a: seq<string>, b: seq<string>, name: string)
    ensures Without(a + b, name) == Without(a, name) + Without(b, name)
    decreases |b|
  {
    if b == [] {
      assert a + b == a;
    } else {
      var b', x := b[..|b| - 1], b[|b| - 1];
      assert (a + b)[..|a + b| - 1] == a + b' && (a + b)[|a + b| - 1] == x;
      WithoutAppend(a, b', name);
    }
  }

  lemma {:induction false} TypeParamNamesAppend(a: seq<GenericParam>, b: seq<GenericParam>)
    ensures TypeParamNames(a + b) == TypeParamNames(a) + TypeParamNames(b)
  {
    if a == [] {
      assert a + b == b;
    } else {
      var h := if a[0].TypeParam? then [a[0].name] else [];
      var ab := a + b;
      assert ab[0] == a[0] && ab[1..] == a[1..] + b;
      assert TypeParamNames(ab) == h + TypeParamNames(a[1..] + b);
      TypeParamNamesAppend(a[1..], b);
    }
  }

  lemma {:induction false} LifetimeNamesAppend(a: seq<GenericParam>, b: seq<GenericParam>)
    ensures LifetimeNames(a + b) == LifetimeNames(a) + LifetimeNames(b)
  {
    if a == [] {
      assert a + b == b;
    } else {
      var h := if a[0].LifetimeParam? then [a[0].name] else [];
      var ab := a + b;
      assert ab[0] == a[0] && ab[1..] == a[1..] + b;
      assert LifetimeNames(ab) == h + LifetimeNames(a[1..] + b);
      LifetimeNamesAppend(a[1..], b);
    }
  }

  /** Removing a generic removes exactly its name from the collected type names, and leaves the
    * lifetimes alone. */
  lemma {:induction false} CollectAfterRemove(gs: Generics, name: string)
    ensures CollectGenericsTypes(RemoveGeneric(gs, name)) == Without(CollectGenericsTypes(gs), name)
    ensures CollectGenericsLifetimes(RemoveGeneric(gs, name)) == CollectGenericsLifetimes(gs)
    decreases |gs.params|
  {
    var ps := gs.params;
    if ps != [] {
      var init, last := ps[..|ps| - 1], ps[|ps| - 1];
      var tail := if IsTypeParamNamed(last, name) then [] else [last];
      assert ps == init + [last];
      CollectAfterRemove(gs.(params := init), name);
      var ri := UtilsTraits.RemoveTypeParam(init, name);
      assert UtilsTraits.RemoveTypeParam(ps, name) == ri + tail;
      TypeParamNamesAppend(ri, tail);
      TypeParamNamesAppend(init, [last]);
      LifetimeNamesAppend(ri, tail);
      LifetimeNamesAppend(init, [last]);
      WithoutAppend(TypeParamNames(init), TypeParamNames([last]), name);
    }
  }

  /** Adding a generic appends its name to the collected type names; removing it again gives
    * the list with that name removed. */
  lemma CollectAfterAdd(gs: Generics, name: string)
    ensures CollectGenericsTypes(AddGenericType(gs, name)) == CollectGenericsTypes(gs) + [name]
    ensures CollectGenericsLifetimes(AddGenericType(gs, name)) == CollectGenericsLifetimes(gs)
    ensures RemoveGeneric(AddGenericType(gs, name), name) == RemoveGeneric(gs, name)
  {
    var p := TypeParam(name, []);
    TypeParamNamesAppend(gs.params, [p]);
    LifetimeNamesAppend(gs.params, [p]);
    assert (gs.params + [p])[..|gs.params|] == gs.params;
  }

  /** The collect/add/remove test: `<T, U: Trait>` gives `[T, U]`; without `T`, `[U]`; with `V`
    * added, `[U, V]`. */
  lemma CollectAddRemoveExample(t: GenericParam, u: GenericParam)
    requires t == TypeParam("T", []) && u == TypeParam("U", [TraitBound("Trait")])
    ensures var gs := Generics([t, u], []);
            CollectGenericsTypes(gs) == ["T", "U"] &&
            CollectGenericsTypes(RemoveGeneric(gs, "T")) == ["U"] &&
            CollectGenericsTypes(AddGenericType(RemoveGeneric(gs, "T"), "V")) == ["U", "V"]
  {
    var gs := Generics([t, u], []);
    TypeParamNamesAppend([t], [u]);
    assert [t] + [u] == [t, u];
    assert UtilsTraits.RemoveTypeParam([t], "T") == [] by {
      assert [t][..0] == [];
    }
    assert UtilsTraits.RemoveTypeParam([t, u], "T") == [u] by {
      assert [t, u][..1] == [t];
    }
    var v := TypeParam("V", []);
    TypeParamNamesAppend([u], [v]);
    assert [u] + [v] == [u, v];
  }

  // ============================================================ apply_type_condition

  /** What `apply_type_condition` reads from and writes to its target: the generic the target's
    * own list uses for the impl generic (`resolve_item_generic`, computed by the target and given
    * here as a value) and the types its items hold (`handle_items_replace` visits them). */
  datatype Target = Target(itemGeneric: Option<string>, types: seq<Ty>)

  /** The names `replace_infers` gives the `n` wildcards, starting from the type parameter names
    * of `generics` and counter 0: fresh, distinct, and `__G_0__`, `__G_1__`, … when none of
    * those is declared. */
  ghost predicate WildcardNames(generics: Generics, n: nat, names: seq<string>) {
    exists s1: Namer :: Extends(T.G, Namer(TypeParamSet(generics), 0, []), s1, n) && s1.newGenerics == names
  }

  function TypeParamSet(gs: Generics): (r: set<string>)
    ensures forall n :: n in r <==> n in CollectGenericsTypes(gs)
  {
    set n | n in CollectGenericsTypes(gs)
  }

  /** The `TypeReplacer` on every type of the target: `replace_type` at the top, then the visit of
    * the children, which finds nothing more to replace when the new type does not mention the
    * generic. */
  function ReplaceAll(types: seq<Ty>, g: string, repl: Ty): (r: seq<Ty>)
    ensures |r| == |types|
    ensures !T.Mentions(repl, g) ==> forall i :: 0 <= i < |r| ==> !T.Mentions(r[i], g)
    ensures forall i :: 0 <= i < |types| && !T.Mentions(types[i], g) ==> r[i] == types[i]
  {
    seq(|types|, i requires 0 <= i < |types| => T.ReplaceType(types[i], g, repl))
  }

  /** `apply_type_condition(target, generics, other_generics, impl_generic, type_)`: the
    * wildcards of the type get fresh names, which are pushed onto both lists; the target's
    * generic leaves `generics` and `impl_generic` leaves `other_generics`; every mention of the
    * target's generic in the items becomes the new type, which is returned. */
  method ApplyTypeCondition(target: Target, generics: Generics, otherGenerics: Generics, implGeneric: string, ty: Ty)
    returns (target': Target, generics': Generics, otherGenerics': Generics, newType: Ty, ghost names: seq<string>)
    ensures WildcardNames(generics, InferCount(ty), names)
    ensures |names| == InferCount(ty) && newType == FillInfers(ty, names)
    ensures var ig := target.itemGeneric.UnwrapOr(implGeneric);
            generics' == RemoveGeneric(generics.(params := generics.params + UtilsTraits.Unbounded(names)), ig) &&
            otherGenerics' == RemoveGeneric(otherGenerics.(params := otherGenerics.params + UtilsTraits.Unbounded(names)), implGeneric) &&
            target' == target.(types := ReplaceAll(target.types, ig, newType))
  {
    var itemGeneric := target.itemGeneric.UnwrapOr(implGeneric);
    var start := Namer(TypeParamSet(generics), 0, []);
    var s1;
    newType, s1 := T.ReplaceInfers(ty, start);
    assert Added(start, s1) == s1.newGenerics;
    names := s1.newGenerics;
    generics', otherGenerics' := AddGenerics(generics, otherGenerics, s1.newGenerics);
    generics' := RemoveGeneric(generics', itemGeneric);
    otherGenerics' := RemoveGeneric(otherGenerics', implGeneric);
    target' := target.(types := ReplaceAll(target.types, itemGeneric, newType));
  }

  /** The `for generic in new_generics` loop: each name is pushed, unbounded, onto both lists. */
  method AddGenerics(generics: Generics, otherGenerics: Generics, names: seq<string>)
    returns (generics': Generics, otherGenerics': Generics)
    ensures generics' == generics.(params := generics.params + UtilsTraits.Unbounded(names))
    ensures otherGenerics' == otherGenerics.(params := otherGenerics.params + UtilsTraits.Unbounded(names))
  {
    generics', otherGenerics' := generics, otherGenerics;
    for i := 0 to |names|
      invariant generics' == generics.(params := generics.params + UtilsTraits.Unbounded(names[..i]))
      invariant otherGenerics' == otherGenerics.(params := otherGenerics.params + UtilsTraits.Unbounded(names[..i]))
    {
      UnboundedSnoc(names, i);
      generics' := AddGenericType(generics', names[i]);
      otherGenerics' := AddGenericType(otherGenerics', names[i]);
    }
    assert names[..|names|] == names;
  }

  lemma UnboundedSnoc(names: seq<string>, i: nat)
    requires i < |names|
    ensures UtilsTraits.Unbounded(names[..i + 1]) == UtilsTraits.Unbounded(names[..i]) + [TypeParam(names[i], [])]
  {
  }

  /** After the condition is applied, the replaced generic is gone from `generics`, every
    * wildcard name is declared in its place, and the other type parameters are kept in order;
    * when the generic was declared and the condition's type does not mention it, no item
    * mentions it any more. */
  lemma ApplyTypeConditionEffect(generics: Generics, ig: string, ty: Ty, names: seq<string>, types: seq<Ty>)
    requires WildcardNames(generics, InferCount(ty), names) && |names| == InferCount(ty)
    requires ig in CollectGenericsTypes(generics)
    ensures var gs' := RemoveGeneric(generics.(params := generics.params + UtilsTraits.Unbounded(names)), ig);
            CollectGenericsTypes(gs') == Without(CollectGenericsTypes(generics), ig) + names
    ensures !T.Mentions(ty, ig) ==> forall i :: 0 <= i < |types| ==> !T.Mentions(ReplaceAll(types, ig, FillInfers(ty, names))[i], ig)
  {
    var s1: Namer :| Extends(T.G, Namer(TypeParamSet(generics), 0, []), s1, InferCount(ty)) && s1.newGenerics == names;
    assert Added(Namer(TypeParamSet(generics), 0, []), s1) == names;
    assert ig !in names by {
      assert forall i :: 0 <= i < |names| ==> names[i] !in TypeParamSet(generics);
    }
    var ps := generics.params + UtilsTraits.Unbounded(names);
    CollectAfterRemove(generics.(params := ps), ig);
    TypeParamNamesAppend(generics.params, UtilsTraits.Unbounded(names));
    UnboundedNames(names);
    WithoutAppend(TypeParamNames(generics.params), names, ig);
    WithoutAbsent(names, ig);
    if !T.Mentions(ty, ig) {
      FillMentions(ty, names, ig);
    }
  }

  lemma {:induction false} UnboundedNames(names: seq<string>)
    ensures TypeParamNames(UtilsTraits.Unbounded(names)) == names
    decreases |names|
  {
    if names != [] {
      assert UtilsTraits.Unbounded(names)[1..] == UtilsTraits.Unbounded(names[1..]);
      UnboundedNames(names[1..]);
      assert [names[0]] + names[1..] == names;
    }
  }

  lemma {:induction false} WithoutAbsent(names: seq<string>, name: string)
    requires name !in names
    ensures Without(names, name) == names
    decreases |names|
  {
    if names != [] {
      var init := names[..|names| - 1];
      assert name !in init by {
        assert forall n :: n in init ==> n in names;
      }
      WithoutAbsent(init, name);
      assert init + [names[|names| - 1]] == names;
    }
  }

  // ------------------------------------------------------------ the filled type's mentions

  /** Filling in the wildcards only adds mentions of the names filled in. */
  lemma {:induction false} FillMentions(t: Ty, names: seq<string>, p: string)
    requires |names| == InferCount(t) && p !in names && !T.Mentions(t, p)
    ensures !T.Mentions(FillInfers(t, names), p)
    decreases t
  {
    match t
    case Tuple(es) => FillTysMentions(es, names, p);
    case Ref(_, _, e) => FillMentions(e, names, p);
    case Array(e, _) => FillMentions(e, names, p);
    case Slice(e) => FillMentions(e, names, p);
    case Paren(e) => FillMentions(e, names, p);
    case Path(segs) => FillPathMentions(segs, names, p);
    case Infer => assert names[0] in names;
    case Other(_) =>
  }

  lemma {:induction false} FillPathMentions(segs: seq<Segment>, names: seq<string>, p: string)
    requires |names| == InferCountSegs(segs) && p !in names && !T.Mentions(Path(segs), p)
    ensures !T.Mentions(Path(FillInfersSegs(segs, names)), p)
    decreases segs, 1
  {
    assert !(|segs| == 1 && segs[0].ident == p);
    assert forall i :: 0 <= i < |segs| ==> !T.SegmentMentions(segs[i], p);
    FillSegsMentions(segs, names, p);
    var segs' := FillInfersSegs(segs, names);
    assert !(|segs'| == 1 && segs'[0].ident == p);
    assert forall i :: 0 <= i < |segs'| ==> !T.SegmentMentions(segs'[i], p);
  }

  lemma {:induction false} FillTysMentions(es: seq<Ty>, names: seq<string>, p: string)
    requires |names| == InferCountTys(es) && p !in names
    requires forall i :: 0 <= i < |es| ==> !T.Mentions(es[i], p)
    ensures forall i :: 0 <= i < |es| ==> !T.Mentions(FillInfersTys(es, names)[i], p)
    decreases es
  {
    if es != [] {
      var init, last := es[..|es| - 1], es[|es| - 1];
      var k := InferCountTys(init);
      assert forall n :: n in names[..k] ==> n in names;
      assert forall n :: n in names[k..] ==> n in names;
      assert forall i :: 0 <= i < |init| ==> init[i] == es[i];
      FillTysMentions(init, names[..k], p);
      FillMentions(last, names[k..], p);
    }
  }

  lemma {:induction false} FillSegsMentions(segs: seq<Segment>, names: seq<string>, p: string)
    requires |names| == InferCountSegs(segs) && p !in names
    requires forall i :: 0 <= i < |segs| ==> !T.SegmentMentions(segs[i], p)
    ensures forall i :: 0 <= i < |segs| ==> !T.SegmentMentions(FillInfersSegs(segs, names)[i], p)
    ensures forall i :: 0 <= i < |segs| ==> FillInfersSegs(segs, names)[i].ident == segs[i].ident
    decreases segs, 0
  {
    if segs != [] {
      var init, last := segs[..|segs| - 1], segs[|segs| - 1];
      var k := InferCountSegs(init);
      assert forall n :: n in names[..k] ==> n in names;
      assert forall n :: n in names[k..] ==> n in names;
      assert forall i :: 0 <= i < |init| ==> init[i] == segs[i];
      FillSegsMentions(init, names[..k], p);
      FillSegMentions(last, names[k..], p);
    }
  }

  lemma {:induction false} FillSegMentions(s: Segment, names: seq<string>, p: string)
    requires |names| == InferCountSeg(s) && p !in names && !T.SegmentMentions(s, p)
    ensures !T.SegmentMentions(FillInfersSeg(s, names), p)
    decreases s
  {
    if s.args.Angle? {
      FillArgsMentions(s.args.args, names, p);
    }
  }

  lemma {:induction false} FillArgsMentions(args: seq<GenericArg>, names: seq<string>, p: string)
    requires |names| == InferCountArgs(args) && p !in names
    requires forall j :: 0 <= j < |args| ==> !T.ArgMentions(args[j], p)
    ensures forall j :: 0 <= j < |args| ==> !T.ArgMentions(FillInfersArgs(args, names)[j], p)
    decreases args
  {
    if args != [] {
      var init, last := args[..|args| - 1], args[|args| - 1];
      var k := InferCountArgs(init);
      assert forall n :: n in names[..k] ==> n in names;
      assert forall n :: n in names[k..] ==> n in names;
      assert forall j :: 0 <= j < |init| ==> init[j] == args[j];
      FillArgsMentions(init, names[..k], p);
      FillArgMentions(last, names[k..], p);
    }
  }

  lemma {:induction false} FillArgMentions(a: GenericArg, names: seq<string>, p: string)
    requires |names| == InferCountArg(a) && p !in names && !T.ArgMentions(a, p)
    ensures !T.ArgMentions(FillInfersArg(a, names), p)
    decreases a
  {
    if a.TypeArg? {
      FillMentions(a.ty, names, p);
    }
  }
}
