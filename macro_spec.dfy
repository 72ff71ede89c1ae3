/** Choosing the implementation a call is specialised to (`crates/spec-trait-macro/src/spec.rs`):
  * every `when` condition is checked against what the call site knows about its arguments,
  * collecting the constraints it places on each generic, and the candidate with the most
  * specific constraints wins. */
module MacroSpec {
  import opened Wrappers
  import Syntax
  import opened MacroConstraints
  import C = UtilsConditions

  /** What the call site knows about one argument: the generic it is declared with, the type it
    * was called with, the other names of that type and the traits the type implements. */
  datatype VarInfo = VarInfo(
    typeAliases: seq<string>,
    typeDefinition: string,
    concreteType: string,
    traits: seq<string>)

  /** The parts of an `ImplBody` the selection reads: the condition of the implementation
    * (`None` for the default one) and the name of the trait it implements. */
  datatype ImplBody = ImplBody(condition: Option<C.WhenCondition>, traitName: string)

  /** The part of a `TraitBody` the selection reads: its name. */
  datatype TraitBody = TraitBody(name: string)

  /** `SpecBody`: a candidate implementation with the constraints its condition placed. */
  datatype SpecBody = SpecBody(impl_: ImplBody, trait_: TraitBody, constraints: Constraints)

  /** `get_concrete_type` (the type a condition names, resolved through the aliases of the
    * arguments) is not part of this model: the checks take it as a parameter. */
  type ConcreteOf = (Syntax.Ty, seq<VarInfo>) -> string

  /** The constraint recorded so far for a generic, or the empty one (`or_insert_with`). */
  function Entry(cs: Constraints, g: string): (c: Constraint)
    ensures g !in cs ==> c == Default()
    ensures g in cs ==> c == cs[g]
  {
    if g in cs then cs[g] else Default()
  }

  /** Whether `v` has every trait in `traits`. */
  predicate HasAll(v: VarInfo, traits: seq<string>) {
    forall i :: 0 <= i < |traits| ==> traits[i] in v.traits
  }

  /** Whether some trait of `a` is in `b`. */
  predicate Overlap(a: seq<string>, b: seq<string>) {
    exists i :: 0 <= i < |a| && a[i] in b
  }

  function DefinedAs(g: string): VarInfo -> bool {
    (v: VarInfo) => v.typeDefinition == g
  }

  function CalledWith(ty: string): VarInfo -> bool {
    (v: VarInfo) => v.concreteType == ty
  }

  function Implements(traits: seq<string>): VarInfo -> bool {
    (v: VarInfo) => HasAll(v, traits)
  }

  /** The first argument satisfying `p` exists and satisfies `q` (`find(p).is_some_and(q)`;
    * its negation is `find(p).is_none_or(!q)`). */
  predicate FirstHas(vars: seq<VarInfo>, p: VarInfo -> bool, q: VarInfo -> bool) {
    Find(vars, p).Some? && q(Find(vars, p).value)
  }

  // ------------------------------------------------------------------------ atoms

  /** A `Type` condition: the generic is recorded as having the concrete type. It holds when the
    * argument declared with the generic was called with exactly that type, the type is not
    * forbidden for the generic, and the argument called with that type has every trait already
    * required of the generic. */
  function TypeCheck(g: string, ty: string, vars: seq<VarInfo>, cs: Constraints): (r: (bool, Constraints))
    ensures r.1 == cs[g := Entry(cs, g).(type_ := Some(ty))]
    ensures r.0 <==>
      FirstHas(vars, DefinedAs(g), CalledWith(ty)) &&
      ty !in Entry(cs, g).notTypes &&
      FirstHas(vars, CalledWith(ty), Implements(Entry(cs, g).traits))
  {
    var c := Entry(cs, g).(type_ := Some(ty));
    var genericVar := Find(vars, DefinedAs(g));
    var typeVar := Find(vars, CalledWith(ty));
    var violates :=
      (genericVar.None? || ty != genericVar.value.concreteType) ||
      ty in c.notTypes ||
      (typeVar.None? || !HasAll(typeVar.value, c.traits));
    (!violates, cs[g := c])
  }

  /** A `Trait` condition: the traits are appended to the generic's required traits. It holds
    * when the argument declared with the generic has all of them, none of them is forbidden for
    * the generic, and a type already recorded for the generic is one an argument was called
    * with and the first such argument has all of them. */
  function TraitCheck(g: string, traits: seq<string>, vars: seq<VarInfo>, cs: Constraints): (r: (bool, Constraints))
    ensures r.1 == cs[g := Entry(cs, g).(traits := Entry(cs, g).traits + traits)]
    ensures r.0 <==>
      FirstHas(vars, DefinedAs(g), Implements(traits)) &&
      !Overlap(Entry(cs, g).notTraits, traits) &&
      (Entry(cs, g).type_.Some? ==> FirstHas(vars, CalledWith(Entry(cs, g).type_.value), Implements(traits)))
  {
    var c := Entry(cs, g).(traits := Entry(cs, g).traits + traits);
    var genericVar := Find(vars, DefinedAs(g));
    var typeAssigned := c.type_.Some? && (
      var typeVar := Find(vars, CalledWith(c.type_.value));
      typeVar.None? || !HasAll(typeVar.value, traits));
    var violates :=
      (genericVar.None? || !HasAll(genericVar.value, traits)) ||
      Overlap(c.notTraits, traits) ||
      typeAssigned;
    (!violates, cs[g := c])
  }

  // ------------------------------------------------------------------------ negation

  /** Whether some constraint forbids more than one type, which `reverse` cannot turn into a
    * single required type. */
  predicate Irreversible(cs: Constraints) {
    exists k :: k in cs && |cs[k].notTypes| > 1
  }

  /** Every constraint reversed (`into_iter().map(reverse).collect()`); it panics as soon as
    * one constraint cannot be reversed. */
  function ReverseAll(cs: Constraints): (r: Result<Constraints>)
    ensures r.Err? <==> Irreversible(cs)
    ensures r.Ok? ==> r.value.Keys == cs.Keys
    ensures r.Ok? ==> forall k :: k in cs ==> Reverse(cs[k]) == Ok(r.value[k])
  {
    if Irreversible(cs) then Err("can't reverse with multiple not_types")
    else Ok(map k | k in cs :: Reverse(cs[k]).value)
  }

  // ------------------------------------------------------------------------ conditions

  /** `satisfies_condition` as a specification: whether the condition holds and the
    * constraints it leaves, or the panic of a `reverse`. */
  ghost function Satisfies(cond: C.WhenCondition, vars: seq<VarInfo>, cs: Constraints, concrete: ConcreteOf): Result<(bool, Constraints)>
    decreases cond
  {
    match cond
    case Type(g, ty) => Ok(TypeCheck(g, concrete(ty, vars), vars, cs))
    case Trait(g, traits) => Ok(TraitCheck(g, traits, vars, cs))
    case All(conds) => SatisfiesAll(conds, vars, cs, concrete)
    case Any(conds) => SatisfiesAny(conds, vars, cs, concrete)
    case Not(inner) =>
      match Satisfies(inner, vars, cs, concrete)
      case Err(m) => Err(m)
      case Ok((b, nc)) =>
        match ReverseAll(nc)
        case Err(m) => Err(m)
        case Ok(rc) => Ok((!b, rc))
  }

  /** `All`: the conditions in order, each starting from the constraints the previous one left;
    * the first that fails ends the check with the constraints it left. */
  ghost function SatisfiesAll(conds: seq<C.WhenCondition>, vars: seq<VarInfo>, cs: Constraints, concrete: ConcreteOf): Result<(bool, Constraints)>
    decreases conds
  {
    if conds == [] then Ok((true, cs))
    else
      match Satisfies(conds[0], vars, cs, concrete)
      case Err(m) => Err(m)
      case Ok((b, nc)) => if !b then Ok((false, nc)) else SatisfiesAll(conds[1..], vars, nc, concrete)
  }

  /** `Any`: every condition checked from the incoming constraints, left to right; it holds if
    * one does, and keeps the constraints of a satisfied condition whenever they compare greater
    * than those kept so far. */
  ghost function SatisfiesAny(conds: seq<C.WhenCondition>, vars: seq<VarInfo>, cs: Constraints, concrete: ConcreteOf): Result<(bool, Constraints)>
    decreases conds
  {
    if conds == [] then Ok((false, cs))
    else
      match SatisfiesAny(conds[..|conds| - 1], vars, cs, concrete)
      case Err(m) => Err(m)
      case Ok((s, kept)) =>
        match Satisfies(conds[|conds| - 1], vars, cs, concrete)
        case Err(m) => Err(m)
        case Ok((b, nc)) => Ok((s || b, if b && CmpConstraintsSpec(nc, kept) == Greater then nc else kept))
  }

  /** `satisfies_condition`. The caller's constraints are a value: every branch works on its
    * own copy. */
  method SatisfiesCondition(cond: C.WhenCondition, vars: seq<VarInfo>, cs: Constraints, concrete: ConcreteOf)
    returns (r: Result<(bool, Constraints)>)
    ensures r == Satisfies(cond, vars, cs, concrete)
    decreases cond
  {
    match cond {
      case Type(g, ty) =>
        r := Ok(TypeCheck(g, concrete(ty, vars), vars, cs));
      case Trait(g, traits) =>
        r := Ok(TraitCheck(g, traits, vars, cs));
      case All(conds) =>
        r := CheckAll(cond, conds, vars, cs, concrete);
      case Any(conds) =>
        r := CheckAny(cond, conds, vars, cs, concrete);
      case Not(inner) =>
        var x := SatisfiesCondition(inner, vars, cs, concrete);
        if x.Err? {
          return Err(x.msg);
        }
        var rc := ReverseConstraints(x.value.1);
        if rc.Err? {
          return Err(rc.msg);
        }
        r := Ok((!x.value.0, rc.value));
    }
  }

  /** The `all` loop: stops at the first condition that fails. */
  method CheckAll(cond: C.WhenCondition, conds: seq<C.WhenCondition>, vars: seq<VarInfo>, cs: Constraints, concrete: ConcreteOf)
    returns (r: Result<(bool, Constraints)>)
    requires cond == C.All(conds)
    ensures r == SatisfiesAll(conds, vars, cs, concrete)
    decreases cond, 0
  {
    var current := cs;
    var i := 0;
    while i < |conds|
      invariant 0 <= i <= |conds|
      invariant SatisfiesAll(conds, vars, cs, concrete) == SatisfiesAll(conds[i..], vars, current, concrete)
    {
      assert conds[i..][0] == conds[i] && conds[i..][1..] == conds[i + 1..];
      var x := SatisfiesCondition(conds[i], vars, current, concrete);
      if x.Err? {
        return Err(x.msg);
      }
      current := x.value.1;
      if !x.value.0 {
        return Ok((false, current));
      }
      i := i + 1;
    }
    r := Ok((true, current));
  }

  /** The `any` loop: every branch from the incoming constraints. */
  method CheckAny(cond: C.WhenCondition, conds: seq<C.WhenCondition>, vars: seq<VarInfo>, cs: Constraints, concrete: ConcreteOf)
    returns (r: Result<(bool, Constraints)>)
    requires cond == C.Any(conds)
    ensures r == SatisfiesAny(conds, vars, cs, concrete)
    decreases cond, 0
  {
    var satisfied := false;
    var kept := cs;
    var i := 0;
    while i < |conds|
      invariant 0 <= i <= |conds|
      invariant SatisfiesAny(conds[..i], vars, cs, concrete) == Ok((satisfied, kept))
    {
      assert conds[..i + 1][..i] == conds[..i];
      var x := SatisfiesCondition(conds[i], vars, cs, concrete);
      if x.Err? {
        AnyErrorSticks(conds, vars, cs, concrete, i + 1);
        return Err(x.msg);
      }
      var (b, nc) := x.value;
      satisfied := satisfied || b;
      if b {
        var o := CmpConstraints(nc, kept);
        if o == Greater {
          kept := nc;
        }
      }
      i := i + 1;
    }
    assert conds[..i] == conds;
    r := Ok((satisfied, kept));
  }

  /** A panic in a branch of `any` is the panic of the whole check. */
  lemma {:induction false} AnyErrorSticks(conds: seq<C.WhenCondition>, vars: seq<VarInfo>, cs: Constraints, concrete: ConcreteOf, n: nat)
    requires 0 < n <= |conds| && SatisfiesAny(conds[..n], vars, cs, concrete).Err?
    ensures SatisfiesAny(conds, vars, cs, concrete) == SatisfiesAny(conds[..n], vars, cs, concrete)
    decreases |conds| - n
  {
    if n < |conds| {
      assert conds[..n + 1][..n] == conds[..n];
      AnyErrorSticks(conds, vars, cs, concrete, n + 1);
    } else {
      assert conds[..n] == conds;
    }
  }

  /** The reversal of every constraint, one generic at a time. */
  method ReverseConstraints(cs: Constraints) returns (r: Result<Constraints>)
    ensures r == ReverseAll(cs)
  {
    var keys := cs.Keys;
    var out: Constraints := map[];
    while keys != {}
      invariant keys <= cs.Keys
      invariant out.Keys == cs.Keys - keys
      invariant forall k :: k in out ==> Reverse(cs[k]) == Ok(out[k])
      decreases |keys|
    {
      var k :| k in keys;
      var rev := Reverse(cs[k]);
      if rev.Err? {
        assert k in cs && |cs[k].notTypes| > 1;
        return Err("can't reverse with multiple not_types");
      }
      out := out[k := rev.value];
      keys := keys - {k};
    }
    assert !Irreversible(cs) by {
      forall k | k in cs
        ensures |cs[k].notTypes| <= 1
      {
        assert Reverse(cs[k]).Ok?;
      }
    }
    assert out == map k | k in cs :: Reverse(cs[k]).value;
    r := Ok(out);
  }

  // ------------------------------------------------------------------------ properties

  /** Checking an atom again from the constraints it left gives the same answer: recording the
    * same type or the same traits a second time changes nothing the check looks at. */
  lemma AtomAgain(a: C.WhenCondition, vars: seq<VarInfo>, cs: Constraints, concrete: ConcreteOf)
    requires a.Type? || a.Trait?
    ensures Satisfies(a, vars, Satisfies(a, vars, cs, concrete).value.1, concrete).value.0 ==
            Satisfies(a, vars, cs, concrete).value.0
  {
    var cs1 := Satisfies(a, vars, cs, concrete).value.1;
    assert Entry(cs1, a.generic).notTypes == Entry(cs, a.generic).notTypes;
    assert Entry(cs1, a.generic).notTraits == Entry(cs, a.generic).notTraits;
    if a.Type? {
      assert Entry(cs1, a.generic).traits == Entry(cs, a.generic).traits;
    } else {
      assert Entry(cs1, a.generic).type_ == Entry(cs, a.generic).type_;
    }
  }

  /** A condition together with its own negation never holds: `all(T = X, not(T = X))` and
    * `all(T: X, not(T: X))` fail. */
  lemma AtomAndNotFails(a: C.WhenCondition, vars: seq<VarInfo>, cs: Constraints, concrete: ConcreteOf)
    requires a.Type? || a.Trait?
    requires !Irreversible(cs)
    ensures Satisfies(C.All([a, C.Not(a)]), vars, cs, concrete).Ok?
    ensures !Satisfies(C.All([a, C.Not(a)]), vars, cs, concrete).value.0
  {
    var conds := [a, C.Not(a)];
    var (b, cs1) := Satisfies(a, vars, cs, concrete).value;
    assert conds[0] == a && conds[1..] == [C.Not(a)];
    if b {
      AtomAgain(a, vars, cs, concrete);
      var cs2 := Satisfies(a, vars, cs1, concrete).value.1;
      RecordedAgainReversible(a, vars, cs, concrete);
      var rc := ReverseAll(cs2).value;
      assert Satisfies(C.Not(a), vars, cs1, concrete) == Ok((false, rc));
      assert [C.Not(a)][0] == C.Not(a) && [C.Not(a)][1..] == [];
      assert SatisfiesAll([C.Not(a)], vars, cs1, concrete) == Ok((false, rc));
    }
  }

  /** An atom checked twice leaves the forbidden types as they were. */
  lemma RecordedAgainReversible(a: C.WhenCondition, vars: seq<VarInfo>, cs: Constraints, concrete: ConcreteOf)
    requires a.Type? || a.Trait?
    requires !Irreversible(cs)
    ensures !Irreversible(Satisfies(a, vars, Satisfies(a, vars, cs, concrete).value.1, concrete).value.1)
  {
    var g := a.generic;
    var cs1 := Satisfies(a, vars, cs, concrete).value.1;
    var cs2 := Satisfies(a, vars, cs1, concrete).value.1;
    assert |Entry(cs, g).notTypes| <= 1;
    forall k | k in cs2
      ensures |cs2[k].notTypes| <= 1
    {
      if k != g {
        assert cs2[k] == cs[k];
      }
    }
  }

  /** The conditions of an `All` can be checked in two runs: the second starts from what the
    * first left, and runs only if the first held. */
  lemma {:induction false} AllAppend(a: seq<C.WhenCondition>, b: seq<C.WhenCondition>, vars: seq<VarInfo>, cs: Constraints, concrete: ConcreteOf)
    ensures SatisfiesAll(a + b, vars, cs, concrete) ==
      match SatisfiesAll(a, vars, cs, concrete)
      case Err(m) => Err(m)
      case Ok((held, nc)) => if held then SatisfiesAll(b, vars, nc, concrete) else Ok((false, nc))
    decreases a
  {
    if a == [] {
      assert a + b == b;
    } else {
      assert (a + b)[0] == a[0] && (a + b)[1..] == a[1..] + b;
      match Satisfies(a[0], vars, cs, concrete)
      case Err(_) =>
      case Ok((held, nc)) =>
        if held {
          AllAppend(a[1..], b, vars, nc, concrete);
        }
    }
  }

  /** An `All` whose first `k` conditions held goes on with condition `k` from the
    * constraints they left. */
  lemma AllStep(conds: seq<C.WhenCondition>, vars: seq<VarInfo>, cs: Constraints, concrete: ConcreteOf, k: nat)
    requires k < |conds|
    requires SatisfiesAll(conds[..k], vars, cs, concrete).Ok? && SatisfiesAll(conds[..k], vars, cs, concrete).value.0
    ensures SatisfiesAll(conds[..k + 1], vars, cs, concrete) ==
            Satisfies(conds[k], vars, SatisfiesAll(conds[..k], vars, cs, concrete).value.1, concrete)
  {
    assert conds[..k + 1] == conds[..k] + [conds[k]];
    AllAppend(conds[..k], [conds[k]], vars, cs, concrete);
    assert [conds[k]][0] == conds[k] && [conds[k]][1..] == [];
  }

  /** `Any` panics exactly when a branch panics. */
  lemma {:induction false} AnyOk(conds: seq<C.WhenCondition>, vars: seq<VarInfo>, cs: Constraints, concrete: ConcreteOf)
    ensures SatisfiesAny(conds, vars, cs, concrete).Ok? <==>
      forall k :: 0 <= k < |conds| ==> Satisfies(conds[k], vars, cs, concrete).Ok?
    decreases |conds|
  {
    if conds != [] {
      var init := conds[..|conds| - 1];
      AnyOk(init, vars, cs, concrete);
      assert forall k :: 0 <= k < |init| ==> init[k] == conds[k];
    }
  }

  /** `Any` holds exactly when some branch holds, and keeps either the incoming constraints or
    * those of a branch that holds. */
  lemma {:induction false} AnyHolds(conds: seq<C.WhenCondition>, vars: seq<VarInfo>, cs: Constraints, concrete: ConcreteOf)
    requires SatisfiesAny(conds, vars, cs, concrete).Ok?
    ensures var (s, kept) := SatisfiesAny(conds, vars, cs, concrete).value;
      (s <==> exists k :: 0 <= k < |conds| && Holds(conds[k], vars, cs, concrete)) &&
      (kept == cs || exists k :: 0 <= k < |conds| && Holds(conds[k], vars, cs, concrete) &&
                                 kept == Satisfies(conds[k], vars, cs, concrete).value.1)
    decreases |conds|
  {
    if conds != [] {
      var init := conds[..|conds| - 1];
      AnyHolds(init, vars, cs, concrete);
      assert forall k :: 0 <= k < |init| ==> init[k] == conds[k];
    }
  }

  /** The condition is checked without panicking and holds. */
  ghost predicate Holds(c: C.WhenCondition, vars: seq<VarInfo>, cs: Constraints, concrete: ConcreteOf) {
    Satisfies(c, vars, cs, concrete).Ok? && Satisfies(c, vars, cs, concrete).value.0
  }

  /** `Not` flips the answer and reverses the constraint of every generic the inner condition
    * left. */
  lemma NotFlips(x: C.WhenCondition, vars: seq<VarInfo>, cs: Constraints, concrete: ConcreteOf)
    requires Satisfies(C.Not(x), vars, cs, concrete).Ok?
    ensures var (b, nc) := Satisfies(x, vars, cs, concrete).value;
      var (nb, rc) := Satisfies(C.Not(x), vars, cs, concrete).value;
      nb == !b && rc.Keys == nc.Keys && forall k :: k in nc ==> Reverse(nc[k]) == Ok(rc[k])
  {
  }

  /** Negating twice gives back the answer and the constraints of the condition, unless one of
    * its constraints forbids more than one type. */
  lemma NotNot(x: C.WhenCondition, vars: seq<VarInfo>, cs: Constraints, concrete: ConcreteOf)
    requires Satisfies(x, vars, cs, concrete).Ok? && !Irreversible(Satisfies(x, vars, cs, concrete).value.1)
    ensures Satisfies(C.Not(C.Not(x)), vars, cs, concrete) == Satisfies(x, vars, cs, concrete)
  {
    var nc := Satisfies(x, vars, cs, concrete).value.1;
    var rc := ReverseAll(nc).value;
    assert !Irreversible(rc) by {
      forall k | k in rc
        ensures |rc[k].notTypes| <= 1
      {
        assert Reverse(nc[k]) == Ok(rc[k]);
      }
    }
    var rrc := ReverseAll(rc).value;
    forall k | k in nc
      ensures rrc[k] == nc[k]
    {
      ReverseInvolution(nc[k]);
    }
    assert rrc == nc;
  }

  /** The first test: with one argument of generic `g` called with type `ct` implementing the
    * traits, `all(g = X, g = Y, g: traits)` holds when `X` and `Y` both name `ct`, and records
    * the type and the traits. */
  lemma AllExample(g: string, x: Syntax.Ty, y: Syntax.Ty, ct: string, aliases: seq<string>,
                   traits: seq<string>, concrete: ConcreteOf)
    requires concrete(x, [VarInfo(aliases, g, ct, traits)]) == ct
    requires concrete(y, [VarInfo(aliases, g, ct, traits)]) == ct
    ensures Satisfies(C.All([C.Type(g, x), C.Type(g, y), C.Trait(g, traits)]), [VarInfo(aliases, g, ct, traits)], map[], concrete)
      == Ok((true, map[g := Constraint(Some(ct), traits, [], [])]))
  {
    var v := VarInfo(aliases, g, ct, traits);
    var vars := [v];
    var conds := [C.Type(g, x), C.Type(g, y), C.Trait(g, traits)];
    assert Find(vars, DefinedAs(g)) == Some(v) && Find(vars, CalledWith(ct)) == Some(v);
    var cs1 := map[g := Constraint(Some(ct), [], [], [])];
    assert Satisfies(conds[0], vars, map[], concrete) == Ok((true, cs1));
    assert Satisfies(conds[1], vars, cs1, concrete) == Ok((true, cs1)) by {
      assert Entry(cs1, g) == Constraint(Some(ct), [], [], []);
      assert cs1[g := Entry(cs1, g).(type_ := Some(ct))] == cs1;
      assert HasAll(v, []);
    }
    var cs2 := map[g := Constraint(Some(ct), traits, [], [])];
    assert Satisfies(conds[2], vars, cs1, concrete) == Ok((true, cs2)) by {
      assert Entry(cs1, g).traits + traits == traits;
      assert cs1[g := Entry(cs1, g).(traits := traits)] == cs2;
      assert HasAll(v, traits) && !Overlap([], traits);
    }
    assert [conds[2]][0] == conds[2] && [conds[2]][1..] == [];
    assert SatisfiesAll([conds[2]], vars, cs1, concrete) == Ok((true, cs2));
    assert conds[1..][0] == conds[1] && conds[1..][1..] == [conds[2]];
    assert SatisfiesAll(conds[1..], vars, cs1, concrete) == Ok((true, cs2));
  }

  // ------------------------------------------------------------------------ selection

  function Named(name: string): TraitBody -> bool {
    (t: TraitBody) => t.name == name
  }

  /** The candidate an implementation gives, if any: its trait must be known; an
    * implementation without a condition is always a candidate, with no constraints, and one
    * with a condition is a candidate when the condition holds from no constraints. */
  ghost function CandidateOf(impl_: ImplBody, traits: seq<TraitBody>, varsFor: TraitBody -> seq<VarInfo>, concrete: ConcreteOf): Result<Option<SpecBody>>
  {
    match Find(traits, Named(impl_.traitName))
    case None => Err("Trait " + impl_.traitName + " not found")
    case Some(t) =>
      match impl_.condition
      case None => Ok(Some(SpecBody(impl_, t, map[])))
      case Some(cond) =>
        match Satisfies(cond, varsFor(t), map[], concrete)
        case Err(m) => Err(m)
        case Ok((held, cs)) => Ok(if held then Some(SpecBody(impl_, t, cs)) else None)
  }

  /** The candidates of the implementations, in order (`filter_map`); the first panic is the
    * result. */
  ghost function Candidates(impls: seq<ImplBody>, traits: seq<TraitBody>, varsFor: TraitBody -> seq<VarInfo>, concrete: ConcreteOf): Result<seq<SpecBody>>
  {
    if impls == [] then Ok([])
    else
      match Candidates(impls[..|impls| - 1], traits, varsFor, concrete)
      case Err(m) => Err(m)
      case Ok(cands) =>
        match CandidateOf(impls[|impls| - 1], traits, varsFor, concrete)
        case Err(m) => Err(m)
        case Ok(c) => Ok(if c.Some? then cands + [c.value] else cands)
  }

  /** Stable insertion of `x` into a sorted run: it goes after every candidate that does not
    * compare greater than it. */
  ghost function Insert(sorted: seq<SpecBody>, x: SpecBody): (r: seq<SpecBody>)
    ensures multiset(r) == multiset(sorted) + multiset{x}
  {
    if sorted == [] then [x]
    else
      var last := sorted[|sorted| - 1];
      if CmpConstraintsSpec(x.constraints, last.constraints) == Less then
        var r := Insert(sorted[..|sorted| - 1], x) + [last];
        assert sorted == sorted[..|sorted| - 1] + [last];
        r
      else sorted + [x]
  }

  /** `sort_by(cmp_constraints)`, as a stable insertion sort. Rust's `sort_by` is specified only
    * for a total order; `cmp_constraints` is not transitive in general (unrelated types compare
    * `Equal`), so for such inputs this is one admissible order and not necessarily the one the
    * standard library's merge sort produces. Where the comparison is a total order the two
    * agree, both being stable sorts. */
  ghost function SortByConstraints(xs: seq<SpecBody>): (r: seq<SpecBody>)
    ensures multiset(r) == multiset(xs)
  {
    if xs == [] then []
    else
      var r := Insert(SortByConstraints(xs[..|xs| - 1]), xs[|xs| - 1]);
      assert xs == xs[..|xs| - 1] + [xs[|xs| - 1]];
      r
  }

  /** The most specific of sorted candidates: the last, unless there is none or it ties with
    * the one before it. */
  ghost function Pick(sorted: seq<SpecBody>): Result<SpecBody> {
    if sorted == [] then Err("No valid implementation found")
    else if |sorted| == 1 then Ok(sorted[0])
    else if CmpConstraintsSpec(sorted[|sorted| - 1].constraints, sorted[|sorted| - 2].constraints) == Equal then
      Err("Ambiguous implementation: multiple implementations are equally specific")
    else Ok(sorted[|sorted| - 1])
  }

  /** `get_most_specific_impl` as a specification. */
  ghost function MostSpecific(impls: seq<ImplBody>, traits: seq<TraitBody>, varsFor: TraitBody -> seq<VarInfo>, concrete: ConcreteOf): Result<SpecBody> {
    match Candidates(impls, traits, varsFor, concrete)
    case Err(m) => Err(m)
    case Ok(cands) => Pick(SortByConstraints(cands))
  }

  /** No neighbour in the sequence compares less than the one before it. */
  ghost predicate LocallySorted(xs: seq<SpecBody>) {
    forall i :: 0 < i < |xs| ==> CmpConstraintsSpec(xs[i].constraints, xs[i - 1].constraints) != Less
  }

  lemma {:induction false} InsertLast(sorted: seq<SpecBody>, x: SpecBody)
    ensures var r := Insert(sorted, x);
      r[|r| - 1] == x || (sorted != [] && r[|r| - 1] == sorted[|sorted| - 1])
  {
  }

  lemma SortedInit(xs: seq<SpecBody>)
    requires LocallySorted(xs) && xs != []
    ensures LocallySorted(xs[..|xs| - 1])
  {
    var init := xs[..|xs| - 1];
    assert forall i :: 0 <= i < |init| ==> init[i] == xs[i];
  }

  lemma SortedSnoc(xs: seq<SpecBody>, y: SpecBody)
    requires LocallySorted(xs)
    requires xs != [] ==> CmpConstraintsSpec(y.constraints, xs[|xs| - 1].constraints) != Less
    ensures LocallySorted(xs + [y])
  {
    var r := xs + [y];
    assert forall i :: 0 <= i < |xs| ==> r[i] == xs[i];
  }

  /** Insertion keeps a run locally sorted. `cmp_constraints` sums votes and is not transitive,
    * so only neighbours are compared; reversing the arguments reverses the answer. */
  lemma {:induction false} InsertSorted(sorted: seq<SpecBody>, x: SpecBody)
    requires LocallySorted(sorted)
    ensures LocallySorted(Insert(sorted, x))
    decreases |sorted|
  {
    if sorted != [] {
      var init := sorted[..|sorted| - 1];
      var last := sorted[|sorted| - 1];
      if CmpConstraintsSpec(x.constraints, last.constraints) == Less {
        SortedInit(sorted);
        InsertSorted(init, x);
        var front := Insert(init, x);
        InsertLast(init, x);
        if front[|front| - 1] == x {
          CmpConstraintsAntisymmetric(x.constraints, last.constraints);
        } else {
          assert init[|init| - 1] == sorted[|sorted| - 2];
        }
        SortedSnoc(front, last);
      } else {
        SortedSnoc(sorted, x);
      }
    }
  }

  /** The sorted candidates are locally sorted. */
  lemma {:induction false} SortSorted(xs: seq<SpecBody>)
    ensures LocallySorted(SortByConstraints(xs))
    decreases |xs|
  {
    if xs != [] {
      SortSorted(xs[..|xs| - 1]);
      InsertSorted(SortByConstraints(xs[..|xs| - 1]), xs[|xs| - 1]);
    }
  }

  /** What a candidate is: the implementation itself, with the first trait of its name, and
    * either no condition and no constraints, or a condition that holds from no constraints
    * and the constraints it records. An unknown trait is a panic. */
  lemma CandidateMeaning(impl_: ImplBody, traits: seq<TraitBody>, varsFor: TraitBody -> seq<VarInfo>, concrete: ConcreteOf)
    ensures Find(traits, Named(impl_.traitName)).None? ==>
      CandidateOf(impl_, traits, varsFor, concrete) == Err("Trait " + impl_.traitName + " not found")
    ensures CandidateOf(impl_, traits, varsFor, concrete).Ok? && CandidateOf(impl_, traits, varsFor, concrete).value.Some? ==>
      var s := CandidateOf(impl_, traits, varsFor, concrete).value.value;
      && s.impl_ == impl_ && s.trait_ in traits && s.trait_.name == impl_.traitName
      && (impl_.condition.None? ==> s.constraints == map[])
      && (impl_.condition.Some? ==> Satisfies(impl_.condition.value, varsFor(s.trait_), map[], concrete) == Ok((true, s.constraints)))
    ensures impl_.condition.None? && Find(traits, Named(impl_.traitName)).Some? ==>
      CandidateOf(impl_, traits, varsFor, concrete).Ok? && CandidateOf(impl_, traits, varsFor, concrete).value.Some?
  {
  }

  /** The candidates are exactly the implementations that give one, in order; any panic
    * makes the whole selection panic. */
  lemma {:induction false} CandidatesOk(impls: seq<ImplBody>, traits: seq<TraitBody>, varsFor: TraitBody -> seq<VarInfo>, concrete: ConcreteOf)
    ensures Candidates(impls, traits, varsFor, concrete).Ok? <==> forall i :: 0 <= i < |impls| ==> CandidateOf(impls[i], traits, varsFor, concrete).Ok?
    ensures Candidates(impls, traits, varsFor, concrete).Ok? ==>
      forall s :: s in Candidates(impls, traits, varsFor, concrete).value <==>
        exists i :: 0 <= i < |impls| && CandidateOf(impls[i], traits, varsFor, concrete) == Ok(Some(s))
    decreases |impls|
  {
    if impls != [] {
      var init := impls[..|impls| - 1];
      CandidatesOk(init, traits, varsFor, concrete);
      assert forall i :: 0 <= i < |init| ==> init[i] == impls[i];
    }
  }

  /** The first implementation that panics decides the panic. */
  lemma {:induction false} CandidatesFirstError(impls: seq<ImplBody>, traits: seq<TraitBody>, varsFor: TraitBody -> seq<VarInfo>, concrete: ConcreteOf, j: nat)
    requires j < |impls| && CandidateOf(impls[j], traits, varsFor, concrete).Err?
    requires forall i :: 0 <= i < j ==> CandidateOf(impls[i], traits, varsFor, concrete).Ok?
    ensures Candidates(impls, traits, varsFor, concrete) == Err(CandidateOf(impls[j], traits, varsFor, concrete).msg)
    decreases |impls|
  {
    var init := impls[..|impls| - 1];
    if j < |impls| - 1 {
      assert init[j] == impls[j];
      assert forall i :: 0 <= i < j ==> init[i] == impls[i];
      CandidatesFirstError(init, traits, varsFor, concrete, j);
    } else {
      CandidatesOk(init, traits, varsFor, concrete);
      assert forall i :: 0 <= i < |init| ==> init[i] == impls[i];
    }
  }

  /** A panic among the first `n` implementations is the panic of all of them. */
  lemma {:induction false} CandidatesPrefixErr(impls: seq<ImplBody>, traits: seq<TraitBody>, varsFor: TraitBody -> seq<VarInfo>, concrete: ConcreteOf, n: nat)
    requires n <= |impls| && Candidates(impls[..n], traits, varsFor, concrete).Err?
    ensures Candidates(impls, traits, varsFor, concrete) == Candidates(impls[..n], traits, varsFor, concrete)
    decreases |impls|
  {
    if n < |impls| {
      var init := impls[..|impls| - 1];
      assert init[..n] == impls[..n];
      CandidatesPrefixErr(init, traits, varsFor, concrete, n);
    } else {
      assert impls[..n] == impls;
    }
  }

  /** With no candidate the selection panics, and only then with that message. */
  lemma PickNone(xs: seq<SpecBody>)
    ensures xs == [] <==> Pick(SortByConstraints(xs)) == Err("No valid implementation found")
  {
    var sorted := SortByConstraints(xs);
    assert |sorted| == |multiset(sorted)| == |xs|;
  }

  /** A single candidate is the one chosen. */
  lemma PickSingle(xs: seq<SpecBody>)
    requires |xs| == 1
    ensures Pick(SortByConstraints(xs)) == Ok(xs[0])
  {
    var sorted := SortByConstraints(xs);
    assert |sorted| == |multiset(sorted)| == 1;
    assert xs == [xs[0]];
    assert sorted[0] in multiset(xs);
  }

  /** The chosen candidate is one of them; of two or more, it is strictly more specific than
    * another candidate, and otherwise the selection is ambiguous. */
  lemma PickChosen(xs: seq<SpecBody>)
    requires xs != []
    ensures Pick(SortByConstraints(xs)).Ok? ==> Pick(SortByConstraints(xs)).value in xs
    ensures Pick(SortByConstraints(xs)).Ok? && |xs| >= 2 ==>
      exists o :: o in xs && CmpConstraintsSpec(Pick(SortByConstraints(xs)).value.constraints, o.constraints) == Greater
    ensures Pick(SortByConstraints(xs)).Err? ==>
      Pick(SortByConstraints(xs)) == Err("Ambiguous implementation: multiple implementations are equally specific")
  {
    var sorted := SortByConstraints(xs);
    assert |sorted| == |multiset(sorted)| == |xs|;
    var top := sorted[|sorted| - 1];
    assert top in multiset(xs);
    if |xs| >= 2 && Pick(sorted).Ok? {
      SortSorted(xs);
      var second := sorted[|sorted| - 2];
      assert second in multiset(xs);
      assert CmpConstraintsSpec(top.constraints, second.constraints) == Greater;
    }
  }

  /** Finds the first trait of the given name (`traits.iter().find`). */
  method FindTrait(traits: seq<TraitBody>, name: string) returns (r: Option<TraitBody>)
    ensures r == Find(traits, Named(name))
  {
    var i := 0;
    while i < |traits|
      invariant 0 <= i <= |traits|
      invariant forall k :: 0 <= k < i ==> traits[k].name != name
    {
      if traits[i].name == name {
        FindFirst(traits, Named(name), i);
        return Some(traits[i]);
      }
      i := i + 1;
    }
    r := None;
  }

  /** Moving `x` past a candidate it compares less than. */
  lemma InsertPast(sorted: seq<SpecBody>, x: SpecBody, j: nat)
    requires 0 < j <= |sorted| && CmpConstraintsSpec(x.constraints, sorted[j - 1].constraints) == Less
    ensures Insert(sorted[..j], x) + sorted[j..] == Insert(sorted[..j - 1], x) + sorted[j - 1..]
  {
    assert sorted[..j][..j - 1] == sorted[..j - 1];
    assert [sorted[j - 1]] + sorted[j..] == sorted[j - 1..];
  }

  /** One step of insertion: moves `x` left past every candidate it compares less than. */
  method InsertSpec(sorted: seq<SpecBody>, x: SpecBody) returns (r: seq<SpecBody>)
    ensures r == Insert(sorted, x)
  {
    var j := |sorted|;
    var moving := true;
    assert sorted[..j] == sorted && sorted[j..] == [];
    while moving && j > 0
      invariant 0 <= j <= |sorted|
      invariant Insert(sorted, x) == Insert(sorted[..j], x) + sorted[j..]
      invariant !moving ==> j > 0 && CmpConstraintsSpec(x.constraints, sorted[j - 1].constraints) != Less
    {
      var o := CmpConstraints(x.constraints, sorted[j - 1].constraints);
      if o == Less {
        InsertPast(sorted, x, j);
        j := j - 1;
      } else {
        moving := false;
      }
    }
    r := sorted[..j] + [x] + sorted[j..];
  }

  /** `sort_by(cmp_constraints)` on the candidates. */
  method SortSpecs(xs: seq<SpecBody>) returns (r: seq<SpecBody>)
    ensures r == SortByConstraints(xs)
  {
    r := [];
    var i := 0;
    while i < |xs|
      invariant 0 <= i <= |xs|
      invariant r == SortByConstraints(xs[..i])
    {
      assert xs[..i + 1][..i] == xs[..i];
      r := InsertSpec(r, xs[i]);
      i := i + 1;
    }
    assert xs[..|xs|] == xs;
  }

  /** `get_most_specific_impl`: `get_var_info_for_trait` and `get_concrete_type` are
    * parameters; a panic is an `Err` with its message. */
  method GetMostSpecificImpl(impls: seq<ImplBody>, traits: seq<TraitBody>, varsFor: TraitBody -> seq<VarInfo>, concrete: ConcreteOf)
    returns (r: Result<SpecBody>)
    ensures r == MostSpecific(impls, traits, varsFor, concrete)
  {
    var specs := [];
    var i := 0;
    while i < |impls|
      invariant 0 <= i <= |impls|
      invariant Candidates(impls[..i], traits, varsFor, concrete) == Ok(specs)
    {
      assert impls[..i + 1][..i] == impls[..i];
      var impl_ := impls[i];
      var t := FindTrait(traits, impl_.traitName);
      if t.None? {
        CandidatesPrefixErr(impls, traits, varsFor, concrete, i + 1);
        return Err("Trait " + impl_.traitName + " not found");
      }
      if impl_.condition.None? {
        specs := specs + [SpecBody(impl_, t.value, map[])];
      } else {
        var sat := SatisfiesCondition(impl_.condition.value, varsFor(t.value), map[], concrete);
        if sat.Err? {
          CandidatesPrefixErr(impls, traits, varsFor, concrete, i + 1);
          return Err(sat.msg);
        }
        if sat.value.0 {
          specs := specs + [SpecBody(impl_, t.value, sat.value.1)];
        }
      }
      i := i + 1;
    }
    assert impls[..|impls|] == impls;
    var sorted := SortSpecs(specs);
    if |sorted| == 0 {
      return Err("No valid implementation found");
    }
    if |sorted| == 1 {
      return Ok(sorted[0]);
    }
    var o := CmpConstraints(sorted[|sorted| - 1].constraints, sorted[|sorted| - 2].constraints);
    if o == Equal {
      return Err("Ambiguous implementation: multiple implementations are equally specific");
    }
    r := Ok(sorted[|sorted| - 1]);
  }
}
