/** Parsing helpers of the utilities crate (`crates/spec-trait-utils/src/parsing.rs`): a type or
  * trait after an identifier, folding a `where` clause into the parameter list, substituting a
  * generic, and fresh `__W{n}` generics for `_`. */
module UtilsParsing {
  import opened Wrappers
  import opened Syntax
  import opened FreshNames
  import Strings
  import UtilsTypes

  // ============================================================ parse_type_or_trait

  /** What an implementor of `ParseTypeOrTrait` is built from: `from_type` or `from_trait`. */
  datatype TypeOrTrait =
    | FromType(ident: string, typeName: string)
    | FromTrait(ident: string, traits: seq<string>)

  /** A trait list here ends at the end of the input, a `,` or a `;`. */
  const Stops: set<char> := {',', ';'}

  /** `parse_trait`: after the `:`, identifiers separated by optional `+` up to the end of the
    * input, a `,` or a `;`; an empty list is an error. */
  method ParseTrait(ident: string, ts: seq<Token>, pos: nat) returns (r: Result<TypeOrTrait>, next: nat)
    requires IsPunct(ts, pos, ':')
    ensures r.Ok? <==> TraitSpanOk(ts, pos + 1, FirstStop(ts, pos + 1, Stops))
    ensures r.Ok? ==> next == FirstStop(ts, pos + 1, Stops)
    ensures r.Ok? ==> r.value == FromTrait(ident, IdentNames(ts, pos + 1, next)) && |r.value.traits| >= 1
  {
    var i := pos + 1;
    var traits: seq<string> := [];
    while !StopsList(ts, i, Stops)
      invariant pos + 1 <= i <= |ts|
      invariant forall j | pos + 1 <= j < i :: !StopsList(ts, j, Stops)
      invariant forall j | pos + 1 <= j < i :: ts[j].Ident? || ts[j] == Punct('+')
      invariant forall j | pos + 1 <= j < i && ts[j] == Punct('+') :: pos + 1 < j && ts[j - 1].Ident?
      invariant i < |ts| && ts[i] == Punct('+') ==> i == pos + 1 || ts[i - 1] == Punct('+')
      invariant traits == IdentNames(ts, pos + 1, i)
      invariant traits == [] <==> i == pos + 1
      decreases |ts| - i
    {
      if !ts[i].Ident? {
        r, next := Err("expected identifier"), i;
        assert !TraitSpanOk(ts, pos + 1, FirstStop(ts, pos + 1, Stops));
        return;
      }
      traits := traits + [ts[i].name];
      i := i + 1;
      if i < |ts| && ts[i] == Punct('+') {
        i := i + 1;
      }
    }
    assert FirstStop(ts, pos + 1, Stops) == i;
    if traits == [] {
      r, next := Err("Expected at least one trait after ':'"), i;
      return;
    }
    assert TraitSpanOk(ts, pos + 1, i);
    IdentNamesNonEmpty(ts, pos + 1, i);
    r, next := Ok(FromTrait(ident, traits)), i;
  }

  /** `parse_type_or_trait`: `=` and one type give `from_type` with the rendered type, `:` gives
    * `from_trait`, anything else is an error. */
  method ParseTypeOrTrait(ident: string, ts: seq<Token>, pos: nat, parseType: TypeParser)
      returns (r: Result<TypeOrTrait>, next: nat)
    requires pos <= |ts| && Advances(parseType)
    ensures !IsPunct(ts, pos, '=') && !IsPunct(ts, pos, ':') ==> r.Err?
    ensures r.Ok? ==> pos < next <= |ts| && r.value.ident == ident
    ensures IsPunct(ts, pos, '=') ==> (r.Ok? <==> parseType(ts, pos + 1).Some?)
    ensures IsPunct(ts, pos, '=') && r.Ok? ==> r.value == FromType(ident, Render(parseType(ts, pos + 1).value.0)) && next == parseType(ts, pos + 1).value.1
    ensures IsPunct(ts, pos, ':') ==> (r.Ok? <==> TraitSpanOk(ts, pos + 1, FirstStop(ts, pos + 1, Stops)))
    ensures IsPunct(ts, pos, ':') && r.Ok? ==>
      next == FirstStop(ts, pos + 1, Stops) && r.value == FromTrait(ident, IdentNames(ts, pos + 1, next)) && |r.value.traits| >= 1
  {
    if IsPunct(ts, pos, '=') {
      match parseType(ts, pos + 1)
      case None =>
        r, next := Err("expected type"), pos + 1;
      case Some((t, after)) =>
        r, next := Ok(FromType(ident, Render(t))), after;
    } else if IsPunct(ts, pos, ':') {
      r, next := ParseTrait(ident, ts, pos);
    } else {
      r, next := Err("Expected ':' or '=' after identifier"), pos;
    }
  }

  /** From the tests: `MyType: Clone + Debug` gives the two traits in order, and `MyType:` and
    * `MyType ? u32` are errors. */
  method ParseTraitExamples(parseType: TypeParser)
    requires Advances(parseType)
  {
    var ts := [Ident("MyType"), Punct(':'), Ident("Clone"), Punct('+'), Ident("Debug")];
    assert FirstStop(ts, 2, Stops) == 5;
    assert TraitSpanOk(ts, 2, 5);
    var r, next := ParseTypeOrTrait("MyType", ts, 1, parseType);
    assert IdentNames(ts, 2, 3) == ["Clone"];
    assert IdentNames(ts, 2, 5) == ["Clone", "Debug"];
    assert r == Ok(FromTrait("MyType", ["Clone", "Debug"]));
    var empty := [Ident("MyType"), Punct(':')];
    var r2, _ := ParseTypeOrTrait("MyType", empty, 1, parseType);
    assert FirstStop(empty, 2, Stops) == 2;
    assert r2.Err?;
    var wrong := [Ident("MyType"), Punct('?'), Ident("u32")];
    var r3, _ := ParseTypeOrTrait("MyType", wrong, 1, parseType);
    assert r3.Err?;
  }

  // ============================================================ parse_generics

  /** Appends, in order, each element of `extra` that is not present yet; an element appended
    * earlier counts as present for the later ones. */
  function AddNew<T(==)>(existing: seq<T>, extra: seq<T>): seq<T>
    decreases |extra|
  {
    if extra == [] then existing
    else AddNew(if extra[0] in existing then existing else existing + [extra[0]], extra[1..])
  }

  /** The existing elements stay first and in place; what is in the result is exactly what was
    * in either list. */
  lemma {:induction false} AddNewKeeps<T>(existing: seq<T>, extra: seq<T>)
    ensures existing <= AddNew(existing, extra)
    ensures forall x :: x in AddNew(existing, extra) <==> x in existing || x in extra
    decreases |extra|
  {
    if extra != [] {
      var next := if extra[0] in existing then existing else existing + [extra[0]];
      AddNewKeeps(next, extra[1..]);
      assert forall x :: x in extra <==> x == extra[0] || x in extra[1..];
    }
  }

  /** Nothing is appended twice: a list without duplicates stays without duplicates. */
  lemma {:induction false} AddNewNoDuplicates<T>(existing: seq<T>, extra: seq<T>)
    requires Strings.NoDuplicates(existing)
    ensures Strings.NoDuplicates(AddNew(existing, extra))
    decreases |extra|
  {
    if extra != [] {
      var next := if extra[0] in existing then existing else existing + [extra[0]];
      assert Strings.NoDuplicates(next) by {
        if extra[0] !in existing {
          forall i, j | 0 <= i < j < |next| ensures next[i] != next[j] {
            if j == |existing| {
              assert next[i] == existing[i];
            }
          }
        }
      }
      AddNewNoDuplicates(next, extra[1..]);
    }
  }

  /** When every element is already present, nothing changes. */
  lemma {:induction false} AddNewPresent<T>(existing: seq<T>, extra: seq<T>)
    requires forall x | x in extra :: x in existing
    ensures AddNew(existing, extra) == existing
    decreases |extra|
  {
    if extra != [] {
      assert extra[0] in extra;
      AddNewPresent(existing, extra[1..]);
    }
  }

  /** The `for bound in predicate.bounds` loop: pushes each bound that the parameter does not
    * have yet. */
  method PushNew<T(==)>(existing: seq<T>, extra: seq<T>) returns (r: seq<T>)
    ensures r == AddNew(existing, extra)
  {
    r := existing;
    for i := 0 to |extra|
      invariant AddNew(r, extra[i..]) == AddNew(existing, extra)
    {
      assert extra[i..][1..] == extra[i + 1..];
      if extra[i] !in r {
        r := r + [extra[i]];
      }
    }
    assert extra[|extra|..] == [];
  }

  /** `p` is the type parameter (or, with `lifetime`, the lifetime parameter) called `name`. */
  predicate Binds(p: GenericParam, lifetime: bool, name: string) {
    if lifetime then IsLifetimeParamNamed(p, name) else IsTypeParamNamed(p, name)
  }

  /** The `find_map` over the parameters: the first one at or after `from` that `Binds`. */
  function FindParam(ps: seq<GenericParam>, lifetime: bool, name: string, from: nat): (r: Option<nat>)
    requires from <= |ps|
    ensures r.Some? ==> from <= r.value < |ps| && Binds(ps[r.value], lifetime, name)
    ensures r.Some? ==> forall j | from <= j < r.value :: !Binds(ps[j], lifetime, name)
    ensures r.None? ==> forall j | from <= j < |ps| :: !Binds(ps[j], lifetime, name)
    decreases |ps| - from
  {
    if from == |ps| then None
    else if Binds(ps[from], lifetime, name) then Some(from)
    else FindParam(ps, lifetime, name, from + 1)
  }

  /** The identifier a type predicate is about: the first segment of its bounded path. Another
    * kind of bounded type panics. */
  function BoundedIdent(t: Ty): (r: Result<string>)
    ensures r.Ok? <==> t.Path? && |t.segs| >= 1
    ensures r.Ok? ==> r.value == t.segs[0].ident
  {
    if t.Path? && |t.segs| >= 1 then Ok(t.segs[0].ident)
    else if t.Path? then Err("called `Option::unwrap()` on a `None` value")
    else Err("Ident not found in bounded type")
  }

  /** Which parameter a where predicate adds bounds to: whether it is a lifetime, and its name. */
  function Target(pred: WherePredicate): (r: Result<(bool, string)>)
    ensures pred.LifetimePredicate? ==> r == Ok((true, pred.lifetime))
    ensures pred.TypePredicate? ==> (r.Ok? <==> BoundedIdent(pred.bounded).Ok?)
    ensures pred.TypePredicate? && r.Ok? ==> r.value == (false, BoundedIdent(pred.bounded).value)
  {
    match pred
    case TypePredicate(bounded, _) =>
      (match BoundedIdent(bounded)
       case Ok(ident) => Ok((false, ident))
       case Err(e) => Err(e))
    case LifetimePredicate(l, _) => Ok((true, l))
  }

  /** The predicate's target parameter exists among `ps`. */
  predicate Resolves(ps: seq<GenericParam>, pred: WherePredicate) {
    Target(pred).Ok? && FindParam(ps, Target(pred).value.0, Target(pred).value.1, 0).Some?
  }

  /** The index of the predicate's target parameter. */
  function TargetIndex(ps: seq<GenericParam>, pred: WherePredicate): (i: nat)
    requires Resolves(ps, pred)
    ensures i < |ps|
  {
    FindParam(ps, Target(pred).value.0, Target(pred).value.1, 0).value
  }

  /** The target parameter with the predicate's bounds appended. */
  function AddBounds(p: GenericParam, pred: WherePredicate): (r: GenericParam)
    ensures GrownParam(p, r)
  {
    if p.TypeParam? && pred.TypePredicate? then
      AddNewKeeps(p.bounds, pred.bounds);
      TypeParam(p.name, AddNew(p.bounds, pred.bounds))
    else if p.LifetimeParam? && pred.LifetimePredicate? then
      AddNewKeeps(p.lbounds, pred.lbounds);
      LifetimeParam(p.name, AddNew(p.lbounds, pred.lbounds))
    else p
  }

  /** `q` is `p` with possibly more bounds after the ones it had. */
  predicate GrownParam(p: GenericParam, q: GenericParam) {
    match p
    case TypeParam(n, bs) => q.TypeParam? && q.name == n && bs <= q.bounds
    case LifetimeParam(n, ls) => q.LifetimeParam? && q.name == n && ls <= q.lbounds
    case ConstParam(_) => q == p
  }

  /** The parameters are the same, in the same order, with possibly more bounds. */
  predicate Grown(ps: seq<GenericParam>, qs: seq<GenericParam>) {
    |ps| == |qs| && forall i | 0 <= i < |ps| :: GrownParam(ps[i], qs[i])
  }

  lemma GrownTrans(ps: seq<GenericParam>, qs: seq<GenericParam>, rs: seq<GenericParam>)
    requires Grown(ps, qs) && Grown(qs, rs)
    ensures Grown(ps, rs)
  {
  }

  /** Growing bounds does not change which parameter a predicate finds. */
  lemma {:induction false} FindParamGrown(ps: seq<GenericParam>, qs: seq<GenericParam>, lifetime: bool, name: string, from: nat)
    requires Grown(ps, qs) && from <= |ps|
    ensures FindParam(ps, lifetime, name, from) == FindParam(qs, lifetime, name, from)
    decreases |ps| - from
  {
    if from < |ps| {
      assert GrownParam(ps[from], qs[from]);
      FindParamGrown(ps, qs, lifetime, name, from + 1);
    }
  }

  /** One where predicate (`handle_type_predicate` / `handle_lifetime_predicate`): its bounds are
    * appended to the first parameter of the right kind and name; a predicate whose parameter is
    * not declared panics. */
  function ApplyOne(ps: seq<GenericParam>, pred: WherePredicate): (r: Result<seq<GenericParam>>)
    ensures r.Ok? <==> Resolves(ps, pred)
    ensures r.Ok? ==> Grown(ps, r.value)
    ensures r.Ok? ==> forall j | 0 <= j < |ps| && j != TargetIndex(ps, pred) :: r.value[j] == ps[j]
  {
    match Target(pred)
    case Err(e) => Err(e)
    case Ok((lifetime, name)) =>
      match FindParam(ps, lifetime, name, 0)
      case None => Err(if lifetime then "Lifetime parameter not found in generics" else "Type parameter not found in generics")
      case Some(i) =>
        Ok(ps[i := AddBounds(ps[i], pred)])
  }

  /** Every bound of the predicate is already on its target parameter. */
  predicate HasAll(p: GenericParam, pred: WherePredicate) {
    match pred
    case TypePredicate(_, bs) => p.TypeParam? && forall b | b in bs :: b in p.bounds
    case LifetimePredicate(_, ls) => p.LifetimeParam? && forall l | l in ls :: l in p.lbounds
  }

  /** `ps` already states what the predicate asks for. */
  predicate Covered(ps: seq<GenericParam>, pred: WherePredicate) {
    Resolves(ps, pred) && HasAll(ps[TargetIndex(ps, pred)], pred)
  }

  /** After `ApplyOne` the predicate is covered. */
  lemma ApplyOneCovers(ps: seq<GenericParam>, pred: WherePredicate)
    requires ApplyOne(ps, pred).Ok?
    ensures Covered(ApplyOne(ps, pred).value, pred)
  {
    var qs := ApplyOne(ps, pred).value;
    var i := TargetIndex(ps, pred);
    FindParamGrown(ps, qs, Target(pred).value.0, Target(pred).value.1, 0);
    if pred.TypePredicate? {
      AddNewKeeps(ps[i].bounds, pred.bounds);
    } else {
      AddNewKeeps(ps[i].lbounds, pred.lbounds);
    }
  }

  /** A covered predicate stays covered when bounds grow. */
  lemma CoveredGrown(ps: seq<GenericParam>, qs: seq<GenericParam>, pred: WherePredicate)
    requires Covered(ps, pred) && Grown(ps, qs)
    ensures Covered(qs, pred)
  {
    FindParamGrown(ps, qs, Target(pred).value.0, Target(pred).value.1, 0);
    var i := TargetIndex(ps, pred);
    assert GrownParam(ps[i], qs[i]);
  }

  /** A predicate that is already covered changes nothing. */
  lemma CoveredFixed(ps: seq<GenericParam>, pred: WherePredicate)
    requires Covered(ps, pred)
    ensures ApplyOne(ps, pred) == Ok(ps)
  {
    var i := TargetIndex(ps, pred);
    if pred.TypePredicate? {
      AddNewPresent(ps[i].bounds, pred.bounds);
    } else {
      AddNewPresent(ps[i].lbounds, pred.lbounds);
    }
    assert ps[i := AddBounds(ps[i], pred)] == ps;
  }

  /** `parse_generics` over the where predicates, front to back; the first one that panics
    * ends it. */
  function ApplyAll(ps: seq<GenericParam>, preds: seq<WherePredicate>): Result<seq<GenericParam>>
    decreases |preds|
  {
    if preds == [] then Ok(ps)
    else
      match ApplyOne(ps, preds[0])
      case Err(e) => Err(e)
      case Ok(qs) => ApplyAll(qs, preds[1..])
  }

  /** `parse_generics(generics)`: the parameters with every where bound merged in; the where
    * clause itself is kept as it was. */
  function ParseGenericsSpec(g: Generics): Result<Generics> {
    match ApplyAll(g.params, g.wherePreds)
    case Ok(ps) => Ok(g.(params := ps))
    case Err(e) => Err(e)
  }

  /** After `ApplyAll` the parameters are the old ones with grown bounds, and every predicate is
    * covered. */
  lemma {:induction false} ApplyAllCovers(ps: seq<GenericParam>, preds: seq<WherePredicate>)
    requires ApplyAll(ps, preds).Ok?
    ensures Grown(ps, ApplyAll(ps, preds).value)
    ensures forall k | 0 <= k < |preds| :: Covered(ApplyAll(ps, preds).value, preds[k])
    decreases |preds|
  {
    if preds != [] {
      var qs := ApplyOne(ps, preds[0]).value;
      var rs := ApplyAll(ps, preds).value;
      ApplyAllCovers(qs, preds[1..]);
      GrownTrans(ps, qs, rs);
      ApplyOneCovers(ps, preds[0]);
      CoveredGrown(qs, rs, preds[0]);
      forall k | 1 <= k < |preds| ensures Covered(rs, preds[k]) {
        assert preds[k] == preds[1..][k - 1];
      }
    }
  }

  /** When every predicate is covered, `ApplyAll` changes nothing. */
  lemma {:induction false} ApplyAllFixed(ps: seq<GenericParam>, preds: seq<WherePredicate>)
    requires forall k | 0 <= k < |preds| :: Covered(ps, preds[k])
    ensures ApplyAll(ps, preds) == Ok(ps)
    decreases |preds|
  {
    if preds != [] {
      CoveredFixed(ps, preds[0]);
      forall k | 0 <= k < |preds[1..]| ensures Covered(ps, preds[1..][k]) {
        assert preds[1..][k] == preds[k + 1];
      }
      ApplyAllFixed(ps, preds[1..]);
    }
  }

  /** `ApplyAll` fails exactly when one of the predicates names a parameter that is not declared
    * (or has a bounded type that is not a path): the checks do not depend on the bounds that
    * earlier predicates added. */
  lemma {:induction false} ApplyAllFails(ps: seq<GenericParam>, preds: seq<WherePredicate>)
    ensures ApplyAll(ps, preds).Err? <==> exists k :: 0 <= k < |preds| && !Resolves(ps, preds[k])
    decreases |preds|
  {
    if preds != [] {
      if Resolves(ps, preds[0]) {
        var qs := ApplyOne(ps, preds[0]).value;
        ApplyAllFails(qs, preds[1..]);
        forall k | 0 <= k < |preds| && Target(preds[k]).Ok?
          ensures FindParam(ps, Target(preds[k]).value.0, Target(preds[k]).value.1, 0)
               == FindParam(qs, Target(preds[k]).value.0, Target(preds[k]).value.1, 0)
        {
          FindParamGrown(ps, qs, Target(preds[k]).value.0, Target(preds[k]).value.1, 0);
        }
        assert forall k | 1 <= k < |preds| :: preds[k] == preds[1..][k - 1];
        assert forall k | 0 <= k < |preds[1..]| :: preds[1..][k] == preds[k + 1];
      }
    }
  }

  /** `parse_generics` is idempotent: a second run adds nothing. */
  lemma ParseGenericsIdempotent(g: Generics)
    requires ParseGenericsSpec(g).Ok?
    ensures ParseGenericsSpec(ParseGenericsSpec(g).value) == ParseGenericsSpec(g)
  {
    var qs := ApplyAll(g.params, g.wherePreds).value;
    ApplyAllCovers(g.params, g.wherePreds);
    ApplyAllFixed(qs, g.wherePreds);
  }

  /** The `iter_mut().find_map(..)` search. */
  method FindParamIndex(ps: seq<GenericParam>, lifetime: bool, name: string) returns (r: Option<nat>)
    ensures r == FindParam(ps, lifetime, name, 0)
  {
    var i := 0;
    while i < |ps|
      invariant i <= |ps|
      invariant FindParam(ps, lifetime, name, 0) == FindParam(ps, lifetime, name, i)
    {
      if Binds(ps[i], lifetime, name) {
        return Some(i);
      }
      i := i + 1;
    }
    r := None;
  }

  /** `handle_type_predicate(predicate, generics)`: the bounds of `bounded: bounds` are pushed
    * onto the first type parameter named like the bounded path; a panic is an `Err`. */
  method HandleTypePredicate(bounded: Ty, bounds: seq<Bound>, g: Generics) returns (r: Result<Generics>)
    ensures r.Ok? <==> ApplyOne(g.params, TypePredicate(bounded, bounds)).Ok?
    ensures r.Ok? ==> r.value == g.(params := ApplyOne(g.params, TypePredicate(bounded, bounds)).value)
    ensures r.Err? ==> r == Err(ApplyOne(g.params, TypePredicate(bounded, bounds)).msg)
  {
    var ident := BoundedIdent(bounded);
    if ident.Err? {
      return Err(ident.msg);
    }
    var found := FindParamIndex(g.params, false, ident.value);
    if found.None? {
      return Err("Type parameter not found in generics");
    }
    var i := found.value;
    var param := g.params[i];
    var bs := PushNew(param.bounds, bounds);
    r := Ok(g.(params := g.params[i := TypeParam(param.name, bs)]));
  }

  /** `handle_lifetime_predicate(predicate, generics)`: the same for `'a: 'b + 'c` and the
    * lifetime parameters. */
  method HandleLifetimePredicate(lifetime: string, lbounds: seq<string>, g: Generics) returns (r: Result<Generics>)
    ensures r.Ok? <==> ApplyOne(g.params, LifetimePredicate(lifetime, lbounds)).Ok?
    ensures r.Ok? ==> r.value == g.(params := ApplyOne(g.params, LifetimePredicate(lifetime, lbounds)).value)
    ensures r.Err? ==> r == Err(ApplyOne(g.params, LifetimePredicate(lifetime, lbounds)).msg)
  {
    var found := FindParamIndex(g.params, true, lifetime);
    if found.None? {
      return Err("Lifetime parameter not found in generics");
    }
    var i := found.value;
    var param := g.params[i];
    var ls := PushNew(param.lbounds, lbounds);
    r := Ok(g.(params := g.params[i := LifetimeParam(param.name, ls)]));
  }

  /** `parse_generics(generics)`: handles each where predicate in turn. */
  method ParseGenerics(g: Generics) returns (r: Result<Generics>)
    ensures r == ParseGenericsSpec(g)
  {
    var preds := g.wherePreds;
    var cur := g;
    for i := 0 to |preds|
      invariant cur.wherePreds == g.wherePreds
      invariant ApplyAll(g.params, preds) == ApplyAll(cur.params, preds[i..])
    {
      assert preds[i..][0] == preds[i] && preds[i..][1..] == preds[i + 1..];
      var next: Result<Generics>;
      match preds[i] {
        case TypePredicate(bounded, bounds) =>
          next := HandleTypePredicate(bounded, bounds, cur);
        case LifetimePredicate(lifetime, lbounds) =>
          next := HandleLifetimePredicate(lifetime, lbounds, cur);
      }
      if next.Err? {
        return Err(next.msg);
      }
      cur := next.value;
    }
    assert preds[|preds|..] == [];
    r := Ok(cur);
  }

  /** One step of the examples: a predicate whose target is found at `i` appends its bounds
    * there. */
  lemma ApplyOneAt(ps: seq<GenericParam>, pred: WherePredicate, i: nat)
    requires Target(pred).Ok? && FindParam(ps, Target(pred).value.0, Target(pred).value.1, 0) == Some(i)
    ensures ApplyOne(ps, pred) == Ok(ps[i := AddBounds(ps[i], pred)])
  {
  }

  /** From the tests: `<T: Copy> where T: Clone` becomes `<T: Copy + Clone>`, and with `T: Clone`
    * already present nothing changes. */
  lemma ParseGenericsTraitExamples()
    ensures ParseGenericsSpec(Generics([TypeParam("T", [TraitBound("Copy")])], [TypePredicate(Named("T"), [TraitBound("Clone")])]))
            == Ok(Generics([TypeParam("T", [TraitBound("Copy"), TraitBound("Clone")])], [TypePredicate(Named("T"), [TraitBound("Clone")])]))
    ensures ParseGenericsSpec(Generics([TypeParam("T", [TraitBound("Clone")])], [TypePredicate(Named("T"), [TraitBound("Clone")])]))
            == Ok(Generics([TypeParam("T", [TraitBound("Clone")])], [TypePredicate(Named("T"), [TraitBound("Clone")])]))
  {
    var pred := TypePredicate(Named("T"), [TraitBound("Clone")]);
    assert [pred][1..] == [];
    assert Target(pred) == Ok((false, "T"));
    var ps := [TypeParam("T", [TraitBound("Copy")])];
    assert FindParam(ps, false, "T", 0) == Some(0);
    assert AddNew([TraitBound("Copy")], [TraitBound("Clone")]) == [TraitBound("Copy"), TraitBound("Clone")] by {
      assert [TraitBound("Clone")][1..] == [];
    }
    ApplyOneAt(ps, pred, 0);
    var qs := [TypeParam("T", [TraitBound("Copy"), TraitBound("Clone")])];
    assert AddBounds(ps[0], pred) == qs[0];
    assert ps[0 := qs[0]] == qs;
    assert ApplyOne(ps, pred) == Ok(qs);
    assert ApplyAll(ps, [pred]) == ApplyAll(qs, []);
    var ps2 := [TypeParam("T", [TraitBound("Clone")])];
    assert FindParam(ps2, false, "T", 0) == Some(0);
    assert AddNew([TraitBound("Clone")], [TraitBound("Clone")]) == [TraitBound("Clone")] by {
      assert [TraitBound("Clone")][1..] == [];
    }
    ApplyOneAt(ps2, pred, 0);
    assert AddBounds(ps2[0], pred) == ps2[0];
    assert ps2[0 := ps2[0]] == ps2;
    assert ApplyOne(ps2, pred) == Ok(ps2);
    assert ApplyAll(ps2, [pred]) == ApplyAll(ps2, []);
  }

  /** From the tests: `<T: Clone, 'a, 'b> where T: Copy, 'a: 'b` gives `T: Clone + Copy` and
    * `'a: 'b` (syn prints lifetimes first; the parameter order itself is kept). */
  lemma ParseGenericsMixedExample()
    ensures ParseGenericsSpec(Generics([TypeParam("T", [TraitBound("Clone")]), LifetimeParam("'a", []), LifetimeParam("'b", [])],
                                       [TypePredicate(Named("T"), [TraitBound("Copy")]), LifetimePredicate("'a", ["'b"])]))
            == Ok(Generics([TypeParam("T", [TraitBound("Clone"), TraitBound("Copy")]), LifetimeParam("'a", ["'b"]), LifetimeParam("'b", [])],
                           [TypePredicate(Named("T"), [TraitBound("Copy")]), LifetimePredicate("'a", ["'b"])]))
  {
    var p1, p2 := TypePredicate(Named("T"), [TraitBound("Copy")]), LifetimePredicate("'a", ["'b"]);
    var preds := [p1, p2];
    assert preds[1..] == [p2] && [p2][1..] == [];
    var ps := [TypeParam("T", [TraitBound("Clone")]), LifetimeParam("'a", []), LifetimeParam("'b", [])];
    assert Target(p1) == Ok((false, "T"));
    assert FindParam(ps, false, "T", 0) == Some(0);
    assert AddNew([TraitBound("Clone")], [TraitBound("Copy")]) == [TraitBound("Clone"), TraitBound("Copy")] by {
      assert [TraitBound("Copy")][1..] == [];
    }
    ApplyOneAt(ps, p1, 0);
    var qs := [TypeParam("T", [TraitBound("Clone"), TraitBound("Copy")]), LifetimeParam("'a", []), LifetimeParam("'b", [])];
    assert AddBounds(ps[0], p1) == qs[0];
    assert ps[0 := qs[0]] == qs;
    assert ApplyOne(ps, p1) == Ok(qs);
    assert FindParam(qs, true, "'a", 1) == Some(1);
    assert FindParam(qs, true, "'a", 0) == Some(1);
    assert AddNew([], ["'b"]) == ["'b"] by {
      assert ["'b"][1..] == [];
    }
    ApplyOneAt(qs, p2, 1);
    var rs := [TypeParam("T", [TraitBound("Clone"), TraitBound("Copy")]), LifetimeParam("'a", ["'b"]), LifetimeParam("'b", [])];
    assert AddBounds(qs[1], p2) == rs[1];
    assert qs[1 := rs[1]] == rs;
    assert ApplyOne(qs, p2) == Ok(rs);
    assert ApplyAll(ps, preds) == ApplyAll(qs, [p2]);
    assert ApplyAll(qs, [p2]) == ApplyAll(rs, []);
  }

  /** From the tests: a where predicate about an undeclared parameter panics. */
  lemma ParseGenericsMissingParam()
    ensures ParseGenericsSpec(Generics([TypeParam("T", [])], [TypePredicate(Named("U"), [TraitBound("Clone")])])).Err?
  {
    var pred := TypePredicate(Named("U"), [TraitBound("Clone")]);
    ApplyAllFails([TypeParam("T", [])], [pred]);
    assert !Resolves([TypeParam("T", [])], pred);
  }

  // ============================================================ replace_type

  /** `replace_type` of this file is the same code as `replace_type` of `types.rs`, modelled by
    * `UtilsTypes.ReplaceType`; these are the cases its own tests check: `(T, Other, T)`,
    * `[T; 3]` and `(T)` with `T` replaced by `String`. */
  lemma ReplaceTypeExamples()
    ensures UtilsTypes.ReplaceType(Tuple([Named("T"), Named("Other"), Named("T")]), "T", Named("String"))
            == Tuple([Named("String"), Named("Other"), Named("String")])
    ensures UtilsTypes.ReplaceType(Array(Named("T"), LenExpr("3")), "T", Named("String")) == Array(Named("String"), LenExpr("3"))
    ensures UtilsTypes.ReplaceType(Paren(Named("T")), "T", Named("String")) == Paren(Named("String"))
  {
    assert !UtilsTypes.Mentions(Named("Other"), "T") by {
      assert !UtilsTypes.SegmentMentions(Segment("Other", NoArgs), "T");
    }
  }

  // ============================================================ replace_infers

  /** The names this file's `replace_infers` tries: `__W{n}`. */
  const W := Pattern("__W", "")

  /** `replace_infers(ty, generics, counter, new_generics)`: every `_`, left to right, is replaced
    * by the first name `__W{counter}`, `__W{counter + 1}`, … that `generics` does not hold yet;
    * the name is inserted in `generics` and appended to `new_generics`. */
  method ReplaceInfers(t: Ty, s: Namer) returns (r: Ty, s': Namer)
    ensures Extends(W, s, s', InferCount(t))
    ensures r == FillInfers(t, Added(s, s'))
    decreases TySize(t), 3
  {
    match t {
      case Tuple(es) =>
        var es', s1 := ReplaceInfersTys(es, s);
        r, s' := Tuple(es'), s1;
      case Ref(lt, m, e) =>
        var e', s1 := ReplaceInfers(e, s);
        r, s' := Ref(lt, m, e'), s1;
      case Array(e, n) =>
        var e', s1 := ReplaceInfers(e, s);
        r, s' := Array(e', n), s1;
      case Slice(e) =>
        var e', s1 := ReplaceInfers(e, s);
        r, s' := Slice(e'), s1;
      case Paren(e) =>
        var e', s1 := ReplaceInfers(e, s);
        r, s' := Paren(e'), s1;
      case Path(segs) =>
        var segs', s1 := ReplaceInfersSegs(segs, s);
        r, s' := Path(segs'), s1;
      case Infer =>
        // the `loop` that looks for an unused name; it ends because `generics` is finite
        var c := s.counter;
        var name: string;
        while true
          invariant s.counter <= c
          invariant forall k :: s.counter <= k < c ==> Name(W, k) in s.generics
          decreases |s.generics| - (c - s.counter)
        {
          var candidate := Name(W, c);
          c := c + 1;
          if candidate !in s.generics {
            name := candidate;
            break;
          }
          TakenBound(W, s.counter, c, s.generics);
        }
        ExtendsOne(W, s, name, s.generics + {name}, c);
        s' := Namer(s.generics + {name}, c, s.newGenerics + [name]);
        assert Added(s, s') == [name];
        r := Named(name);
      case Other(_) =>
        ExtendsRefl(W, s);
        r, s' := t, s;
    }
  }

  /** The tuple part of `replace_infers`: every element, left to right. */
  method ReplaceInfersTys(es: seq<Ty>, s: Namer) returns (r: seq<Ty>, s': Namer)
    ensures Extends(W, s, s', InferCountTys(es))
    ensures r == FillInfersTys(es, Added(s, s'))
    decreases TysSize(es), 4
  {
    r, s' := [], s;
    TysStart(W, es, s);
    var i := 0;
    while i < |es|
      invariant 0 <= i <= |es|
      invariant TysDone(W, es, i, s, s', r)
    {
      var e, next := ReplaceInfers(es[i], s');
      TysStep(W, es, i, s, s', next, r, e);
      r, s' := r + [e], next;
      i := i + 1;
    }
    TysEnd(W, es, s, s', r);
  }

  /** The path part of `replace_infers`: every segment, left to right. */
  method ReplaceInfersSegs(segs: seq<Segment>, s: Namer) returns (r: seq<Segment>, s': Namer)
    ensures Extends(W, s, s', InferCountSegs(segs))
    ensures r == FillInfersSegs(segs, Added(s, s'))
    decreases SegsSize(segs), 4
  {
    r, s' := [], s;
    SegsStart(W, segs, s);
    var i := 0;
    while i < |segs|
      invariant 0 <= i <= |segs|
      invariant SegsDone(W, segs, i, s, s', r)
    {
      var seg, next := ReplaceInfersSegment(segs[i], s');
      SegsStep(W, segs, i, s, s', next, r, seg);
      r, s' := r + [seg], next;
      i := i + 1;
    }
    SegsEnd(W, segs, s, s', r);
  }

  /** One path segment: the type arguments of an angle-bracketed segment. */
  method ReplaceInfersSegment(seg: Segment, s: Namer) returns (r: Segment, s': Namer)
    ensures Extends(W, s, s', InferCountSeg(seg))
    ensures r == FillInfersSeg(seg, Added(s, s'))
    decreases SegSize(seg), 3
  {
    if !seg.args.Angle? {
      ExtendsRefl(W, s);
      return seg, s;
    }
    var args, s1 := ReplaceInfersArgs(seg.args.args, s);
    r, s' := Segment(seg.ident, Angle(args)), s1;
  }

  /** Every generic argument, left to right. */
  method ReplaceInfersArgs(args: seq<GenericArg>, s: Namer) returns (r: seq<GenericArg>, s': Namer)
    ensures Extends(W, s, s', InferCountArgs(args))
    ensures r == FillInfersArgs(args, Added(s, s'))
    decreases ArgsSize(args), 5
  {
    r, s' := [], s;
    ArgsStart(W, args, s);
    var i := 0;
    while i < |args|
      invariant 0 <= i <= |args|
      invariant ArgsDone(W, args, i, s, s', r)
    {
      var arg, next := ReplaceInfersArg(args[i], s');
      ArgsStep(W, args, i, s, s', next, r, arg);
      r, s' := r + [arg], next;
      i := i + 1;
    }
    ArgsEnd(W, args, s, s', r);
  }

  /** A type argument is rewritten; lifetimes and constants are kept. */
  method ReplaceInfersArg(arg: GenericArg, s: Namer) returns (r: GenericArg, s': Namer)
    ensures Extends(W, s, s', InferCountArg(arg))
    ensures r == FillInfersArg(arg, Added(s, s'))
    decreases ArgSize(arg), 4
  {
    if arg.TypeArg? {
      var ty, s1 := ReplaceInfers(arg.ty, s);
      r, s' := TypeArg(ty), s1;
    } else {
      ExtendsRefl(W, s);
      r, s' := arg, s;
    }
  }

  /** From the tests: starting from no generics and counter 0 the first two names are `__W0`
    * and `__W1` (from a clean state `Extends` fixes the names to `Names(W, 0, 2)`). */
  lemma ReplaceInfersFirstNames()
    ensures Clean(W, Namer({}, 0, []))
    ensures Names(W, 0, 2) == ["__W0", "__W1"]
  {
    assert Strings.Decimal(0) == "0" && Strings.Decimal(1) == "1";
    var c := Names(W, 0, 2);
    assert c[0] == "__W0" && c[1] == "__W1";
  }

  /** From the tests: `(_, Other, _)` with those names becomes `(__W0, Other, __W1)`. */
  lemma ReplaceInfersTupleExample()
    ensures InferCount(Tuple([Infer, Named("Other"), Infer])) == 2
    ensures FillInfers(Tuple([Infer, Named("Other"), Infer]), ["__W0", "__W1"])
            == Tuple([Named("__W0"), Named("Other"), Named("__W1")])
  {
    var none: seq<string> := [];
    var o := Named("Other");
    assert InferCount(o) == 0 && FillInfers(o, none) == o by {
      NamedFilled("Other");
    }
    FillLeaf("__W0");
    FillLeaf("__W1");
    FillTriple(Infer, o, Infer, ["__W0"], none, ["__W1"]);
    assert ["__W0"] + none + ["__W1"] == ["__W0", "__W1"];
  }

  /** A `_` alone takes its name. */
  lemma FillLeaf(n: string)
    ensures InferCount(Infer) == 1 && FillInfers(Infer, [n]) == Named(n)
  {
  }

  /** A tuple of three types is filled element by element. */
  lemma FillTriple(x: Ty, y: Ty, z: Ty, a: seq<string>, b: seq<string>, c: seq<string>)
    requires |a| == InferCount(x) && |b| == InferCount(y) && |c| == InferCount(z)
    ensures InferCount(Tuple([x, y, z])) == |a| + |b| + |c|
    ensures FillInfers(Tuple([x, y, z]), a + b + c) == Tuple([FillInfers(x, a), FillInfers(y, b), FillInfers(z, c)])
  {
    FillTys3([x, y, z], a, b, c);
  }

  lemma FillTys3(es: seq<Ty>, a: seq<string>, b: seq<string>, c: seq<string>)
    requires |es| == 3 && |a| == InferCount(es[0]) && |b| == InferCount(es[1]) && |c| == InferCount(es[2])
    ensures InferCountTys(es) == |a| + |b| + |c|
    ensures FillInfersTys(es, a + b + c) == [FillInfers(es[0], a), FillInfers(es[1], b), FillInfers(es[2], c)]
  {
    FillInfersTysFirst(es, a);
    FillInfersTysStep(es, 1, a, b);
    FillInfersTysStep(es, 2, a + b, c);
    assert es[..3] == es;
  }

  /** A one-segment path without arguments has no `_` and is left as it is. */
  lemma NamedFilled(name: string)
    ensures InferCount(Named(name)) == 0 && FillInfers(Named(name), []) == Named(name)
  {
    var seg := Segment(name, NoArgs);
    var none: seq<string> := [];
    assert InferCountSeg(seg) == 0 && FillInfersSeg(seg, none) == seg;
    assert [seg][..0] == [] && [seg][..1] == [seg] && none + none == none;
    assert InferCountSegs([seg]) == 0 && FillInfersSegs([seg], none) == [seg] by {
      FillInfersSegsStep([seg], 0, none, none);
    }
    assert Named(name) == Path([seg]);
  }
}
