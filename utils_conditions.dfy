/** The `when(...)` condition language of `crates/spec-trait-utils/src/conditions.rs`:
  * its parser over a token stream, and its normalization to disjunctive normal form with
  * deduplication, iterated until `to_dnf` changes nothing. */
module UtilsConditions {
  import opened Wrappers
  import opened Syntax
  import Strings

  /** `WhenCondition`. The type of a `Type` condition is the parsed type whose rendering the
    * source stores as a string. */
  datatype WhenCondition =
    | Type(generic: string, ty: Ty)
    | Trait(generic: string, traits: seq<string>)
    | All(conds: seq<WhenCondition>)
    | Any(conds: seq<WhenCondition>)
    | Not(cond: WhenCondition)

  predicate IsAtom(c: WhenCondition) { c.Type? || c.Trait? }

  /** What the parser can produce: trait lists and aggregations are never empty. */
  predicate WellFormed(c: WhenCondition) {
    match c
    case Type(_, _) => true
    case Trait(_, traits) => |traits| >= 1
    case All(cs) => |cs| >= 1 && forall i | 0 <= i < |cs| :: WellFormed(cs[i])
    case Any(cs) => |cs| >= 1 && forall i | 0 <= i < |cs| :: WellFormed(cs[i])
    case Not(x) => WellFormed(x)
  }

  // ============================================================ parsing

  /** `parse_trait`: after the `:`, identifiers separated by optional `+` up to the end of the
    * input or a `,`; an empty list is an error. */
  method ParseTrait(ident: string, ts: seq<Token>, pos: nat) returns (r: Result<WhenCondition>, next: nat)
    requires IsPunct(ts, pos, ':')
    ensures r.Ok? <==> TraitSpanOk(ts, pos + 1, FirstStop(ts, pos + 1, {','}))
    ensures r.Ok? ==> next == FirstStop(ts, pos + 1, {','})
    ensures r.Ok? ==> r.value == Trait(ident, IdentNames(ts, pos + 1, next))
  {
    var i := pos + 1;
    var traits: seq<string> := [];
    while i < |ts| && ts[i] != Punct(',')
      invariant pos + 1 <= i <= |ts|
      invariant forall j | pos + 1 <= j < i :: !StopsList(ts, j, {','})
      invariant forall j | pos + 1 <= j < i :: ts[j].Ident? || ts[j] == Punct('+')
      invariant forall j | pos + 1 <= j < i && ts[j] == Punct('+') :: pos + 1 < j && ts[j - 1].Ident?
      invariant i < |ts| && ts[i] == Punct('+') ==> i == pos + 1 || ts[i - 1] == Punct('+')
      invariant traits == IdentNames(ts, pos + 1, i)
      invariant traits == [] <==> i == pos + 1
    {
      if !ts[i].Ident? {
        r, next := Err("expected identifier"), i;
        assert !TraitSpanOk(ts, pos + 1, FirstStop(ts, pos + 1, {','}));
        return;
      }
      traits := traits + [ts[i].name];
      i := i + 1;
      if i < |ts| && ts[i] == Punct('+') {
        i := i + 1;
      }
    }
    var stop := FirstStop(ts, pos + 1, {','});
    assert StopsList(ts, i, {','});
    assert stop == i;
    if traits == [] {
      r, next := Err("Expected at least one trait after ':'"), i;
      return;
    }
    assert TraitSpanOk(ts, pos + 1, i);
    r, next := Ok(Trait(ident, traits)), i;
  }

  /** `parse_type`: after the `=`, one type. */
  method ParseType(ident: string, ts: seq<Token>, pos: nat, parseType: TypeParser) returns (r: Result<WhenCondition>, next: nat)
    requires IsPunct(ts, pos, '=') && Advances(parseType)
    ensures r.Ok? <==> parseType(ts, pos + 1).Some?
    ensures r.Ok? ==> r.value == Type(ident, parseType(ts, pos + 1).value.0) && next == parseType(ts, pos + 1).value.1
    ensures r.Ok? ==> pos + 1 < next <= |ts|
  {
    match parseType(ts, pos + 1)
    case None =>
      r, next := Err("expected type"), pos + 1;
    case Some((t, after)) =>
      r, next := Ok(Type(ident, t)), after;
  }

  /** `parse_type_or_trait`: `=` selects a type, `:` a trait list, anything else is an error. */
  method ParseTypeOrTrait(ident: string, ts: seq<Token>, pos: nat, parseType: TypeParser) returns (r: Result<WhenCondition>, next: nat)
    requires pos <= |ts| && Advances(parseType)
    ensures !IsPunct(ts, pos, '=') && !IsPunct(ts, pos, ':') ==> r.Err?
    ensures r.Ok? ==> pos < next <= |ts| && IsAtom(r.value) && r.value.generic == ident && WellFormed(r.value)
    ensures r.Ok? ==> (r.value.Type? <==> IsPunct(ts, pos, '=')) && (r.value.Trait? <==> IsPunct(ts, pos, ':'))
    ensures IsPunct(ts, pos, ':') ==> (r.Ok? <==> TraitSpanOk(ts, pos + 1, FirstStop(ts, pos + 1, {','})))
    ensures IsPunct(ts, pos, '=') ==> (r.Ok? <==> parseType(ts, pos + 1).Some?)
  {
    if IsPunct(ts, pos, '=') {
      r, next := ParseType(ident, ts, pos, parseType);
    } else if IsPunct(ts, pos, ':') {
      r, next := ParseTrait(ident, ts, pos);
      if r.Ok? {
        IdentNamesNonEmpty(ts, pos + 1, next);
      }
    } else {
      r, next := Err("Expected ':' or '=' after identifier"), pos;
    }
  }

  /** `<WhenCondition as Parse>::parse`: an identifier, then an aggregation for `all`, `any`
    * and `not`, a type or trait condition otherwise. */
  method ParseCondition(ts: seq<Token>, pos: nat, parseType: TypeParser) returns (r: Result<WhenCondition>, next: nat)
    requires pos <= |ts| && Advances(parseType)
    ensures pos == |ts| || !ts[pos].Ident? ==> r.Err?
    ensures r.Ok? ==> pos < next <= |ts| && WellFormed(r.value)
    ensures r.Ok? && ts[pos].name == "all" ==> r.value.All?
    ensures r.Ok? && ts[pos].name == "any" ==> r.value.Any?
    ensures r.Ok? && ts[pos].name == "not" ==> r.value.Not?
    ensures r.Ok? && ts[pos].name !in {"all", "any", "not"} ==> IsAtom(r.value) && r.value.generic == ts[pos].name
    decreases Size(ts[pos..]), 1
  {
    if pos == |ts| || !ts[pos].Ident? {
      r, next := Err("expected identifier"), pos;
      return;
    }
    var name := ts[pos].name;
    SizeSuffix(ts, pos);
    if name == "all" || name == "any" || name == "not" {
      var args;
      r, next, args := ParseAggregation(name, ts, pos + 1, parseType);
    } else {
      r, next := ParseTypeOrTrait(name, ts, pos + 1, parseType);
    }
  }

  /** `parse_aggregation`: a parenthesized, comma-separated, non-empty list of conditions;
    * `not` takes exactly one. `args` is the list of conditions read from the parentheses. */
  method ParseAggregation(ident: string, ts: seq<Token>, pos: nat, parseType: TypeParser)
      returns (r: Result<WhenCondition>, next: nat, args: seq<WhenCondition>)
    requires pos <= |ts| && Advances(parseType)
    ensures !(pos < |ts| && ts[pos].Group? && ts[pos].delim == Parenthesis) ==> r.Err?
    ensures pos < |ts| && ts[pos] == Group(Parenthesis, []) ==> r.Err?
    ensures args == [] || (ident == "not" && |args| != 1) || ident !in {"all", "any", "not"} ==> r.Err?
    ensures r.Ok? ==> next == pos + 1 && forall i | 0 <= i < |args| :: WellFormed(args[i])
    ensures r.Ok? && ident == "all" ==> r.value == All(args)
    ensures r.Ok? && ident == "any" ==> r.value == Any(args)
    ensures r.Ok? && ident == "not" ==> r.value == Not(args[0])
    ensures r.Ok? ==> WellFormed(r.value)
    decreases Size(ts[pos..]), 0
  {
    args := [];
    if !(pos < |ts| && ts[pos].Group? && ts[pos].delim == Parenthesis) {
      r, next := Err("expected parentheses"), pos;
      return;
    }
    var content := ts[pos].inner;
    SizeSuffix(ts, pos);
    var i := 0;
    while i < |content|
      invariant i <= |content|
      invariant forall k | 0 <= k < |args| :: WellFormed(args[k])
      invariant i == 0 ==> args == []
      decreases |content| - i
    {
      SizeSuffix(content, i);
      var c, after := ParseCondition(content, i, parseType);
      if c.Err? {
        r, next := Err(c.msg), pos;
        return;
      }
      args := args + [c.value];
      i := after;
      if IsPunct(content, i, ',') {
        i := i + 1;
      }
    }
    next := pos + 1;
    if args == [] {
      r := Err("requires at least one argument");
    } else if ident == "all" {
      r := Ok(All(args));
    } else if ident == "any" {
      r := Ok(Any(args));
    } else if ident == "not" {
      if |args| == 1 {
        r := Ok(Not(args[0]));
      } else {
        r := Err("`not` must have exactly one argument");
      }
    } else {
      r := Err("Unknown aggregation function");
    }
  }

  /** `WhenCondition::try_from(tokens)`: `syn::parse2` (the whole stream must be one
    * condition), then `normalize`. */
  method FromTokens(ts: seq<Token>, parseType: TypeParser) returns (r: Result<WhenCondition>)
    requires Advances(parseType)
    ensures ts == [] || !ts[0].Ident? ==> r.Err?
    ensures r.Ok? ==> ToDnf(r.value) == r.value && Dnf(r.value)
  {
    var c, next := ParseCondition(ts, 0, parseType);
    if c.Err? {
      return Err(c.msg);
    }
    if next < |ts| {
      return Err("unexpected token");
    }
    var n := Normalize(c.value);
    r := Ok(n);
  }

  // ============================================================ normalization

  /** A weight that decreases along every recursive call of `to_dnf`: De Morgan turns
    * `not(all(a, b))` into `any(not(a), not(b))`, so a negation weighs twice its operand. */
  function W(c: WhenCondition): (r: nat)
    ensures r >= 1
    decreases c
  {
    match c
    case All(cs) => 1 + WSum(cs)
    case Any(cs) => 1 + WSum(cs)
    case Not(x) => 2 * W(x)
    case _ => 1
  }

  function WSum(cs: seq<WhenCondition>): nat
    decreases cs
  {
    if cs == [] then 0 else W(cs[0]) + WSum(cs[1..])
  }

  /** `not(c)` for every `c`, in order. */
  function Negate(cs: seq<WhenCondition>): (r: seq<WhenCondition>)
    ensures |r| == |cs| && forall i | 0 <= i < |cs| :: r[i] == Not(cs[i])
  {
    seq(|cs|, i requires 0 <= i < |cs| => Not(cs[i]))
  }

  lemma {:induction false} NegateWeight(cs: seq<WhenCondition>)
    ensures WSum(Negate(cs)) == 2 * WSum(cs)
  {
    if cs != [] {
      assert Negate(cs)[1..] == Negate(cs[1..]);
      NegateWeight(cs[1..]);
    }
  }

  /** The disjuncts of a condition in DNF: the list under an `Any`, else the condition alone. */
  function Disjuncts(d: WhenCondition): (r: seq<WhenCondition>)
    ensures d.Any? ==> r == d.conds
    ensures !d.Any? ==> r == [d]
  {
    if d.Any? then d.conds else [d]
  }

  /** `existing + [c]` for every existing conjunction and every new disjunct `c`, existing
    * conjunctions outermost: the `flat_map` of `all_to_dnf`. */
  function Cross(acc: seq<seq<WhenCondition>>, ds: seq<WhenCondition>): (r: seq<seq<WhenCondition>>)
    ensures |r| == |acc| * |ds|
  {
    if acc == [] then []
    else seq(|ds|, j requires 0 <= j < |ds| => acc[0] + [ds[j]]) + Cross(acc[1..], ds)
  }

  /** The conjunctions after folding `Cross` over the disjuncts of every condition of `cs`. */
  function Product(acc: seq<seq<WhenCondition>>, cs: seq<WhenCondition>): seq<seq<WhenCondition>>
    decreases 1 + WSum(cs), 0
  {
    if cs == [] then acc else Product(Cross(acc, Disjuncts(ToDnf(cs[0]))), cs[1..])
  }

  /** The disjuncts of every condition of `cs` after `to_dnf`, one level of `Any` flattened. */
  function AnyDisjuncts(cs: seq<WhenCondition>): seq<WhenCondition>
    decreases 1 + WSum(cs), 0
  {
    if cs == [] then [] else Disjuncts(ToDnf(cs[0])) + AnyDisjuncts(cs[1..])
  }

  function AllToDnf(cs: seq<WhenCondition>): WhenCondition
    decreases 1 + WSum(cs), 1
  {
    FlattenAndDedup(Conjunctions(Product([[]], cs)), AnyWrapper)
  }

  /** One flattened `All` per conjunction of a disjunctive normal form. */
  function Conjunctions(dnf: seq<seq<WhenCondition>>): (r: seq<WhenCondition>)
    ensures |r| == |dnf| && forall k | 0 <= k < |dnf| :: r[k] == FlattenAndDedup(dnf[k], AllWrapper)
  {
    seq(|dnf|, k requires 0 <= k < |dnf| => FlattenAndDedup(dnf[k], AllWrapper))
  }

  function AnyToDnf(cs: seq<WhenCondition>): WhenCondition
    decreases 1 + WSum(cs), 1
  {
    FlattenAndDedup(AnyDisjuncts(cs), AnyWrapper)
  }

  function NotToDnf(x: WhenCondition): WhenCondition
    decreases 2 * W(x), 1
  {
    match x
    case All(inner) => NegateWeight(inner); ToDnf(Any(Negate(inner)))
    case Any(inner) => NegateWeight(inner); ToDnf(All(Negate(inner)))
    case Not(inner) => ToDnf(inner)
    case _ => Not(ToDnf(x))
  }

  /** `to_dnf`: one rewriting round towards disjunctive normal form. */
  function ToDnf(c: WhenCondition): WhenCondition
    decreases W(c), 2
  {
    match c
    case All(cs) => AllToDnf(cs)
    case Any(cs) => AnyToDnf(cs)
    case Not(x) => NotToDnf(x)
    case _ => c
  }

  // ------------------------------------------------------------ deduplication

  datatype Wrapper = AllWrapper | AnyWrapper

  function Wrap(w: Wrapper, cs: seq<WhenCondition>): WhenCondition {
    if w == AllWrapper then All(cs) else Any(cs)
  }

  /** The elements of `cs` not in `seen`, first occurrences only, in order. */
  function DedupFrom(cs: seq<WhenCondition>, seen: set<WhenCondition>): (r: seq<WhenCondition>)
    ensures forall x :: x in r <==> x in cs && x !in seen
    ensures Strings.NoDuplicates(r)
  {
    if cs == [] then []
    else if cs[0] in seen then DedupFrom(cs[1..], seen)
    else [cs[0]] + DedupFrom(cs[1..], seen + {cs[0]})
  }

  function Dedup(cs: seq<WhenCondition>): seq<WhenCondition> {
    DedupFrom(cs, {})
  }

  /** A list without repetitions is its own deduplication. */
  lemma {:induction false} DedupDistinct(cs: seq<WhenCondition>, seen: set<WhenCondition>)
    requires Strings.NoDuplicates(cs) && forall x :: x in cs ==> x !in seen
    ensures DedupFrom(cs, seen) == cs
  {
    if cs != [] {
      var t := cs[1..];
      Strings.NoDuplicatesTail(cs);
      assert forall x :: x in t ==> x in cs;
      DedupDistinct(t, seen + {cs[0]});
      assert cs == [cs[0]] + t;
    }
  }

  /** `flatten_and_deduplicate`: drop repeated conditions, unwrap a single survivor. */
  function FlattenAndDedup(cs: seq<WhenCondition>, w: Wrapper): WhenCondition {
    var u := Dedup(cs);
    if |u| == 1 then u[0] else Wrap(w, u)
  }

  lemma DedupFromStep(cs: seq<WhenCondition>, i: nat, seen: set<WhenCondition>)
    requires i < |cs|
    ensures cs[i] in seen ==> DedupFrom(cs[i..], seen) == DedupFrom(cs[i + 1..], seen)
    ensures cs[i] !in seen ==> DedupFrom(cs[i..], seen) == [cs[i]] + DedupFrom(cs[i + 1..], seen + {cs[i]})
  {
    assert cs[i..][0] == cs[i] && cs[i..][1..] == cs[i + 1..];
  }

  /** `flatten_and_deduplicate` as the source computes it, with a growing `seen` set. */
  method FlattenAndDeduplicate(cs: seq<WhenCondition>, w: Wrapper) returns (r: WhenCondition)
    ensures r == FlattenAndDedup(cs, w)
    ensures r in cs || r == Wrap(w, Dedup(cs))
  {
    var seen: set<WhenCondition> := {};
    var unique: seq<WhenCondition> := [];
    var i := 0;
    while i < |cs|
      invariant i <= |cs|
      invariant unique + DedupFrom(cs[i..], seen) == Dedup(cs)
    {
      DedupFromStep(cs, i, seen);
      if cs[i] !in seen {
        unique := unique + [cs[i]];
        seen := seen + {cs[i]};
      }
      i := i + 1;
    }
    assert cs[i..] == [];
    if |unique| == 1 {
      r := unique[0];
    } else {
      r := Wrap(w, unique);
    }
  }

  /** `all_to_dnf` as the source computes it: `dnf` starts as one empty conjunction and each
    * conjunct multiplies it by its disjuncts; then one `flatten_and_deduplicate` per
    * conjunction and one over the result. */
  method AllToDnfLoop(cs: seq<WhenCondition>) returns (r: WhenCondition)
    ensures r == AllToDnf(cs)
  {
    var dnf: seq<seq<WhenCondition>> := [[]];
    var i := 0;
    while i < |cs|
      invariant i <= |cs|
      invariant Product(dnf, cs[i..]) == Product([[]], cs)
    {
      assert cs[i..][1..] == cs[i + 1..];
      var condDnf := Disjuncts(ToDnf(cs[i]));
      dnf := Cross(dnf, condDnf);
      i := i + 1;
    }
    assert cs[i..] == [];
    var conjunctions: seq<WhenCondition> := [];
    var k := 0;
    while k < |dnf|
      invariant k <= |dnf|
      invariant conjunctions == seq(k, j requires 0 <= j < k => FlattenAndDedup(dnf[j], AllWrapper))
    {
      var c := FlattenAndDeduplicate(dnf[k], AllWrapper);
      conjunctions := conjunctions + [c];
      k := k + 1;
    }
    assert conjunctions == Conjunctions(dnf);
    r := FlattenAndDeduplicate(conjunctions, AnyWrapper);
  }

  /** `normalize`: apply `to_dnf` until it returns its argument. The loop stops after at most
    * two rounds because `to_dnf` is idempotent. */
  method Normalize(c: WhenCondition) returns (r: WhenCondition)
    ensures r == ToDnf(c)
    ensures ToDnf(r) == r
    ensures Dnf(r)
    ensures forall v: WhenCondition -> bool :: Eval(r, v) == Eval(c, v)
  {
    var current := c;
    var next := ToDnf(current);
    while next != current
      invariant next == ToDnf(current)
      invariant current == c || current == ToDnf(c)
      decreases if next == current then 0 else 1
    {
      ToDnfIdempotent(current);
      ToDnfIdempotent(c);
      current := next;
      next := ToDnf(current);
    }
    r := current;
    DnfToDnf(c);
    forall v: WhenCondition -> bool ensures Eval(r, v) == Eval(c, v) {
      EvalToDnf(c, v);
    }
  }

  // ============================================================ semantics

  /** The truth value of a condition when each `Type`/`Trait` atom has the value `v` gives it. */
  function Eval(c: WhenCondition, v: WhenCondition -> bool): bool
    decreases c
  {
    match c
    case All(cs) => forall i | 0 <= i < |cs| :: Eval(cs[i], v)
    case Any(cs) => exists i | 0 <= i < |cs| :: Eval(cs[i], v)
    case Not(x) => !Eval(x, v)
    case _ => v(c)
  }

  predicate EvalConj(conj: seq<WhenCondition>, v: WhenCondition -> bool) {
    forall i | 0 <= i < |conj| :: Eval(conj[i], v)
  }

  predicate EvalDisj(dnf: seq<seq<WhenCondition>>, v: WhenCondition -> bool) {
    exists k | 0 <= k < |dnf| :: EvalConj(dnf[k], v)
  }

  predicate SomeHolds(cs: seq<WhenCondition>, v: WhenCondition -> bool) {
    exists i | 0 <= i < |cs| :: Eval(cs[i], v)
  }

  lemma SameElementsOneWay(a: seq<WhenCondition>, b: seq<WhenCondition>, v: WhenCondition -> bool)
    requires forall x :: x in a ==> x in b
    ensures EvalConj(b, v) ==> EvalConj(a, v)
    ensures SomeHolds(a, v) ==> SomeHolds(b, v)
  {
    if EvalConj(b, v) {
      forall i | 0 <= i < |a| ensures Eval(a[i], v) {
        assert a[i] in b;
        var j :| 0 <= j < |b| && b[j] == a[i];
      }
    }
    if SomeHolds(a, v) {
      var i :| 0 <= i < |a| && Eval(a[i], v);
      assert a[i] in b;
      var j :| 0 <= j < |b| && b[j] == a[i];
    }
  }

  /** `All` and `Any` only depend on which conditions occur, not on order or repetition. */
  lemma SameElements(a: seq<WhenCondition>, b: seq<WhenCondition>, v: WhenCondition -> bool)
    requires forall x :: x in a <==> x in b
    ensures EvalConj(a, v) == EvalConj(b, v)
    ensures SomeHolds(a, v) == SomeHolds(b, v)
  {
    SameElementsOneWay(a, b, v);
    SameElementsOneWay(b, a, v);
  }

  lemma EvalDedup(cs: seq<WhenCondition>, w: Wrapper, v: WhenCondition -> bool)
    ensures Eval(FlattenAndDedup(cs, w), v) == Eval(Wrap(w, cs), v)
  {
    var u := Dedup(cs);
    SameElements(u, cs, v);
    if |u| == 1 {
      SameElements([u[0]], cs, v);
      assert EvalConj([u[0]], v) == Eval(u[0], v) by { assert [u[0]][0] == u[0]; }
      assert SomeHolds([u[0]], v) == Eval(u[0], v) by { assert [u[0]][0] == u[0]; }
    }
  }

  lemma EvalConjSnoc(conj: seq<WhenCondition>, x: WhenCondition, v: WhenCondition -> bool)
    ensures EvalConj(conj + [x], v) == (EvalConj(conj, v) && Eval(x, v))
  {
    assert (conj + [x])[|conj|] == x;
    assert forall i | 0 <= i < |conj| :: (conj + [x])[i] == conj[i];
  }

  lemma EvalDisjuncts(d: WhenCondition, v: WhenCondition -> bool)
    ensures (exists j | 0 <= j < |Disjuncts(d)| :: Eval(Disjuncts(d)[j], v)) == Eval(d, v)
  {
    if d.Any? {
      assert Disjuncts(d) == d.conds;
    } else {
      assert Disjuncts(d) == [d];
      if Eval(d, v) {
        assert Eval(Disjuncts(d)[0], v);
      }
    }
  }

  lemma {:induction false} EvalCross(acc: seq<seq<WhenCondition>>, ds: seq<WhenCondition>, v: WhenCondition -> bool)
    ensures EvalDisj(Cross(acc, ds), v) == (EvalDisj(acc, v) && exists j | 0 <= j < |ds| :: Eval(ds[j], v))
  {
    if acc != [] {
      var head := seq(|ds|, j requires 0 <= j < |ds| => acc[0] + [ds[j]]);
      assert Cross(acc, ds) == head + Cross(acc[1..], ds);
      EvalDisjAppend(head, Cross(acc[1..], ds), v);
      EvalCross(acc[1..], ds, v);
      EvalCrossHead(acc[0], ds, v);
      EvalDisjCons(acc, v);
    }
  }

  /** Some conjunction of `x + y` holds exactly when one of `x` or one of `y` does. */
  lemma EvalDisjAppend(x: seq<seq<WhenCondition>>, y: seq<seq<WhenCondition>>, v: WhenCondition -> bool)
    ensures EvalDisj(x + y, v) == (EvalDisj(x, v) || EvalDisj(y, v))
  {
    var xy := x + y;
    if EvalDisj(xy, v) {
      var k :| 0 <= k < |xy| && EvalConj(xy[k], v);
      if k < |x| {
        assert xy[k] == x[k];
      } else {
        assert xy[k] == y[k - |x|];
      }
    }
    if EvalDisj(x, v) {
      var k :| 0 <= k < |x| && EvalConj(x[k], v);
      assert xy[k] == x[k];
    }
    if EvalDisj(y, v) {
      var k :| 0 <= k < |y| && EvalConj(y[k], v);
      assert xy[|x| + k] == y[k];
    }
  }

  lemma EvalDisjCons(acc: seq<seq<WhenCondition>>, v: WhenCondition -> bool)
    requires acc != []
    ensures EvalDisj(acc, v) == (EvalConj(acc[0], v) || EvalDisj(acc[1..], v))
  {
    if EvalDisj(acc, v) {
      var k :| 0 <= k < |acc| && EvalConj(acc[k], v);
      if k > 0 {
        assert acc[1..][k - 1] == acc[k];
      }
    }
    if EvalDisj(acc[1..], v) {
      var k :| 0 <= k < |acc[1..]| && EvalConj(acc[1..][k], v);
      assert acc[1..][k] == acc[k + 1];
    }
  }

  /** The conjunctions `conj + [d]` for every `d` of `ds`: one holds exactly when `conj` and some
    * `d` do. */
  lemma EvalCrossHead(conj: seq<WhenCondition>, ds: seq<WhenCondition>, v: WhenCondition -> bool)
    ensures EvalDisj(seq(|ds|, j requires 0 <= j < |ds| => conj + [ds[j]]), v) ==
            (EvalConj(conj, v) && exists j | 0 <= j < |ds| :: Eval(ds[j], v))
  {
    var head := seq(|ds|, j requires 0 <= j < |ds| => conj + [ds[j]]);
    forall j | 0 <= j < |ds| ensures EvalConj(head[j], v) == (EvalConj(conj, v) && Eval(ds[j], v)) {
      EvalConjSnoc(conj, ds[j], v);
    }
    if EvalDisj(head, v) {
      var k :| 0 <= k < |head| && EvalConj(head[k], v);
      assert Eval(ds[k], v);
    }
  }

  /** `to_dnf` preserves the truth value of a condition under every assignment to its atoms. */
  lemma {:induction false} EvalToDnf(c: WhenCondition, v: WhenCondition -> bool)
    ensures Eval(ToDnf(c), v) == Eval(c, v)
    decreases W(c), 2
  {
    match c
    case All(cs) => EvalAllToDnf(cs, v);
    case Any(cs) =>
      EvalAnyDisjuncts(cs, v);
      EvalDedup(AnyDisjuncts(cs), AnyWrapper, v);
    case Not(x) => EvalNotToDnf(x, v);
    case _ =>
  }

  lemma {:induction false} EvalNotToDnf(x: WhenCondition, v: WhenCondition -> bool)
    ensures Eval(NotToDnf(x), v) == !Eval(x, v)
    decreases 2 * W(x), 1
  {
    match x
    case All(inner) =>
      NegateWeight(inner);
      EvalToDnf(Any(Negate(inner)), v);
    case Any(inner) =>
      NegateWeight(inner);
      EvalToDnf(All(Negate(inner)), v);
    case Not(inner) => EvalToDnf(inner, v);
    case _ => EvalToDnf(x, v);
  }

  lemma {:induction false} EvalAnyDisjuncts(cs: seq<WhenCondition>, v: WhenCondition -> bool)
    ensures (exists k | 0 <= k < |AnyDisjuncts(cs)| :: Eval(AnyDisjuncts(cs)[k], v)) == (exists i | 0 <= i < |cs| :: Eval(cs[i], v))
    decreases 1 + WSum(cs), 0
  {
    if cs != [] {
      var d := Disjuncts(ToDnf(cs[0]));
      var rest := AnyDisjuncts(cs[1..]);
      EvalToDnf(cs[0], v);
      EvalDisjuncts(ToDnf(cs[0]), v);
      EvalAnyDisjuncts(cs[1..], v);
      assert AnyDisjuncts(cs) == d + rest;
      if exists k | 0 <= k < |d + rest| :: Eval((d + rest)[k], v) {
        var k :| 0 <= k < |d + rest| && Eval((d + rest)[k], v);
        if k >= |d| {
          assert rest[k - |d|] == (d + rest)[k];
          var i :| 0 <= i < |cs[1..]| && Eval(cs[1..][i], v);
          assert cs[1..][i] == cs[i + 1];
        }
      }
      if exists i | 0 <= i < |cs| :: Eval(cs[i], v) {
        var i :| 0 <= i < |cs| && Eval(cs[i], v);
        if i == 0 {
          var j :| 0 <= j < |d| && Eval(d[j], v);
          assert (d + rest)[j] == d[j];
        } else {
          assert cs[1..][i - 1] == cs[i];
          var j :| 0 <= j < |rest| && Eval(rest[j], v);
          assert (d + rest)[|d| + j] == rest[j];
        }
      }
    }
  }

  lemma {:induction false} EvalProduct(acc: seq<seq<WhenCondition>>, cs: seq<WhenCondition>, v: WhenCondition -> bool)
    ensures EvalDisj(Product(acc, cs), v) == (EvalDisj(acc, v) && forall i | 0 <= i < |cs| :: Eval(cs[i], v))
    decreases 1 + WSum(cs), 0
  {
    if cs != [] {
      var d := Disjuncts(ToDnf(cs[0]));
      EvalToDnf(cs[0], v);
      EvalDisjuncts(ToDnf(cs[0]), v);
      EvalCross(acc, d, v);
      EvalProduct(Cross(acc, d), cs[1..], v);
      assert (forall i | 0 <= i < |cs| :: Eval(cs[i], v)) <==> Eval(cs[0], v) && (forall i | 0 <= i < |cs[1..]| :: Eval(cs[1..][i], v)) by {
        assert forall i | 0 <= i < |cs[1..]| :: cs[1..][i] == cs[i + 1];
        if Eval(cs[0], v) && (forall i | 0 <= i < |cs[1..]| :: Eval(cs[1..][i], v)) {
          forall i | 0 <= i < |cs| ensures Eval(cs[i], v) {
            if i > 0 { assert cs[1..][i - 1] == cs[i]; }
          }
        }
      }
    }
  }

  lemma EvalAllToDnf(cs: seq<WhenCondition>, v: WhenCondition -> bool)
    ensures Eval(AllToDnf(cs), v) == (forall i | 0 <= i < |cs| :: Eval(cs[i], v))
    decreases 1 + WSum(cs), 1
  {
    var dnf := Product([[]], cs);
    assert EvalDisj(dnf, v) == (forall i | 0 <= i < |cs| :: Eval(cs[i], v)) by {
      EvalProduct([[]], cs, v);
      assert EvalDisj([[]], v) by { assert EvalConj([[]][0], v); }
    }
    EvalDedup(Conjunctions(dnf), AnyWrapper, v);
    EvalConjunctions(dnf, v);
  }

  /** The `Any` of the flattened conjunctions holds exactly when some conjunction does. */
  lemma EvalConjunctions(dnf: seq<seq<WhenCondition>>, v: WhenCondition -> bool)
    ensures Eval(Any(Conjunctions(dnf)), v) == EvalDisj(dnf, v)
  {
    var conj := Conjunctions(dnf);
    forall k | 0 <= k < |dnf| ensures Eval(conj[k], v) == EvalConj(dnf[k], v) {
      EvalDedup(dnf[k], AllWrapper, v);
    }
    if EvalDisj(dnf, v) {
      var k :| 0 <= k < |dnf| && EvalConj(dnf[k], v);
      assert Eval(conj[k], v);
    }
  }

  // ============================================================ normal form

  /** A conjunctive term: an atom, a negated atom, or a duplicate-free `All` of terms that is
    * not a singleton. */
  predicate Term(c: WhenCondition)
    decreases c
  {
    IsAtom(c) || (c.Not? && IsAtom(c.cond)) ||
    (c.All? && Strings.NoDuplicates(c.conds) && |c.conds| != 1 && forall i | 0 <= i < |c.conds| :: Term(c.conds[i]))
  }

  /** Disjunctive normal form: a term, or a duplicate-free `Any` of terms that is not a
    * singleton. `Not` occurs only directly around an atom. */
  predicate Dnf(c: WhenCondition) {
    Term(c) || (c.Any? && Strings.NoDuplicates(c.conds) && |c.conds| != 1 && forall i | 0 <= i < |c.conds| :: Term(c.conds[i]))
  }

  predicate AllTerms(cs: seq<WhenCondition>) {
    forall i | 0 <= i < |cs| :: Term(cs[i])
  }

  lemma FlattenTerms(cs: seq<WhenCondition>, w: Wrapper)
    requires AllTerms(cs)
    ensures w == AllWrapper ==> Term(FlattenAndDedup(cs, w))
    ensures Dnf(FlattenAndDedup(cs, w))
  {
    var u := Dedup(cs);
    forall i | 0 <= i < |u| ensures Term(u[i]) {
      assert u[i] in cs;
      var j :| 0 <= j < |cs| && cs[j] == u[i];
    }
  }

  lemma DisjunctsTerms(d: WhenCondition)
    requires Dnf(d)
    ensures AllTerms(Disjuncts(d))
  {
  }

  lemma {:induction false} CrossTerms(acc: seq<seq<WhenCondition>>, ds: seq<WhenCondition>)
    requires forall k | 0 <= k < |acc| :: AllTerms(acc[k])
    requires AllTerms(ds)
    ensures forall k | 0 <= k < |Cross(acc, ds)| :: AllTerms(Cross(acc, ds)[k])
  {
    if acc != [] {
      CrossTerms(acc[1..], ds);
      var head := seq(|ds|, j requires 0 <= j < |ds| => acc[0] + [ds[j]]);
      assert Cross(acc, ds) == head + Cross(acc[1..], ds);
      forall k | 0 <= k < |Cross(acc, ds)| ensures AllTerms(Cross(acc, ds)[k]) {
        if k < |head| {
          assert Cross(acc, ds)[k] == acc[0] + [ds[k]];
        } else {
          assert Cross(acc, ds)[k] == Cross(acc[1..], ds)[k - |head|];
        }
      }
    }
  }

  /** Every result of `to_dnf` is in disjunctive normal form. */
  lemma {:induction false} DnfToDnf(c: WhenCondition)
    ensures Dnf(ToDnf(c))
    decreases W(c), 2
  {
    match c
    case All(cs) => DnfAllToDnf(cs);
    case Any(cs) =>
      TermsAnyDisjuncts(cs);
      FlattenTerms(AnyDisjuncts(cs), AnyWrapper);
    case Not(x) => DnfNotToDnf(x);
    case _ =>
  }

  lemma {:induction false} DnfNotToDnf(x: WhenCondition)
    ensures Dnf(NotToDnf(x))
    decreases 2 * W(x), 1
  {
    match x
    case All(inner) =>
      NegateWeight(inner);
      DnfToDnf(Any(Negate(inner)));
    case Any(inner) =>
      NegateWeight(inner);
      DnfToDnf(All(Negate(inner)));
    case Not(inner) => DnfToDnf(inner);
    case _ =>
  }

  lemma {:induction false} TermsAnyDisjuncts(cs: seq<WhenCondition>)
    ensures AllTerms(AnyDisjuncts(cs))
    decreases 1 + WSum(cs), 0
  {
    if cs != [] {
      DnfToDnf(cs[0]);
      DisjunctsTerms(ToDnf(cs[0]));
      TermsAnyDisjuncts(cs[1..]);
    }
  }

  lemma {:induction false} TermsProduct(acc: seq<seq<WhenCondition>>, cs: seq<WhenCondition>)
    requires forall k | 0 <= k < |acc| :: AllTerms(acc[k])
    ensures forall k | 0 <= k < |Product(acc, cs)| :: AllTerms(Product(acc, cs)[k])
    decreases 1 + WSum(cs), 0
  {
    if cs != [] {
      DnfToDnf(cs[0]);
      DisjunctsTerms(ToDnf(cs[0]));
      CrossTerms(acc, Disjuncts(ToDnf(cs[0])));
      TermsProduct(Cross(acc, Disjuncts(ToDnf(cs[0]))), cs[1..]);
    }
  }

  lemma DnfAllToDnf(cs: seq<WhenCondition>)
    ensures Dnf(AllToDnf(cs))
    decreases 1 + WSum(cs), 1
  {
    var dnf := Product([[]], cs);
    TermsProduct([[]], cs);
    var conj := Conjunctions(dnf);
    forall k | 0 <= k < |dnf| ensures Term(conj[k]) {
      FlattenTerms(dnf[k], AllWrapper);
    }
    FlattenTerms(conj, AnyWrapper);
  }

  /** `Product` of a single conjunction with conditions that are their own only disjunct. */
  lemma {:induction false} ProductOfFixedTerms(acc0: seq<WhenCondition>, cs: seq<WhenCondition>)
    requires forall i | 0 <= i < |cs| :: ToDnf(cs[i]) == cs[i] && !cs[i].Any?
    ensures Product([acc0], cs) == [acc0 + cs]
    decreases |cs|
  {
    if cs == [] {
      assert acc0 + cs == acc0;
    } else {
      assert Disjuncts(ToDnf(cs[0])) == [cs[0]];
      assert Cross([acc0], [cs[0]]) == [acc0 + [cs[0]]] by {
        assert [acc0][1..] == [];
      }
      ProductOfFixedTerms(acc0 + [cs[0]], cs[1..]);
      assert acc0 + [cs[0]] + cs[1..] == acc0 + cs;
    }
  }

  lemma {:induction false} AnyDisjunctsOfFixedTerms(cs: seq<WhenCondition>)
    requires forall i | 0 <= i < |cs| :: ToDnf(cs[i]) == cs[i] && !cs[i].Any?
    ensures AnyDisjuncts(cs) == cs
    decreases |cs|
  {
    if cs != [] {
      AnyDisjunctsOfFixedTerms(cs[1..]);
    }
  }

  /** A condition already in normal form is left unchanged by `to_dnf`. */
  lemma {:induction false} DnfFixed(c: WhenCondition)
    requires Dnf(c)
    ensures ToDnf(c) == c
    decreases c, 1
  {
    match c
    case All(cs) => DnfFixedAll(cs);
    case Any(ds) => DnfFixedAny(ds);
    case Not(x) =>
      assert IsAtom(x);
      assert NotToDnf(x) == Not(ToDnf(x));
    case _ =>
  }

  lemma {:induction false} DnfFixedAll(cs: seq<WhenCondition>)
    requires Term(All(cs))
    ensures AllToDnf(cs) == All(cs)
    decreases All(cs), 0
  {
    forall i | 0 <= i < |cs| ensures ToDnf(cs[i]) == cs[i] && !cs[i].Any? {
      DnfFixed(cs[i]);
    }
    ProductOfFixedTerms([], cs);
    assert [] + cs == cs;
    DedupDistinct(cs, {});
    assert FlattenAndDedup(cs, AllWrapper) == All(cs);
    var conj := seq(1, k requires 0 <= k < 1 => FlattenAndDedup([cs][k], AllWrapper));
    assert conj == [All(cs)];
    DedupDistinct([All(cs)], {});
  }

  lemma {:induction false} DnfFixedAny(ds: seq<WhenCondition>)
    requires Dnf(Any(ds))
    ensures AnyToDnf(ds) == Any(ds)
    decreases Any(ds), 0
  {
    forall i | 0 <= i < |ds| ensures ToDnf(ds[i]) == ds[i] && !ds[i].Any? {
      DnfFixed(ds[i]);
    }
    AnyDisjunctsOfFixedTerms(ds);
    DedupDistinct(ds, {});
  }

  /** `to_dnf` is idempotent, so `normalize` reaches its fixpoint after one round. */
  lemma ToDnfIdempotent(c: WhenCondition)
    ensures ToDnf(ToDnf(c)) == ToDnf(c)
  {
    DnfToDnf(c);
    DnfFixed(ToDnf(c));
  }
}
