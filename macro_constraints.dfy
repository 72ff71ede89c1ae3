/** The constraints the macro crate accumulates per generic while it checks a `when`
  * condition, and how it ranks them (`crates/spec-trait-macro/src/constraints.rs`). */
module MacroConstraints {
  import opened Wrappers

  /** `Constraint`: what a condition has required of one generic. */
  datatype Constraint = Constraint(
    type_: Option<string>,
    traits: seq<string>,
    notTypes: seq<string>,
    notTraits: seq<string>)

  /** `Constraint::default()`. */
  function Default(): Constraint {
    Constraint(None, [], [], [])
  }

  /** `Constraints`: a map from generic name to its constraint. */
  type Constraints = map<string, Constraint>

  /** `Ordering::then`: the first comparison unless it is `Equal`. */
  function Then(first: Ordering, second: Ordering): (r: Ordering)
    ensures first != Equal ==> r == first
    ensures first == Equal ==> r == second
  {
    if first == Equal then second else first
  }

  /** The four measures the order looks at, and nothing else. */
  function Measures(c: Constraint): (nat, nat, nat, nat) {
    (BoolRank(c.type_.Some?), |c.traits|, |c.notTypes|, |c.notTraits|)
  }

  /** `Ord for Constraint`. */
  function Compare(a: Constraint, b: Constraint): (r: Ordering)
    ensures r == Equal <==> Measures(a) == Measures(b)
  {
    Then(CmpInt(BoolRank(a.type_.Some?), BoolRank(b.type_.Some?)),
      Then(CmpInt(|a.traits|, |b.traits|),
        Then(CmpInt(|a.notTypes|, |b.notTypes|),
          CmpInt(|a.notTraits|, |b.notTraits|))))
  }

  /** The order is lexicographic on (type present, number of traits, number of forbidden types,
    * number of forbidden traits). */
  lemma CompareLexicographic(a: Constraint, b: Constraint)
    ensures Compare(a, b) == Greater <==>
      var (x, y) := (Measures(a), Measures(b));
      x.0 > y.0 || (x.0 == y.0 && (x.1 > y.1 || (x.1 == y.1 && (x.2 > y.2 || (x.2 == y.2 && x.3 > y.3)))))
  {
  }

  /** `Compare` is a total order on the measures: swapping the arguments reverses it. */
  lemma CompareAntisymmetric(a: Constraint, b: Constraint)
    ensures Compare(b, a) == Compare(a, b).Reverse()
  {
  }

  lemma CompareTransitive(a: Constraint, b: Constraint, c: Constraint)
    requires Compare(a, b) == Greater && Compare(b, c) == Greater
    ensures Compare(a, c) == Greater
  {
    CompareLexicographic(a, b);
    CompareLexicographic(b, c);
    CompareLexicographic(a, c);
  }

  /** `PartialEq for Constraint` compares the measures only, so constraints naming different
    * types and traits are equal. */
  predicate Same(a: Constraint, b: Constraint) {
    Compare(a, b) == Equal
  }

  lemma EqualConstraintsExample()
    ensures Same(Constraint(Some("TypeA"), ["Trait1"], ["NotType1"], ["NotTrait1"]),
                 Constraint(Some("TypeB"), ["Trait2"], ["NotType2"], ["NotTrait2"]))
  {
  }

  // ------------------------------------------------------------ comparing constraint maps

  /** The vote of one generic: compare both constraints, or favour the side that has one. */
  function Vote(a: Constraints, b: Constraints, k: string): (r: Ordering)
    ensures k in a && k !in b ==> r == Greater
    ensures k !in a && k in b ==> r == Less
    ensures k !in a && k !in b ==> r == Equal
  {
    if k in a && k in b then Compare(a[k], b[k])
    else if k in a then Greater
    else if k in b then Less
    else Equal
  }

  function VoteValue(o: Ordering): (r: int)
    ensures -1 <= r <= 1
    ensures (r == 1 <==> o == Greater) && (r == -1 <==> o == Less)
  {
    match o
    case Greater => 1
    case Less => -1
    case Equal => 0
  }

  /** The sum of the votes over `keys`. Addition is commutative, so the order in which the keys
    * are visited (sorted, in the source) does not matter; `VoteSumRemove` proves it. */
  ghost function VoteSum(a: Constraints, b: Constraints, keys: set<string>): int
    decreases |keys|
  {
    if keys == {} then 0
    else
      var k :| k in keys;
      VoteValue(Vote(a, b, k)) + VoteSum(a, b, keys - {k})
  }

  /** Any key can be taken out of the sum first. */
  lemma {:induction false} VoteSumRemove(a: Constraints, b: Constraints, keys: set<string>, k: string)
    requires k in keys
    ensures VoteSum(a, b, keys) == VoteValue(Vote(a, b, k)) + VoteSum(a, b, keys - {k})
    decreases |keys|
  {
    var j :| j in keys && VoteSum(a, b, keys) == VoteValue(Vote(a, b, j)) + VoteSum(a, b, keys - {j});
    if j != k {
      VoteSumRemove(a, b, keys - {j}, k);
      VoteSumRemove(a, b, keys - {k}, j);
      assert keys - {j} - {k} == keys - {k} - {j};
    }
  }

  /** `cmp_constraints` as a specification: the sign of the vote sum over every generic named
    * on either side. */
  ghost function CmpConstraintsSpec(a: Constraints, b: Constraints): Ordering {
    CmpInt(VoteSum(a, b, a.Keys + b.Keys), 0)
  }

  /** `cmp_constraints`: visits every key of either map once and adds up the votes. */
  method CmpConstraints(a: Constraints, b: Constraints) returns (r: Ordering)
    ensures r == CmpConstraintsSpec(a, b)
  {
    ghost var all := a.Keys + b.Keys;
    var keys := a.Keys + b.Keys;
    var sum := 0;
    while keys != {}
      invariant keys <= all
      invariant sum + VoteSum(a, b, keys) == VoteSum(a, b, all)
      decreases |keys|
    {
      var k :| k in keys;
      VoteSumRemove(a, b, keys, k);
      sum := sum + VoteValue(Vote(a, b, k));
      keys := keys - {k};
    }
    r := CmpInt(sum, 0);
  }

  /** Swapping the maps negates every vote, hence the sum. */
  lemma {:induction false} VoteSumSwap(a: Constraints, b: Constraints, keys: set<string>)
    ensures VoteSum(b, a, keys) == -VoteSum(a, b, keys)
    decreases |keys|
  {
    if keys != {} {
      var k :| k in keys;
      VoteSumRemove(a, b, keys, k);
      VoteSumRemove(b, a, keys, k);
      CompareAntisymmetric(if k in a then a[k] else Default(), if k in b then b[k] else Default());
      VoteSumSwap(a, b, keys - {k});
    }
  }

  /** `cmp_constraints(b, a)` is the reverse of `cmp_constraints(a, b)`. */
  lemma CmpConstraintsAntisymmetric(a: Constraints, b: Constraints)
    ensures CmpConstraintsSpec(b, a) == CmpConstraintsSpec(a, b).Reverse()
  {
    VoteSumSwap(a, b, a.Keys + b.Keys);
    assert b.Keys + a.Keys == a.Keys + b.Keys;
  }

  lemma {:induction false} VoteSumSelf(a: Constraints, keys: set<string>)
    ensures VoteSum(a, a, keys) == 0
    decreases |keys|
  {
    if keys != {} {
      var k :| k in keys;
      VoteSumRemove(a, a, keys, k);
      VoteSumSelf(a, keys - {k});
    }
  }

  /** A map of constraints compares `Equal` to itself. */
  lemma CmpConstraintsReflexive(a: Constraints)
    ensures CmpConstraintsSpec(a, a) == Equal
  {
    VoteSumSelf(a, a.Keys + a.Keys);
  }

  /** The test case: `T` is more constrained on the left, `V` exists only on the left and `U`
    * only on the right, so the left side wins by one vote. */
  lemma CmpConstraintsExample()
    ensures
      var c1 := map["T" := Constraint(Some("TypeA"), ["Trait1"], [], []), "V" := Constraint(Some("TypeA"), [], [], [])];
      var c2 := map["T" := Constraint(Some("TypeB"), [], [], []), "U" := Constraint(None, ["Trait2"], [], [])];
      CmpConstraintsSpec(c1, c2) == Greater
  {
    var c1 := map["T" := Constraint(Some("TypeA"), ["Trait1"], [], []), "V" := Constraint(Some("TypeA"), [], [], [])];
    var c2 := map["T" := Constraint(Some("TypeB"), [], [], []), "U" := Constraint(None, ["Trait2"], [], [])];
    var keys := c1.Keys + c2.Keys;
    assert keys == {"T", "U", "V"};
    VoteSumRemove(c1, c2, keys, "T");
    assert keys - {"T"} == {"U", "V"};
    VoteSumRemove(c1, c2, {"U", "V"}, "U");
    assert {"U", "V"} - {"U"} == {"V"};
    VoteSumRemove(c1, c2, {"V"}, "V");
    assert {"V"} - {"V"} == {};
  }

  // ------------------------------------------------------------ reverse

  /** The list holding the value of an option, if any. */
  function OptionToSeq(o: Option<string>): (r: seq<string>)
    ensures |r| <= 1 && (o.Some? <==> |r| == 1) && (o.Some? ==> r[0] == o.value)
  {
    if o.Some? then [o.value] else []
  }

  /** `Constraint::reverse`: what was required becomes forbidden and the other way round; more
    * than one forbidden type cannot become a single required type and panics. */
  function Reverse(c: Constraint): (r: Result<Constraint>)
    ensures r.Err? <==> |c.notTypes| > 1
    ensures r.Ok? ==> r.value.traits == c.notTraits && r.value.notTraits == c.traits
    ensures r.Ok? ==> r.value.notTypes == OptionToSeq(c.type_)
    ensures r.Ok? ==> (r.value.type_.Some? <==> |c.notTypes| == 1)
    ensures r.Ok? && |c.notTypes| == 1 ==> r.value.type_ == Some(c.notTypes[0])
  {
    if |c.notTypes| > 1 then Err("can't reverse with multiple not_types")
    else Ok(Constraint(
      if |c.notTypes| == 1 then Some(c.notTypes[0]) else None,
      c.notTraits,
      OptionToSeq(c.type_),
      c.traits))
  }

  /** Reversing twice gives back the constraint whenever it has at most one forbidden type. */
  lemma ReverseInvolution(c: Constraint)
    requires |c.notTypes| <= 1
    ensures Reverse(c).Ok? && Reverse(Reverse(c).value) == Ok(c)
  {
    var r := Reverse(c).value;
    assert |r.notTypes| <= 1;
    if |c.notTypes| == 0 {
      assert c.notTypes == [];
    } else {
      assert c.notTypes == [c.notTypes[0]];
    }
  }
}
