/** Fresh generic names made from a counter, as the three `replace_infers` of the utilities crate
  * do (`__G_{n}__`, `{prefix}__G_{n}__`, `__W{n}`): the names, why the search for an unused one
  * ends, and the state the name source threads through a rewrite. */
module FreshNames {
  import Strings
  import opened Syntax

  /** A name pattern: the text before and after the decimal counter. */
  datatype Pattern = Pattern(pre: string, post: string)

  /** The name tried for counter value `n`. */
  function Name(p: Pattern, n: nat): string {
    p.pre + Strings.Decimal(n) + p.post
  }

  /** Different counter values give different names. */
  lemma NameInjective(p: Pattern, a: nat, b: nat)
    ensures Name(p, a) == Name(p, b) <==> a == b
  {
    if Name(p, a) == Name(p, b) {
      Strings.CounterNameInjective(p.pre, p.post, a, b);
    }
  }

  /** The names for counter values `lo, …, hi - 1`. */
  function NameSet(p: Pattern, lo: nat, hi: nat): (r: set<string>)
    ensures forall k :: lo <= k < hi ==> Name(p, k) in r
    decreases hi
  {
    if hi <= lo then {} else NameSet(p, lo, hi - 1) + {Name(p, hi - 1)}
  }

  lemma {:induction false} NameSetSize(p: Pattern, lo: nat, hi: nat)
    requires lo <= hi
    ensures |NameSet(p, lo, hi)| == hi - lo
    decreases hi
  {
    if lo < hi {
      NameSetSize(p, lo, hi - 1);
      NameSetBelow(p, lo, hi - 1, hi - 1);
    }
  }

  lemma {:induction false} NameSetBelow(p: Pattern, lo: nat, hi: nat, m: nat)
    requires hi <= m
    ensures Name(p, m) !in NameSet(p, lo, hi)
    decreases hi
  {
    if lo < hi {
      NameSetBelow(p, lo, hi - 1, m);
      NameInjective(p, hi - 1, m);
    }
  }

  lemma {:induction false} NameSetWithin(p: Pattern, lo: nat, hi: nat, generics: set<string>)
    requires forall k :: lo <= k < hi ==> Name(p, k) in generics
    ensures NameSet(p, lo, hi) <= generics
    decreases hi
  {
    if lo < hi {
      NameSetWithin(p, lo, hi - 1, generics);
    }
  }

  lemma {:induction false} NameSetMono(p: Pattern, lo: nat, mid: nat, hi: nat)
    requires lo <= mid <= hi
    ensures NameSet(p, lo, mid) <= NameSet(p, lo, hi)
    ensures NameSet(p, mid, hi) <= NameSet(p, lo, hi)
    decreases hi
  {
    if mid < hi {
      NameSetMono(p, lo, mid, hi - 1);
    }
  }

  lemma SubsetCard(a: set<string>, b: set<string>)
    requires a <= b
    ensures |a| <= |b|
  {
    assert b == a + (b - a);
  }

  /** A set holding the names for `hi - lo` counter values has at least that many members: the
    * measure that bounds every search for an unused name. */
  lemma TakenBound(p: Pattern, lo: nat, hi: nat, generics: set<string>)
    requires lo <= hi
    requires forall k :: lo <= k < hi ==> Name(p, k) in generics
    ensures hi - lo <= |generics|
  {
    NameSetSize(p, lo, hi);
    NameSetWithin(p, lo, hi, generics);
    SubsetCard(NameSet(p, lo, hi), generics);
  }

  // ------------------------------------------------------------ the state of a rewrite

  /** The three values a `replace_infers` threads through its recursion by `&mut`: the names in
    * use, the counter, and the list of names created so far. */
  datatype Namer = Namer(generics: set<string>, counter: nat, newGenerics: seq<string>)

  /** The names `s1` added to `s0`'s list. */
  function Added(s0: Namer, s1: Namer): seq<string>
    requires |s0.newGenerics| <= |s1.newGenerics|
  {
    s1.newGenerics[|s0.newGenerics|..]
  }

  function Elems(names: seq<string>): set<string> {
    set x | x in names
  }

  /** `names` are distinct, none of them was in `generics`, and each is the name for a counter
    * value in `[lo, hi)`. */
  predicate Fresh(p: Pattern, names: seq<string>, generics: set<string>, lo: nat, hi: nat) {
    lo <= hi && Strings.NoDuplicates(names) &&
    forall i :: 0 <= i < |names| ==> names[i] !in generics && names[i] in NameSet(p, lo, hi)
  }

  lemma FreshConcat(p: Pattern, a: seq<string>, b: seq<string>, generics: set<string>, lo: nat, mid: nat, hi: nat)
    requires Fresh(p, a, generics, lo, mid) && Fresh(p, b, generics + Elems(a), mid, hi)
    ensures Fresh(p, a + b, generics, lo, hi)
  {
    NameSetMono(p, lo, mid, hi);
    var ab := a + b;
    forall i | 0 <= i < |ab| ensures ab[i] !in generics && ab[i] in NameSet(p, lo, hi) {
      if i >= |a| {
        assert ab[i] == b[i - |a|];
      }
    }
    forall i, j | 0 <= i < j < |ab| ensures ab[i] != ab[j] {
      if i < |a| <= j {
        assert ab[i] == a[i] && ab[j] == b[j - |a|];
        assert a[i] in Elems(a);
      }
    }
  }

  /** No name from counter value `s.counter` on is taken yet. */
  ghost predicate Clean(p: Pattern, s: Namer) {
    forall k :: k >= s.counter ==> Name(p, k) !in s.generics
  }

  /** The names for counter values `c, c + 1, …, c + n - 1`, in order. */
  function Names(p: Pattern, c: nat, n: nat): (r: seq<string>)
    ensures |r| == n && forall i :: 0 <= i < n ==> r[i] == Name(p, c + i)
  {
    seq(n, i requires 0 <= i < n => Name(p, c + i))
  }

  /** `s1` is `s0` after `n` fresh names were made: they are appended to the list and inserted
    * in the set, and from a clean state they are the next `n` names of the pattern, in order. */
  ghost predicate Extends(p: Pattern, s0: Namer, s1: Namer, n: nat) {
    |s1.newGenerics| == |s0.newGenerics| + n && s1.newGenerics[..|s0.newGenerics|] == s0.newGenerics &&
    Fresh(p, Added(s0, s1), s0.generics, s0.counter, s1.counter) &&
    s1.generics == s0.generics + Elems(Added(s0, s1)) &&
    (Clean(p, s0) ==> Added(s0, s1) == Names(p, s0.counter, n) && s1.counter == s0.counter + n && Clean(p, s1))
  }

  lemma ExtendsRefl(p: Pattern, s: Namer)
    ensures Extends(p, s, s, 0)
  {
    assert Added(s, s) == [];
    assert Elems([]) == {};
    assert Names(p, s.counter, 0) == [];
  }

  lemma {:induction false} ExtendsTrans(p: Pattern, s0: Namer, s1: Namer, s2: Namer, n: nat, m: nat)
    requires Extends(p, s0, s1, n) && Extends(p, s1, s2, m)
    ensures Extends(p, s0, s2, n + m)
    ensures Added(s0, s2) == Added(s0, s1) + Added(s1, s2)
  {
    var a, b := Added(s0, s1), Added(s1, s2);
    assert s2.newGenerics == s0.newGenerics + a + b;
    assert Added(s0, s2) == a + b;
    assert s2.newGenerics[..|s0.newGenerics|] == s0.newGenerics;
    FreshConcat(p, a, b, s0.generics, s0.counter, s1.counter, s2.counter);
    assert Elems(a + b) == Elems(a) + Elems(b);
    CleanTrans(p, s0, s1, s2, n, m);
  }

  lemma CleanTrans(p: Pattern, s0: Namer, s1: Namer, s2: Namer, n: nat, m: nat)
    requires Extends(p, s0, s1, n) && Extends(p, s1, s2, m)
    requires Added(s0, s2) == Added(s0, s1) + Added(s1, s2)
    ensures Clean(p, s0) ==> Added(s0, s2) == Names(p, s0.counter, n + m) && s2.counter == s0.counter + n + m && Clean(p, s2)
  {
    if Clean(p, s0) {
      assert Names(p, s0.counter, n) + Names(p, s0.counter + n, m) == Names(p, s0.counter, n + m);
    }
  }

  /** Making one fresh name, as the name searches promise, is one step of `Extends`. */
  lemma ExtendsOne(p: Pattern, s: Namer, name: string, generics': set<string>, counter': nat)
    requires name !in s.generics && generics' == s.generics + {name}
    requires s.counter < counter' && name == Name(p, counter' - 1)
    requires forall k :: s.counter <= k < counter' - 1 ==> Name(p, k) in s.generics
    ensures Extends(p, s, Namer(generics', counter', s.newGenerics + [name]), 1)
  {
    var s1 := Namer(generics', counter', s.newGenerics + [name]);
    assert Added(s, s1) == [name];
    assert Elems([name]) == {name};
    if Clean(p, s) {
      assert s.counter < counter' - 1 ==> Name(p, s.counter) in s.generics;
      forall k | k >= counter' ensures Name(p, k) !in generics' {
        NameInjective(p, k, counter' - 1);
      }
      assert [name] == Names(p, s.counter, 1);
    }
  }

  /** A state with no names taken is clean. */
  lemma EmptyClean(p: Pattern, c: nat)
    ensures Clean(p, Namer({}, c, []))
  {
  }

  // ------------------------------------------------------------ a left-to-right rewrite of a list

  /** The first `i` elements were rewritten from `s` to `s1` into `r`: their names were made
    * one after the other and filled in the same order. */
  ghost predicate TysDone(p: Pattern, es: seq<Ty>, i: nat, s: Namer, s1: Namer, r: seq<Ty>)
    requires i <= |es|
  {
    Extends(p, s, s1, InferCountTys(es[..i])) && r == FillInfersTys(es[..i], Added(s, s1))
  }

  lemma TysStart(p: Pattern, es: seq<Ty>, s: Namer)
    ensures TysDone(p, es, 0, s, s, [])
  {
    ExtendsRefl(p, s);
    assert es[..0] == [];
  }

  lemma TysStep(p: Pattern, es: seq<Ty>, i: nat, s: Namer, s1: Namer, s2: Namer, r: seq<Ty>, e: Ty)
    requires i < |es| && TysDone(p, es, i, s, s1, r)
    requires Extends(p, s1, s2, InferCount(es[i])) && e == FillInfers(es[i], Added(s1, s2))
    ensures TysDone(p, es, i + 1, s, s2, r + [e])
  {
    ExtendsTrans(p, s, s1, s2, InferCountTys(es[..i]), InferCount(es[i]));
    FillInfersTysStep(es, i, Added(s, s1), Added(s1, s2));
  }

  lemma TysEnd(p: Pattern, es: seq<Ty>, s: Namer, s1: Namer, r: seq<Ty>)
    requires TysDone(p, es, |es|, s, s1, r)
    ensures Extends(p, s, s1, InferCountTys(es)) && r == FillInfersTys(es, Added(s, s1))
  {
    assert es[..|es|] == es;
  }

  ghost predicate SegsDone(p: Pattern, segs: seq<Segment>, i: nat, s: Namer, s1: Namer, r: seq<Segment>)
    requires i <= |segs|
  {
    Extends(p, s, s1, InferCountSegs(segs[..i])) && r == FillInfersSegs(segs[..i], Added(s, s1))
  }

  lemma SegsStart(p: Pattern, segs: seq<Segment>, s: Namer)
    ensures SegsDone(p, segs, 0, s, s, [])
  {
    ExtendsRefl(p, s);
    assert segs[..0] == [];
  }

  lemma SegsStep(p: Pattern, segs: seq<Segment>, i: nat, s: Namer, s1: Namer, s2: Namer, r: seq<Segment>, e: Segment)
    requires i < |segs| && SegsDone(p, segs, i, s, s1, r)
    requires Extends(p, s1, s2, InferCountSeg(segs[i])) && e == FillInfersSeg(segs[i], Added(s1, s2))
    ensures SegsDone(p, segs, i + 1, s, s2, r + [e])
  {
    ExtendsTrans(p, s, s1, s2, InferCountSegs(segs[..i]), InferCountSeg(segs[i]));
    FillInfersSegsStep(segs, i, Added(s, s1), Added(s1, s2));
  }

  lemma SegsEnd(p: Pattern, segs: seq<Segment>, s: Namer, s1: Namer, r: seq<Segment>)
    requires SegsDone(p, segs, |segs|, s, s1, r)
    ensures Extends(p, s, s1, InferCountSegs(segs)) && r == FillInfersSegs(segs, Added(s, s1))
  {
    assert segs[..|segs|] == segs;
  }

  ghost predicate ArgsDone(p: Pattern, args: seq<GenericArg>, i: nat, s: Namer, s1: Namer, r: seq<GenericArg>)
    requires i <= |args|
  {
    Extends(p, s, s1, InferCountArgs(args[..i])) && r == FillInfersArgs(args[..i], Added(s, s1))
  }

  lemma ArgsStart(p: Pattern, args: seq<GenericArg>, s: Namer)
    ensures ArgsDone(p, args, 0, s, s, [])
  {
    ExtendsRefl(p, s);
    assert args[..0] == [];
  }

  lemma ArgsStep(p: Pattern, args: seq<GenericArg>, i: nat, s: Namer, s1: Namer, s2: Namer, r: seq<GenericArg>, e: GenericArg)
    requires i < |args| && ArgsDone(p, args, i, s, s1, r)
    requires Extends(p, s1, s2, InferCountArg(args[i])) && e == FillInfersArg(args[i], Added(s1, s2))
    ensures ArgsDone(p, args, i + 1, s, s2, r + [e])
  {
    ExtendsTrans(p, s, s1, s2, InferCountArgs(args[..i]), InferCountArg(args[i]));
    FillInfersArgsStep(args, i, Added(s, s1), Added(s1, s2));
  }

  lemma ArgsEnd(p: Pattern, args: seq<GenericArg>, s: Namer, s1: Namer, r: seq<GenericArg>)
    requires ArgsDone(p, args, |args|, s, s1, r)
    ensures Extends(p, s, s1, InferCountArgs(args)) && r == FillInfersArgs(args, Added(s, s1))
  {
    assert args[..|args|] == args;
  }
}
