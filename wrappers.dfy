/** Option and Result, shared by every module of the model. A Rust `panic!`, an
  * `unwrap()` on `None` and a `syn::Error` are all modelled as `Err(message)`. */
module Wrappers {
  datatype Option<T> = None | Some(value: T)
  {
    /** `Option::unwrap_or`. */
    function UnwrapOr(default: T): T {
      if Some? then value else default
    }
  }

  datatype Result<T> = Ok(value: T) | Err(msg: string)
  {
    predicate IsFailure() { Err? }
    function PropagateFailure<U>(): Result<U> requires Err? { Err(msg) }
    function Extract(): T requires Ok? { value }
  }

  /** `Ordering` of Rust's `std::cmp`. */
  datatype Ordering = Less | Equal | Greater
  {
    function Reverse(): (r: Ordering)
      ensures (r == Equal) == (this == Equal)
      ensures (r == Less) == (this == Greater)
      ensures (r == Greater) == (this == Less)
    {
      match this
      case Less => Greater
      case Equal => Equal
      case Greater => Less
    }
  }

  /** Rust's `Ord for usize` / `Ord for bool` / `Ord for i32`, as a total comparison of integers. */
  function CmpInt(a: int, b: int): (r: Ordering)
    ensures r == Equal <==> a == b
    ensures r == Less <==> a < b
  {
    if a < b then Less else if a == b then Equal else Greater
  }

  /** `Ord for bool`: `false < true`. */
  function BoolRank(b: bool): (r: nat)
    ensures r <= 1 && (r == 1 <==> b)
  {
    if b then 1 else 0
  }

  /** `xs.iter().map(f).collect::<Result<Vec<_>, _>>()`, and equally a `map` whose `f` may
    * panic: the results of `f` in order, or the first failure. */
  function CollectResults<A, B>(xs: seq<A>, f: A -> Result<B>): (r: Result<seq<B>>)
    ensures r.Ok? ==> |r.value| == |xs|
  {
    if xs == [] then Ok([])
    else
      match f(xs[0])
      case Err(m) => Err(m)
      case Ok(b) =>
        match CollectResults(xs[1..], f)
        case Err(m) => Err(m)
        case Ok(rest) => Ok([b] + rest)
  }

  /** The collection succeeds exactly when `f` succeeds on every element. */
  lemma {:induction false} CollectResultsOk<A, B>(xs: seq<A>, f: A -> Result<B>)
    ensures CollectResults(xs, f).Ok? <==> forall k :: 0 <= k < |xs| ==> f(xs[k]).Ok?
  {
    if xs != [] {
      CollectResultsOk(xs[1..], f);
      assert forall k :: 0 < k < |xs| ==> xs[k] == xs[1..][k - 1];
    }
  }

  /** Each collected value is `f` of the element at the same position. */
  lemma {:induction false} CollectResultsAt<A, B>(xs: seq<A>, f: A -> Result<B>, k: nat)
    requires CollectResults(xs, f).Ok? && k < |xs|
    ensures f(xs[k]) == Ok(CollectResults(xs, f).value[k])
  {
    var rest := CollectResults(xs[1..], f);
    if k > 0 {
      CollectResultsAt(xs[1..], f, k - 1);
      assert xs[k] == xs[1..][k - 1];
    }
  }

  /** A failure is the failure of the first element `f` rejects. */
  lemma {:induction false} CollectResultsFirstError<A, B>(xs: seq<A>, f: A -> Result<B>, j: nat)
    requires j < |xs| && f(xs[j]).Err?
    requires forall k :: 0 <= k < j ==> f(xs[k]).Ok?
    ensures CollectResults(xs, f) == Err(f(xs[j]).msg)
  {
    if j > 0 {
      assert forall k :: 0 <= k < j - 1 ==> xs[1..][k] == xs[k + 1];
      CollectResultsFirstError(xs[1..], f, j - 1);
    }
  }

  /** One element is collected to the one value `f` gives it. */
  lemma CollectResultsOne<A, B>(x: A, f: A -> Result<B>)
    requires f(x).Ok?
    ensures CollectResults([x], f) == Ok([f(x).value])
  {
    assert [x][1..] == [];
    assert [f(x).value] + [] == [f(x).value];
  }

  /** `Iterator::find`: the first element satisfying `p`, if any. */
  function Find<T>(xs: seq<T>, p: T -> bool): (r: Option<T>)
    ensures r.None? <==> forall i :: 0 <= i < |xs| ==> !p(xs[i])
    ensures r.Some? ==> p(r.value) && r.value in xs
  {
    if xs == [] then None
    else if p(xs[0]) then Some(xs[0])
    else
      var r := Find(xs[1..], p);
      assert forall i :: 0 < i < |xs| ==> xs[i] == xs[1..][i - 1];
      r
  }

  /** `find` returns the first match: every element before it fails `p`. */
  lemma {:induction false} FindFirst<T>(xs: seq<T>, p: T -> bool, i: nat)
    requires i < |xs| && p(xs[i])
    requires forall j :: 0 <= j < i ==> !p(xs[j])
    ensures Find(xs, p) == Some(xs[i])
  {
    if i > 0 {
      assert forall j :: 0 <= j < i - 1 ==> xs[1..][j] == xs[j + 1];
      FindFirst(xs[1..], p, i - 1);
    }
  }
}
