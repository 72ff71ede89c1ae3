/** The `when(...)` condition language as the macro crate reads it
  * (`crates/spec-trait-macro/src/conditions.rs`): a hand-written parser over a peekable
  * token iterator that panics on malformed input, and a normalization to disjunctive normal
  * form that, unlike the utilities crate, neither deduplicates nor unwraps singletons. */
module MacroConditions {
  import opened Wrappers
  import opened Syntax

  /** `WhenCondition`. A type is kept as the text the parser builds: a name, or `&` and a name. */
  datatype WhenCondition =
    | Type(generic: string, ty: string)
    | Trait(generic: string, traits: seq<string>)
    | All(conds: seq<WhenCondition>)
    | Any(conds: seq<WhenCondition>)
    | Not(cond: WhenCondition)

  predicate IsAtom(c: WhenCondition) { c.Type? || c.Trait? }

  /** What the parser can produce: trait lists and aggregations are never empty. */
  predicate WellFormed(c: WhenCondition) {
    match c
    case Type(_, _) => true
    case Trait(_, traits) => |traits| >= 1
    case All(cs) => |cs| >= 1 && forall i | 0 <= i < |cs| :: WellFormed(cs[i])
    case Any(cs) => |cs| >= 1 && forall i | 0 <= i < |cs| :: WellFormed(cs[i])
    case Not(x) => WellFormed(x)
  }

  // ============================================================ the token iterator

  /** The token at position `p`, if any. */
  function At(ts: seq<Token>, p: nat): (r: Option<Token>)
    ensures r.Some? <==> p < |ts|
  {
    if p < |ts| then Some(ts[p]) else None
  }

  /** `Peekable<token_stream::IntoIter>` over a finite token sequence. `pulled` counts the
    * tokens taken from the underlying iterator; when `buffered`, the last of them was taken
    * by `peek` and has not been returned by `next` yet. */
  class TokenIter {
    const ts: seq<Token>
    var pulled: nat
    var buffered: bool

    predicate Valid()
      reads this
    {
      pulled <= |ts| && (buffered ==> pulled >= 1)
    }

    /** The position of the next token `next` returns. */
    function Pos(): (p: nat)
      reads this
      requires Valid()
      ensures p <= |ts|
    {
      if buffered then pulled - 1 else pulled
    }

    constructor(tokens: seq<Token>)
      ensures ts == tokens && pulled == 0 && !buffered && Valid()
    {
      ts := tokens;
      pulled := 0;
      buffered := false;
    }

    /** `Iterator::next`. */
    method Next() returns (t: Option<Token>)
      requires Valid()
      modifies this
      ensures Valid() && !buffered
      ensures t == At(ts, old(Pos()))
      ensures Pos() == if old(Pos()) < |ts| then old(Pos()) + 1 else |ts|
    {
      if buffered {
        buffered := false;
        t := Some(ts[pulled - 1]);
      } else if pulled < |ts| {
        pulled := pulled + 1;
        t := Some(ts[pulled - 1]);
      } else {
        t := None;
      }
    }

    /** `Peekable::peek`: the next token, pulled into the buffer but not consumed. */
    method Peek() returns (t: Option<Token>)
      requires Valid()
      modifies this
      ensures Valid() && Pos() == old(Pos())
      ensures t == At(ts, Pos())
      ensures buffered == (Pos() < |ts|)
    {
      if !buffered && pulled < |ts| {
        pulled := pulled + 1;
        buffered := true;
      }
      t := At(ts, if buffered then pulled - 1 else pulled);
    }

    /** `n` tokens pulled through `by_ref()` by an iterator chained onto this one. */
    method Advance(n: nat)
      requires Valid() && !buffered && pulled + n <= |ts|
      modifies this
      ensures Valid() && !buffered && pulled == old(pulled) + n
    {
      pulled := pulled + n;
    }
  }

  // ============================================================ parsing

  /** What `parse_type` reads at `p`: an optional `&` and then one identifier; the type text and
    * the position after it. */
  function TypeAt(ts: seq<Token>, p: nat): (r: Option<(string, nat)>)
    ensures r.Some? ==> p < r.value.1 <= |ts|
  {
    if At(ts, p) == Some(Punct('&')) then
      (if p + 1 < |ts| && ts[p + 1].Ident? then Some(("&" + ts[p + 1].name, p + 2)) else None)
    else if p < |ts| && ts[p].Ident? then Some((ts[p].name, p + 1))
    else None
  }

  /** What `parse_trait` reads at `p`: identifiers joined by `+`, a trailing `+` included; the
    * names and the position of the token that ended the list. */
  function TraitRun(ts: seq<Token>, p: nat): (r: (seq<string>, nat))
    requires p <= |ts|
    ensures p <= r.1 <= |ts|
    ensures |r.0| >= 1 <==> p < |ts| && ts[p].Ident?
    decreases |ts| - p
  {
    if p < |ts| && ts[p].Ident? then
      if p + 1 < |ts| && ts[p + 1] == Punct('+') then
        var rest := TraitRun(ts, p + 2);
        ([ts[p].name] + rest.0, rest.1)
      else ([ts[p].name], p + 1)
    else ([], p)
  }

  lemma TraitRunStep(ts: seq<Token>, p: nat)
    requires p <= |ts|
    ensures !(p < |ts| && ts[p].Ident?) ==> TraitRun(ts, p) == ([], p)
    ensures p < |ts| && ts[p].Ident? && p + 1 < |ts| && ts[p + 1] == Punct('+') ==>
      TraitRun(ts, p) == ([ts[p].name] + TraitRun(ts, p + 2).0, TraitRun(ts, p + 2).1)
    ensures p < |ts| && ts[p].Ident? && !(p + 1 < |ts| && ts[p + 1] == Punct('+')) ==>
      TraitRun(ts, p) == ([ts[p].name], p + 1)
  {
  }

  /** An identifier followed by `+`: the run goes on two tokens later. */
  lemma TraitRunPlus(ts: seq<Token>, p: nat, before: seq<string>)
    requires p + 1 < |ts| && ts[p].Ident? && ts[p + 1] == Punct('+')
    ensures before + TraitRun(ts, p).0 == (before + [ts[p].name]) + TraitRun(ts, p + 2).0
    ensures TraitRun(ts, p).1 == TraitRun(ts, p + 2).1
  {
  }

  /** An identifier not followed by `+` ends the run. */
  lemma TraitRunLast(ts: seq<Token>, p: nat)
    requires p < |ts| && ts[p].Ident? && !(p + 1 < |ts| && ts[p + 1] == Punct('+'))
    ensures TraitRun(ts, p) == ([ts[p].name], p + 1)
  {
  }

  /** `parse_type`. */
  method ParseType(ident: string, it: TokenIter) returns (r: Result<WhenCondition>)
    requires it.Valid()
    modifies it
    ensures it.Valid()
    ensures r.Ok? <==> TypeAt(it.ts, old(it.Pos())).Some?
    ensures r.Ok? ==> r.value == Type(ident, TypeAt(it.ts, old(it.Pos())).value.0)
    ensures r.Ok? ==> it.Pos() == TypeAt(it.ts, old(it.Pos())).value.1 && !it.buffered
  {
    var typeName := "";
    var t := it.Peek();
    if t == Some(Punct('&')) {
      t := it.Next();
      typeName := "&";
    }
    var name := it.Next();
    if name.Some? && name.value.Ident? {
      r := Ok(Type(ident, typeName + name.value.name));
    } else {
      r := Err("Expected a type name after '='");
    }
  }

  /** `parse_trait`: the loop peeks one token past the list, so that token is left in the
    * iterator's buffer. */
  method ParseTrait(ident: string, it: TokenIter) returns (r: Result<WhenCondition>)
    requires it.Valid()
    modifies it
    ensures it.Valid()
    ensures r.Ok? <==> old(it.Pos()) < |it.ts| && it.ts[old(it.Pos())].Ident?
    ensures r.Ok? ==> r.value == Trait(ident, TraitRun(it.ts, old(it.Pos())).0)
    ensures it.Pos() == TraitRun(it.ts, old(it.Pos())).1
    ensures it.buffered == (it.Pos() < |it.ts|)
  {
    ghost var full := TraitRun(it.ts, it.Pos());
    ghost var pos := it.Pos();
    var traits: seq<string> := [];
    var done := false;
    var t := it.Peek();
    while !done && t.Some? && t.value.Ident?
      invariant it.Valid() && it.Pos() == pos && it.buffered == (pos < |it.ts|)
      invariant !done ==> t == At(it.ts, pos)
      invariant !done ==> traits + TraitRun(it.ts, pos).0 == full.0 && TraitRun(it.ts, pos).1 == full.1
      invariant done ==> traits == full.0 && pos == full.1
      decreases |it.ts| - pos, if done then 0 else 1
    {
      ghost var before := traits;
      traits := traits + [t.value.name];
      t := it.Next();
      var q := it.Peek();
      if q.Some? && q.value.Punct? && q.value.ch == '+' {
        TraitRunPlus(it.ts, pos, before);
        q := it.Next();
        t := it.Peek();
        pos := pos + 2;
      } else {
        TraitRunLast(it.ts, pos);
        pos := pos + 1;
        done := true;
      }
    }
    if !done {
      TraitRunStep(it.ts, pos);
    }
    assert traits == full.0 && pos == full.1;
    if traits == [] {
      r := Err("Expected at least one trait after ':'");
    } else {
      r := Ok(Trait(ident, traits));
    }
  }

  /** `handle_type_or_trait`: `:` selects a trait list, `=` a type; anything else panics. */
  method HandleTypeOrTrait(ident: string, it: TokenIter) returns (r: Result<WhenCondition>)
    requires it.Valid()
    modifies it
    ensures it.Valid()
    ensures At(it.ts, old(it.Pos())) != Some(Punct(':')) && At(it.ts, old(it.Pos())) != Some(Punct('=')) ==> r.Err?
    ensures At(it.ts, old(it.Pos())) == Some(Punct('=')) ==> (r.Ok? <==> TypeAt(it.ts, old(it.Pos()) + 1).Some?)
    ensures At(it.ts, old(it.Pos())) == Some(Punct(':')) ==> (r.Ok? <==> old(it.Pos()) + 1 < |it.ts| && it.ts[old(it.Pos()) + 1].Ident?)
    ensures r.Ok? ==> IsAtom(r.value) && r.value.generic == ident && WellFormed(r.value)
    ensures r.Ok? ==> old(it.Pos()) < it.Pos()
    ensures r.Ok? ==> (r.value.Type? <==> At(it.ts, old(it.Pos())) == Some(Punct('=')))
  {
    var t := it.Next();
    if t == Some(Punct(':')) {
      r := ParseTrait(ident, it);
    } else if t == Some(Punct('=')) {
      r := ParseType(ident, it);
    } else if t.Some? && t.value.Punct? {
      r := Err("Unexpected punctuation");
    } else {
      r := Err("Expected ':' or '=' after identifier");
    }
  }

  predicate IsAggregation(name: string) { name == "all" || name == "any" || name == "not" }

  /** `parse_tokens`: an identifier, then an aggregation for `all`, `any` and `not`, an atom
    * otherwise; a missing or non-identifier token panics. */
  method ParseTokens(it: TokenIter) returns (r: Result<WhenCondition>)
    requires it.Valid()
    modifies it
    ensures it.Valid() && (r.Ok? ==> old(it.Pos()) < it.Pos())
    ensures !(old(it.Pos()) < |it.ts| && it.ts[old(it.Pos())].Ident?) ==> r.Err?
    ensures r.Ok? ==> WellFormed(r.value)
    ensures r.Ok? ==> (IsAtom(r.value) <==> !IsAggregation(it.ts[old(it.Pos())].name))
    ensures r.Ok? && it.ts[old(it.Pos())].name == "all" ==> r.value.All?
    ensures r.Ok? && it.ts[old(it.Pos())].name == "any" ==> r.value.Any?
    ensures r.Ok? && it.ts[old(it.Pos())].name == "not" ==> r.value.Not?
    ensures r.Ok? && IsAtom(r.value) ==> r.value.generic == it.ts[old(it.Pos())].name
    decreases Size(it.ts[it.Pos()..]), 2
  {
    SizeSuffixMono(it.ts, it.Pos(), if it.Pos() < |it.ts| then it.Pos() + 1 else it.Pos());
    var t := it.Next();
    if t.None? || !t.value.Ident? {
      r := Err("Unexpected token");
      return;
    }
    var name := t.value.name;
    if IsAggregation(name) {
      r := HandleAggr(name, it);
    } else {
      r := HandleTypeOrTrait(name, it);
    }
  }

  /** `handle_aggr`: the next token must be a group, whatever its delimiter; its content is
    * parsed as the argument list. */
  method HandleAggr(ident: string, it: TokenIter) returns (r: Result<WhenCondition>)
    requires it.Valid()
    modifies it
    ensures it.Valid() && (r.Ok? ==> old(it.Pos()) < it.Pos())
    ensures !(old(it.Pos()) < |it.ts| && it.ts[old(it.Pos())].Group?) ==> r.Err?
    ensures r.Ok? ==> WellFormed(r.value)
    ensures r.Ok? && ident == "all" ==> r.value.All?
    ensures r.Ok? && ident == "any" ==> r.value.Any?
    ensures r.Ok? && ident == "not" ==> r.value.Not?
    ensures !IsAggregation(ident) ==> r.Err?
    decreases Size(it.ts[it.Pos()..]), 1
  {
    if it.Pos() < |it.ts| {
      SizeSuffix(it.ts, it.Pos());
    }
    var t := it.Next();
    if t.Some? && t.value.Group? {
      var group := new TokenIter(t.value.inner);
      var args;
      r, args := ParseAggr(ident, group);
    } else {
      r := Err("Expected a group");
    }
  }

  /** The end of `parse_aggr`: the aggregation named `ident` over the arguments read. */
  function Aggregate(ident: string, args: seq<WhenCondition>): (r: Result<WhenCondition>)
    ensures args == [] || (ident == "not" && |args| != 1) || !IsAggregation(ident) ==> r.Err?
    ensures r.Ok? && ident == "all" ==> r.value == All(args)
    ensures r.Ok? && ident == "any" ==> r.value == Any(args)
    ensures r.Ok? && ident == "not" ==> r.value == Not(args[0])
    ensures r.Ok? && (forall i | 0 <= i < |args| :: WellFormed(args[i])) ==> WellFormed(r.value)
  {
    if args == [] then Err("Expected at least one arg")
    else if ident == "all" then Ok(All(args))
    else if ident == "any" then Ok(Any(args))
    else if ident == "not" then
      if |args| != 1 then Err("`not` must have exactly one argument") else Ok(Not(args[0]))
    else Err("Unknown aggregation function")
  }

  /** `parse_aggr`: identifiers start arguments, commas separate them, anything else panics.
    * Each argument is read from a fresh peekable iterator that starts with the identifier and
    * continues into this one; a token that iterator peeked past the argument is lost with it. */
  method ParseAggr(ident: string, it: TokenIter) returns (r: Result<WhenCondition>, args: seq<WhenCondition>)
    requires it.Valid() && !it.buffered
    modifies it
    ensures it.Valid()
    ensures args == [] || (ident == "not" && |args| != 1) || !IsAggregation(ident) ==> r.Err?
    ensures r.Ok? ==> forall i | 0 <= i < |args| :: WellFormed(args[i])
    ensures r.Ok? && ident == "all" ==> r.value == All(args)
    ensures r.Ok? && ident == "any" ==> r.value == Any(args)
    ensures r.Ok? && ident == "not" ==> r.value == Not(args[0])
    ensures r.Ok? ==> WellFormed(r.value)
    decreases Size(it.ts[it.Pos()..]), 5
  {
    ghost var p0 := it.Pos();
    args := [];
    var failed: Option<string> := None;
    var t := it.Next();
    ghost var pos := it.Pos();
    while t.Some? && failed.None?
      invariant it.Valid() && !it.buffered && it.Pos() == pos && p0 <= pos <= |it.ts|
      invariant t.Some? && failed.None? ==> p0 < pos && t.value == it.ts[pos - 1]
      invariant forall k | 0 <= k < |args| :: WellFormed(args[k])
      decreases |it.ts| - pos + (if t.Some? then 1 else 0), if failed.None? then 1 else 0
    {
      var c := AggrToken(t.value, it, p0);
      if c.Err? {
        failed := Some(c.msg);
      } else {
        if c.value.Some? {
          args := args + [c.value.value];
        }
        ghost var before := it.Pos();
        t := it.Next();
        assert t.Some? ==> before < |it.ts| && it.Pos() == before + 1 && t.value == it.ts[before];
      }
      pos := it.Pos();
    }
    if failed.Some? {
      r := Err(failed.value);
      return;
    }
    r := Aggregate(ident, args);
  }

  /** One token of the `parse_aggr` loop, just taken from `it`: an identifier starts an
    * argument, a comma is skipped, anything else panics. */
  method AggrToken(t: Token, it: TokenIter, ghost p0: nat) returns (r: Result<Option<WhenCondition>>)
    requires it.Valid() && !it.buffered && p0 < it.Pos() && t == it.ts[it.Pos() - 1]
    modifies it
    ensures it.Valid() && !it.buffered && old(it.Pos()) <= it.Pos()
    ensures r.Ok? ==> (r.value.Some? <==> t.Ident?)
    ensures r.Ok? && r.value.Some? ==> WellFormed(r.value.value)
    ensures !t.Ident? ==> (r.Ok? <==> t == Punct(','))
    decreases Size(it.ts[p0..]), 4
  {
    if t.Ident? {
      SizeSuffixMono(it.ts, p0, it.Pos() - 1);
      var c := ParseArgument(it);
      r := if c.Ok? then Ok(Some(c.value)) else Err(c.msg);
    } else if t.Punct? && t.ch == ',' {
      r := Ok(None);
    } else if t.Punct? {
      r := Err("Unexpected punctuation");
    } else {
      r := Err("Unexpected token in aggregation function");
    }
  }

  /** One argument of `parse_aggr`: the identifier just taken from `it` chained with the rest of
    * `it`, read by `parse_tokens` through a fresh peekable iterator. The tokens that iterator
    * pulled, a peeked one included, are gone from `it`. */
  method ParseArgument(it: TokenIter) returns (r: Result<WhenCondition>)
    requires it.Valid() && !it.buffered && it.pulled >= 1
    modifies it
    ensures it.Valid() && !it.buffered && old(it.Pos()) <= it.Pos()
    ensures r.Ok? ==> WellFormed(r.value)
    decreases Size(it.ts[it.Pos() - 1..]), 3
  {
    var p := it.Pos();
    var inline := new TokenIter([it.ts[p - 1]] + it.ts[p..]);
    assert inline.ts[inline.Pos()..] == it.ts[p - 1..];
    r := ParseTokens(inline);
    if r.Ok? {
      it.Advance(inline.pulled - 1);
    }
  }

  /** `parse`: one condition from the start of the stream; tokens after it are ignored. */
  method Parse(ts: seq<Token>) returns (r: Result<WhenCondition>)
    ensures !(|ts| > 0 && ts[0].Ident?) ==> r.Err?
    ensures r.Ok? ==> WellFormed(r.value)
    ensures r.Ok? ==> (IsAtom(r.value) <==> !IsAggregation(ts[0].name))
  {
    var it := new TokenIter(ts);
    r := ParseTokens(it);
  }

  // ============================================================ normalization

  /** A weight that decreases along every recursive call of `to_dnf`: De Morgan turns
    * `not(all(a, b))` into `any(not(a), not(b))`, so a negation weighs twice its operand. */
  function W(c: WhenCondition): (r: nat)
    ensures r >= 1
    decreases c
  {
    match c
    case All(cs) => 1 + WSum(cs)
    case Any(cs) => 1 + WSum(cs)
    case Not(x) => 2 * W(x)
    case _ => 1
  }

  function WSum(cs: seq<WhenCondition>): nat
    decreases cs
  {
    if cs == [] then 0 else W(cs[0]) + WSum(cs[1..])
  }

  /** `not(c)` for every `c`, in order. */
  function Negate(cs: seq<WhenCondition>): (r: seq<WhenCondition>)
    ensures |r| == |cs| && forall i | 0 <= i < |cs| :: r[i] == Not(cs[i])
  {
    seq(|cs|, i requires 0 <= i < |cs| => Not(cs[i]))
  }

  lemma {:induction false} NegateWeight(cs: seq<WhenCondition>)
    ensures WSum(Negate(cs)) == 2 * WSum(cs)
  {
    if cs != [] {
      assert Negate(cs)[1..] == Negate(cs[1..]);
      NegateWeight(cs[1..]);
    }
  }

  /** The disjuncts of a condition: the list under an `Any`, else the condition alone. */
  function Disjuncts(d: WhenCondition): (r: seq<WhenCondition>)
    ensures d.Any? ==> r == d.conds
    ensures !d.Any? ==> r == [d]
  {
    if d.Any? then d.conds else [d]
  }

  /** `existing + [c]` for every existing conjunction and every new disjunct `c`, existing
    * conjunctions outermost. */
  function Cross(acc: seq<seq<WhenCondition>>, ds: seq<WhenCondition>): (r: seq<seq<WhenCondition>>)
    ensures |r| == |acc| * |ds|
  {
    if acc == [] then []
    else seq(|ds|, j requires 0 <= j < |ds| => acc[0] + [ds[j]]) + Cross(acc[1..], ds)
  }

  /** The conjunctions after folding `Cross` over the disjuncts of every condition of `cs`. */
  function Product(acc: seq<seq<WhenCondition>>, cs: seq<WhenCondition>): seq<seq<WhenCondition>>
    decreases 1 + WSum(cs), 0
  {
    if cs == [] then acc else Product(Cross(acc, Disjuncts(ToDnf(cs[0]))), cs[1..])
  }

  /** The disjuncts of every condition of `cs` after `to_dnf`, one level of `Any` flattened. */
  function AnyDisjuncts(cs: seq<WhenCondition>): seq<WhenCondition>
    decreases 1 + WSum(cs), 0
  {
    if cs == [] then [] else Disjuncts(ToDnf(cs[0])) + AnyDisjuncts(cs[1..])
  }

  /** One `All` per conjunction. */
  function AllEach(dnf: seq<seq<WhenCondition>>): (r: seq<WhenCondition>)
    ensures |r| == |dnf| && forall k | 0 <= k < |dnf| :: r[k] == All(dnf[k])
  {
    seq(|dnf|, k requires 0 <= k < |dnf| => All(dnf[k]))
  }

  function AllToDnf(cs: seq<WhenCondition>): WhenCondition
    decreases 1 + WSum(cs), 1
  {
    Any(AllEach(Product([[]], cs)))
  }

  function AnyToDnf(cs: seq<WhenCondition>): WhenCondition
    decreases 1 + WSum(cs), 1
  {
    Any(AnyDisjuncts(cs))
  }

  function NotToDnf(x: WhenCondition): WhenCondition
    decreases 2 * W(x), 1
  {
    match x
    case All(inner) => NegateWeight(inner); ToDnf(Any(Negate(inner)))
    case Any(inner) => NegateWeight(inner); ToDnf(All(Negate(inner)))
    case Not(inner) => ToDnf(inner)
    case _ => Not(ToDnf(x))
  }

  /** `to_dnf`: one rewriting round towards disjunctive normal form. */
  function ToDnf(c: WhenCondition): WhenCondition
    decreases W(c), 2
  {
    match c
    case All(cs) => AllToDnf(cs)
    case Any(cs) => AnyToDnf(cs)
    case Not(x) => NotToDnf(x)
    case _ => c
  }

  /** `all_to_dnf` as the source computes it: a fold of the distribution step over the
    * conjuncts, then one `All` per conjunction under an `Any`. */
  method AllToDnfLoop(cs: seq<WhenCondition>) returns (r: WhenCondition)
    ensures r == AllToDnf(cs)
    ensures r.Any? && forall k | 0 <= k < |r.conds| :: r.conds[k].All?
  {
    var dnf: seq<seq<WhenCondition>> := [[]];
    var i := 0;
    while i < |cs|
      invariant i <= |cs|
      invariant Product(dnf, cs[i..]) == Product([[]], cs)
    {
      assert cs[i..][1..] == cs[i + 1..];
      var condDnf := Disjuncts(ToDnf(cs[i]));
      dnf := Cross(dnf, condDnf);
      i := i + 1;
    }
    assert cs[i..] == [];
    r := Any(AllEach(dnf));
  }

  /** `to_dnf` applied `k` times. */
  function Iterate(c: WhenCondition, k: nat): WhenCondition
    decreases k
  {
    if k == 0 then c else ToDnf(Iterate(c, k - 1))
  }

  /** Any positive number of `to_dnf` rounds gives the result of the first. */
  lemma {:induction false} IterateOnce(c: WhenCondition, k: nat)
    requires k >= 1
    ensures Iterate(c, k) == ToDnf(c)
  {
    if k > 1 {
      IterateOnce(c, k - 1);
      ToDnfIdempotent(c);
    }
  }

  /** `normalize`: `to_dnf` until two successive results agree. Since `to_dnf` is idempotent
    * the loop body never runs, and the result is the first round's. */
  method Normalize(c: WhenCondition) returns (r: WhenCondition)
    ensures r == ToDnf(c)
    ensures ToDnf(r) == r
    ensures Dnf(r)
    ensures forall v: WhenCondition -> bool :: Eval(r, v) == Eval(c, v)
  {
    var current := ToDnf(c);
    var next := ToDnf(current);
    ghost var rounds: nat := 1;
    while next != current
      invariant rounds >= 1 && current == Iterate(c, rounds) && next == ToDnf(current)
      decreases if next == current then 0 else 1
    {
      ToDnfIdempotent(current);
      current := next;
      next := ToDnf(current);
      rounds := rounds + 1;
    }
    r := current;
    IterateOnce(c, rounds);
    ToDnfIdempotent(c);
    DnfToDnf(c);
    forall v: WhenCondition -> bool ensures Eval(r, v) == Eval(c, v) {
      EvalToDnf(c, v);
    }
  }

  // ============================================================ semantics

  /** The truth value of a condition when each `Type`/`Trait` atom has the value `v` gives it. */
  function Eval(c: WhenCondition, v: WhenCondition -> bool): bool
    decreases c
  {
    match c
    case All(cs) => forall i | 0 <= i < |cs| :: Eval(cs[i], v)
    case Any(cs) => exists i | 0 <= i < |cs| :: Eval(cs[i], v)
    case Not(x) => !Eval(x, v)
    case _ => v(c)
  }

  predicate EvalConj(conj: seq<WhenCondition>, v: WhenCondition -> bool) {
    forall i | 0 <= i < |conj| :: Eval(conj[i], v)
  }

  predicate EvalDisj(dnf: seq<seq<WhenCondition>>, v: WhenCondition -> bool) {
    exists k | 0 <= k < |dnf| :: EvalConj(dnf[k], v)
  }

  lemma EvalConjSnoc(conj: seq<WhenCondition>, x: WhenCondition, v: WhenCondition -> bool)
    ensures EvalConj(conj + [x], v) == (EvalConj(conj, v) && Eval(x, v))
  {
    assert (conj + [x])[|conj|] == x;
    assert forall i | 0 <= i < |conj| :: (conj + [x])[i] == conj[i];
  }

  lemma EvalDisjuncts(d: WhenCondition, v: WhenCondition -> bool)
    ensures (exists j | 0 <= j < |Disjuncts(d)| :: Eval(Disjuncts(d)[j], v)) == Eval(d, v)
  {
    if d.Any? {
      assert Disjuncts(d) == d.conds;
    } else {
      assert Disjuncts(d) == [d];
      if Eval(d, v) {
        assert Eval(Disjuncts(d)[0], v);
      }
    }
  }

  lemma {:induction false} EvalCross(acc: seq<seq<WhenCondition>>, ds: seq<WhenCondition>, v: WhenCondition -> bool)
    ensures EvalDisj(Cross(acc, ds), v) == (EvalDisj(acc, v) && exists j | 0 <= j < |ds| :: Eval(ds[j], v))
  {
    if acc != [] {
      var head := seq(|ds|, j requires 0 <= j < |ds| => acc[0] + [ds[j]]);
      assert Cross(acc, ds) == head + Cross(acc[1..], ds);
      EvalDisjAppend(head, Cross(acc[1..], ds), v);
      EvalCross(acc[1..], ds, v);
      EvalCrossHead(acc[0], ds, v);
      EvalDisjCons(acc, v);
    }
  }

  /** Some conjunction of `x + y` holds exactly when one of `x` or one of `y` does. */
  lemma EvalDisjAppend(x: seq<seq<WhenCondition>>, y: seq<seq<WhenCondition>>, v: WhenCondition -> bool)
    ensures EvalDisj(x + y, v) == (EvalDisj(x, v) || EvalDisj(y, v))
  {
    var xy := x + y;
    if EvalDisj(xy, v) {
      var k :| 0 <= k < |xy| && EvalConj(xy[k], v);
      if k < |x| {
        assert xy[k] == x[k];
      } else {
        assert xy[k] == y[k - |x|];
      }
    }
    if EvalDisj(x, v) {
      var k :| 0 <= k < |x| && EvalConj(x[k], v);
      assert xy[k] == x[k];
    }
    if EvalDisj(y, v) {
      var k :| 0 <= k < |y| && EvalConj(y[k], v);
      assert xy[|x| + k] == y[k];
    }
  }

  lemma EvalDisjCons(acc: seq<seq<WhenCondition>>, v: WhenCondition -> bool)
    requires acc != []
    ensures EvalDisj(acc, v) == (EvalConj(acc[0], v) || EvalDisj(acc[1..], v))
  {
    if EvalDisj(acc, v) {
      var k :| 0 <= k < |acc| && EvalConj(acc[k], v);
      if k > 0 {
        assert acc[1..][k - 1] == acc[k];
      }
    }
    if EvalDisj(acc[1..], v) {
      var k :| 0 <= k < |acc[1..]| && EvalConj(acc[1..][k], v);
      assert acc[1..][k] == acc[k + 1];
    }
  }

  /** The conjunctions `conj + [d]` for every `d` of `ds`: one holds exactly when `conj` and some
    * `d` do. */
  lemma EvalCrossHead(conj: seq<WhenCondition>, ds: seq<WhenCondition>, v: WhenCondition -> bool)
    ensures EvalDisj(seq(|ds|, j requires 0 <= j < |ds| => conj + [ds[j]]), v) ==
            (EvalConj(conj, v) && exists j | 0 <= j < |ds| :: Eval(ds[j], v))
  {
    var head := seq(|ds|, j requires 0 <= j < |ds| => conj + [ds[j]]);
    forall j | 0 <= j < |ds| ensures EvalConj(head[j], v) == (EvalConj(conj, v) && Eval(ds[j], v)) {
      EvalConjSnoc(conj, ds[j], v);
    }
    if EvalDisj(head, v) {
      var k :| 0 <= k < |head| && EvalConj(head[k], v);
      assert Eval(ds[k], v);
    }
  }

  /** `to_dnf` preserves the truth value of a condition under every assignment to its atoms. */
  lemma {:induction false} EvalToDnf(c: WhenCondition, v: WhenCondition -> bool)
    ensures Eval(ToDnf(c), v) == Eval(c, v)
    decreases W(c), 2
  {
    match c
    case All(cs) => EvalAllToDnf(cs, v);
    case Any(cs) => EvalAnyDisjuncts(cs, v);
    case Not(x) => EvalNotToDnf(x, v);
    case _ =>
  }

  lemma {:induction false} EvalNotToDnf(x: WhenCondition, v: WhenCondition -> bool)
    ensures Eval(NotToDnf(x), v) == !Eval(x, v)
    decreases 2 * W(x), 1
  {
    match x
    case All(inner) =>
      NegateWeight(inner);
      EvalToDnf(Any(Negate(inner)), v);
    case Any(inner) =>
      NegateWeight(inner);
      EvalToDnf(All(Negate(inner)), v);
    case Not(inner) => EvalToDnf(inner, v);
    case _ => EvalToDnf(x, v);
  }

  lemma {:induction false} EvalAnyDisjuncts(cs: seq<WhenCondition>, v: WhenCondition -> bool)
    ensures (exists k | 0 <= k < |AnyDisjuncts(cs)| :: Eval(AnyDisjuncts(cs)[k], v)) == (exists i | 0 <= i < |cs| :: Eval(cs[i], v))
    decreases 1 + WSum(cs), 0
  {
    if cs != [] {
      var d := Disjuncts(ToDnf(cs[0]));
      var rest := AnyDisjuncts(cs[1..]);
      EvalToDnf(cs[0], v);
      EvalDisjuncts(ToDnf(cs[0]), v);
      EvalAnyDisjuncts(cs[1..], v);
      assert AnyDisjuncts(cs) == d + rest;
      if exists k | 0 <= k < |d + rest| :: Eval((d + rest)[k], v) {
        var k :| 0 <= k < |d + rest| && Eval((d + rest)[k], v);
        if k >= |d| {
          assert rest[k - |d|] == (d + rest)[k];
          var i :| 0 <= i < |cs[1..]| && Eval(cs[1..][i], v);
          assert cs[1..][i] == cs[i + 1];
        }
      }
      if exists i | 0 <= i < |cs| :: Eval(cs[i], v) {
        var i :| 0 <= i < |cs| && Eval(cs[i], v);
        if i == 0 {
          var j :| 0 <= j < |d| && Eval(d[j], v);
          assert (d + rest)[j] == d[j];
        } else {
          assert cs[1..][i - 1] == cs[i];
          var j :| 0 <= j < |rest| && Eval(rest[j], v);
          assert (d + rest)[|d| + j] == rest[j];
        }
      }
    }
  }

  lemma {:induction false} EvalProduct(acc: seq<seq<WhenCondition>>, cs: seq<WhenCondition>, v: WhenCondition -> bool)
    ensures EvalDisj(Product(acc, cs), v) == (EvalDisj(acc, v) && forall i | 0 <= i < |cs| :: Eval(cs[i], v))
    decreases 1 + WSum(cs), 0
  {
    if cs != [] {
      var d := Disjuncts(ToDnf(cs[0]));
      EvalToDnf(cs[0], v);
      EvalDisjuncts(ToDnf(cs[0]), v);
      EvalCross(acc, d, v);
      EvalProduct(Cross(acc, d), cs[1..], v);
      assert (forall i | 0 <= i < |cs| :: Eval(cs[i], v)) <==> Eval(cs[0], v) && (forall i | 0 <= i < |cs[1..]| :: Eval(cs[1..][i], v)) by {
        assert forall i | 0 <= i < |cs[1..]| :: cs[1..][i] == cs[i + 1];
        if Eval(cs[0], v) && (forall i | 0 <= i < |cs[1..]| :: Eval(cs[1..][i], v)) {
          forall i | 0 <= i < |cs| ensures Eval(cs[i], v) {
            if i > 0 { assert cs[1..][i - 1] == cs[i]; }
          }
        }
      }
    }
  }

  lemma EvalAllToDnf(cs: seq<WhenCondition>, v: WhenCondition -> bool)
    ensures Eval(AllToDnf(cs), v) == (forall i | 0 <= i < |cs| :: Eval(cs[i], v))
    decreases 1 + WSum(cs), 1
  {
    var dnf := Product([[]], cs);
    var conj := AllEach(dnf);
    EvalProduct([[]], cs, v);
    assert EvalDisj([[]], v) by { assert EvalConj([[]][0], v); }
    if EvalDisj(dnf, v) {
      var k :| 0 <= k < |dnf| && EvalConj(dnf[k], v);
      assert Eval(conj[k], v);
    }
    if Eval(Any(conj), v) {
      var k :| 0 <= k < |conj| && Eval(conj[k], v);
      assert EvalConj(dnf[k], v);
    }
  }

  // ============================================================ normal form

  /** A conjunctive term: an atom, a negated atom, or an `All` of terms. */
  predicate Term(c: WhenCondition)
    decreases c
  {
    IsAtom(c) || (c.Not? && IsAtom(c.cond)) ||
    (c.All? && forall i | 0 <= i < |c.conds| :: Term(c.conds[i]))
  }

  /** What `to_dnf` returns: an atom, a negated atom, or an `Any` of terms. `Not` occurs only
    * directly around an atom, and every `All` sits under an `Any`. */
  predicate Dnf(c: WhenCondition) {
    IsAtom(c) || (c.Not? && IsAtom(c.cond)) ||
    (c.Any? && forall i | 0 <= i < |c.conds| :: Term(c.conds[i]))
  }

  predicate AllTerms(cs: seq<WhenCondition>) {
    forall i | 0 <= i < |cs| :: Term(cs[i])
  }

  lemma {:induction false} CrossTerms(acc: seq<seq<WhenCondition>>, ds: seq<WhenCondition>)
    requires forall k | 0 <= k < |acc| :: AllTerms(acc[k])
    requires AllTerms(ds)
    ensures forall k | 0 <= k < |Cross(acc, ds)| :: AllTerms(Cross(acc, ds)[k])
  {
    if acc != [] {
      CrossTerms(acc[1..], ds);
      var head := seq(|ds|, j requires 0 <= j < |ds| => acc[0] + [ds[j]]);
      assert Cross(acc, ds) == head + Cross(acc[1..], ds);
      forall k | 0 <= k < |Cross(acc, ds)| ensures AllTerms(Cross(acc, ds)[k]) {
        if k < |head| {
          assert Cross(acc, ds)[k] == acc[0] + [ds[k]];
        } else {
          assert Cross(acc, ds)[k] == Cross(acc[1..], ds)[k - |head|];
        }
      }
    }
  }

  /** Every result of `to_dnf` is in disjunctive normal form. */
  lemma {:induction false} DnfToDnf(c: WhenCondition)
    ensures Dnf(ToDnf(c))
    decreases W(c), 2
  {
    match c
    case All(cs) =>
      var dnf := Product([[]], cs);
      TermsProduct([[]], cs);
      forall k | 0 <= k < |dnf| ensures Term(AllEach(dnf)[k]) {
        assert AllEach(dnf)[k] == All(dnf[k]);
      }
    case Any(cs) => TermsAnyDisjuncts(cs);
    case Not(x) => DnfNotToDnf(x);
    case _ =>
  }

  lemma {:induction false} DnfNotToDnf(x: WhenCondition)
    ensures Dnf(NotToDnf(x))
    decreases 2 * W(x), 1
  {
    match x
    case All(inner) =>
      NegateWeight(inner);
      DnfToDnf(Any(Negate(inner)));
    case Any(inner) =>
      NegateWeight(inner);
      DnfToDnf(All(Negate(inner)));
    case Not(inner) => DnfToDnf(inner);
    case _ =>
  }

  lemma {:induction false} TermsAnyDisjuncts(cs: seq<WhenCondition>)
    ensures AllTerms(AnyDisjuncts(cs))
    decreases 1 + WSum(cs), 0
  {
    if cs != [] {
      DnfToDnf(cs[0]);
      TermsAnyDisjuncts(cs[1..]);
    }
  }

  lemma {:induction false} TermsProduct(acc: seq<seq<WhenCondition>>, cs: seq<WhenCondition>)
    requires forall k | 0 <= k < |acc| :: AllTerms(acc[k])
    ensures forall k | 0 <= k < |Product(acc, cs)| :: AllTerms(Product(acc, cs)[k])
    decreases 1 + WSum(cs), 0
  {
    if cs != [] {
      DnfToDnf(cs[0]);
      CrossTerms(acc, Disjuncts(ToDnf(cs[0])));
      TermsProduct(Cross(acc, Disjuncts(ToDnf(cs[0]))), cs[1..]);
    }
  }

  /** `Product` of a single conjunction with conditions that are their own only disjunct. */
  lemma {:induction false} ProductOfSingletons(acc0: seq<WhenCondition>, cs: seq<WhenCondition>)
    requires forall i | 0 <= i < |cs| :: Disjuncts(ToDnf(cs[i])) == [cs[i]]
    ensures Product([acc0], cs) == [acc0 + cs]
    decreases |cs|
  {
    if cs == [] {
      assert acc0 + cs == acc0;
    } else {
      assert Cross([acc0], [cs[0]]) == [acc0 + [cs[0]]] by {
        assert [acc0][1..] == [];
      }
      ProductOfSingletons(acc0 + [cs[0]], cs[1..]);
      assert acc0 + [cs[0]] + cs[1..] == acc0 + cs;
    }
  }

  lemma {:induction false} AnyDisjunctsOfSingletons(cs: seq<WhenCondition>)
    requires forall i | 0 <= i < |cs| :: Disjuncts(ToDnf(cs[i])) == [cs[i]]
    ensures AnyDisjuncts(cs) == cs
    decreases |cs|
  {
    if cs != [] {
      AnyDisjunctsOfSingletons(cs[1..]);
    }
  }

  /** A term is its own only disjunct after `to_dnf`: an `All` of terms becomes an `Any`
    * holding just that `All`. */
  lemma {:induction false} TermDisjuncts(t: WhenCondition)
    requires Term(t)
    ensures Disjuncts(ToDnf(t)) == [t]
    decreases t
  {
    match t
    case All(cs) =>
      forall i | 0 <= i < |cs| ensures Disjuncts(ToDnf(cs[i])) == [cs[i]] {
        TermDisjuncts(cs[i]);
      }
      ProductOfSingletons([], cs);
      assert [] + cs == cs;
      assert AllEach([cs]) == [All(cs)];
    case Not(x) =>
      assert NotToDnf(x) == Not(ToDnf(x));
    case _ =>
  }

  /** A condition in normal form is left unchanged by `to_dnf`. */
  lemma {:induction false} DnfFixed(c: WhenCondition)
    requires Dnf(c)
    ensures ToDnf(c) == c
  {
    match c
    case Any(ds) =>
      forall i | 0 <= i < |ds| ensures Disjuncts(ToDnf(ds[i])) == [ds[i]] {
        TermDisjuncts(ds[i]);
      }
      AnyDisjunctsOfSingletons(ds);
    case Not(x) =>
      assert NotToDnf(x) == Not(ToDnf(x));
    case _ =>
  }

  /** `to_dnf` is idempotent, so `normalize` stops as soon as it compares two rounds. */
  lemma ToDnfIdempotent(c: WhenCondition)
    ensures ToDnf(ToDnf(c)) == ToDnf(c)
  {
    DnfToDnf(c);
    DnfFixed(ToDnf(c));
  }
}
