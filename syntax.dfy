/** The parts of `proc_macro2` and `syn` that the specialization library reads and rewrites:
  * token trees, the `syn::Type` shapes the library distinguishes, generic parameter lists,
  * and a token rendering that stands for `quote`'s `to_string()`.
  *
  * A `String` field of the library that holds a rendered type (a condition's type, a
  * constraint's type, a generic binding) is modelled by the `Ty` it renders; `to_string`
  * is `Render` and `syn::parse_str` of a rendered type gives back the same `Ty`. */
module Syntax {
  import opened Wrappers
  import Strings

  // ---------------------------------------------------------------- token trees

  datatype Delimiter = Parenthesis | Bracket | Brace | NoDelimiter

  /** A `proc_macro2::TokenTree`. */
  datatype Token =
    | Ident(name: string)
    | Punct(ch: char)
    | Group(delim: Delimiter, inner: seq<Token>)
    | Literal(text: string)

  predicate IsPunct(ts: seq<Token>, pos: nat, c: char) {
    pos < |ts| && ts[pos] == Punct(c)
  }

  /** The token count of a token stream, groups included, used to show that parsing a group's
    * content is a smaller problem. */
  function TokenSize(t: Token): nat
    decreases t
  {
    if t.Group? then 1 + Size(t.inner) else 1
  }

  function Size(ts: seq<Token>): nat
    decreases ts
  {
    if ts == [] then 0 else TokenSize(ts[0]) + Size(ts[1..])
  }

  lemma {:induction false} SizeSuffix(ts: seq<Token>, i: nat)
    requires i <= |ts|
    ensures Size(ts[i..]) <= Size(ts)
    ensures i < |ts| ==> Size(ts[i..]) == TokenSize(ts[i]) + Size(ts[i + 1..])
  {
    if i < |ts| {
      assert ts[i..][1..] == ts[i + 1..];
    }
    if i > 0 {
      SizeSuffix(ts[1..], i - 1);
      assert ts[1..][i - 1..] == ts[i..];
    }
  }

  /** A later suffix of a token stream is no larger than an earlier one. */
  lemma {:induction false} SizeSuffixMono(ts: seq<Token>, i: nat, j: nat)
    requires i <= j <= |ts|
    ensures Size(ts[j..]) <= Size(ts[i..])
    decreases j - i
  {
    if i < j {
      SizeSuffix(ts, i);
      SizeSuffixMono(ts, i + 1, j);
    }
  }

  // ---------------------------------------------------------------- types

  /** `syn::Type`, restricted to the shapes the library treats differently (a reference keeps
    * its lifetime and whether it is `mut`). Qualified-self
    * paths, function pointers, trait objects, `impl Trait`, pointers and macros are `Other`. */
  datatype Ty =
    | Tuple(elems: seq<Ty>)
    | Ref(lifetime: Option<string>, mutable: bool, elem: Ty)
    | Array(elem: Ty, len: ArrayLen)
    | Slice(elem: Ty)
    | Paren(elem: Ty)
    | Path(segs: seq<Segment>)
    | Infer
    | Other(text: string)

  /** The length expression of `[T; N]`; `_` is a `syn::Expr::Infer`. */
  datatype ArrayLen = LenExpr(text: string) | LenInfer

  datatype Segment = Segment(ident: string, args: PathArgs)

  /** `syn::PathArguments`: none, `<...>`, or `(...) -> ...` (kept as text). */
  datatype PathArgs = NoArgs | Angle(args: seq<GenericArg>) | Parenthesized(text: string)

  /** `syn::GenericArgument`: a type, a lifetime, or something else (a const, a binding). */
  datatype GenericArg = TypeArg(ty: Ty) | LifetimeArg(name: string) | ConstArg(text: string)

  /** A plain name such as `T` or `i32`: a one-segment path without arguments. */
  function Named(name: string): Ty {
    Path([Segment(name, NoArgs)])
  }

  /** A path of one segment, whatever its arguments: the library's tests for a generic look at
    * `segments.len() == 1` and the identifier. */
  predicate IsSingleSegment(t: Ty) {
    t.Path? && |t.segs| == 1
  }

  /** `unwrap_paren`: strips every layer of parentheses. */
  function UnwrapParens(t: Ty): (r: Ty)
    ensures !r.Paren?
    ensures TySize(r) <= TySize(t)
    ensures !t.Paren? ==> r == t
    decreases t
  {
    if t.Paren? then UnwrapParens(t.elem) else t
  }

  // ---------------------------------------------------------------- sizes

  /** The number of nodes of a type, used as a termination measure where a type is rebuilt
    * (for instance a path segment turned into a one-segment path) before it is recursed on. */
  function TySize(t: Ty): (r: nat)
    ensures r >= 1
    decreases t, 1
  {
    match t
    case Tuple(es) => 1 + TysSize(es)
    case Ref(_, _, e) => 1 + TySize(e)
    case Array(e, _) => 1 + TySize(e)
    case Slice(e) => 1 + TySize(e)
    case Paren(e) => 1 + TySize(e)
    case Path(segs) => 1 + SegsSize(segs)
    case Infer => 1
    case Other(_) => 1
  }

  function TysSize(es: seq<Ty>): (r: nat)
    ensures forall i :: 0 <= i < |es| ==> TySize(es[i]) <= r
    ensures es != [] ==> r == TySize(es[0]) + TysSize(es[1..])
    decreases es, 0
  {
    if es == [] then 0
    else
      var r := TySize(es[0]) + TysSize(es[1..]);
      assert forall i :: 1 <= i < |es| ==> es[i] == es[1..][i - 1];
      r
  }

  function SegSize(s: Segment): (r: nat)
    ensures r >= 1
    decreases s, 1
  {
    1 + (if s.args.Angle? then ArgsSize(s.args.args) else 0)
  }

  function SegsSize(segs: seq<Segment>): (r: nat)
    ensures forall i :: 0 <= i < |segs| ==> SegSize(segs[i]) <= r
    ensures segs != [] ==> r == SegSize(segs[0]) + SegsSize(segs[1..])
    decreases segs, 0
  {
    if segs == [] then 0
    else
      var r := SegSize(segs[0]) + SegsSize(segs[1..]);
      assert forall i :: 1 <= i < |segs| ==> segs[i] == segs[1..][i - 1];
      r
  }

  function ArgSize(a: GenericArg): (r: nat)
    ensures r >= 1
    decreases a, 1
  {
    if a.TypeArg? then TySize(a.ty) else 1
  }

  function ArgsSize(args: seq<GenericArg>): (r: nat)
    ensures forall i :: 0 <= i < |args| ==> ArgSize(args[i]) <= r
    ensures args != [] ==> r == ArgSize(args[0]) + ArgsSize(args[1..])
    decreases args, 0
  {
    if args == [] then 0
    else
      var r := ArgSize(args[0]) + ArgsSize(args[1..]);
      assert forall i :: 1 <= i < |args| ==> args[i] == args[1..][i - 1];
      r
  }

  /** `proc_macro2::Ident::new` accepts an identifier: a letter or `_` followed by letters,
    * digits and `_` (ASCII only in this model). */
  predicate IsIdent(s: string) {
    |s| > 0 && (IsLetter(s[0]) || s[0] == '_') &&
    forall i :: 0 <= i < |s| ==> IsLetter(s[i]) || '0' <= s[i] <= '9' || s[i] == '_'
  }

  predicate IsLetter(c: char) {
    'a' <= c <= 'z' || 'A' <= c <= 'Z'
  }

  // ---------------------------------------------------------------- wildcards

  /** The number of `_` types that `replace_infers` visits: through tuples, references, arrays,
    * slices, parentheses and the type arguments of paths. */
  function InferCount(t: Ty): nat
    decreases t
  {
    match t
    case Tuple(es) => InferCountTys(es)
    case Ref(_, _, e) => InferCount(e)
    case Array(e, _) => InferCount(e)
    case Slice(e) => InferCount(e)
    case Paren(e) => InferCount(e)
    case Path(segs) => InferCountSegs(segs)
    case Infer => 1
    case Other(_) => 0
  }

  function InferCountTys(es: seq<Ty>): nat
    decreases es
  {
    if es == [] then 0 else InferCountTys(es[..|es| - 1]) + InferCount(es[|es| - 1])
  }

  function InferCountSegs(segs: seq<Segment>): nat
    decreases segs
  {
    if segs == [] then 0 else InferCountSegs(segs[..|segs| - 1]) + InferCountSeg(segs[|segs| - 1])
  }

  function InferCountSeg(s: Segment): nat
    decreases s
  {
    if s.args.Angle? then InferCountArgs(s.args.args) else 0
  }

  function InferCountArgs(args: seq<GenericArg>): nat
    decreases args
  {
    if args == [] then 0
    else InferCountArgs(args[..|args| - 1]) + InferCountArg(args[|args| - 1])
  }

  function InferCountArg(a: GenericArg): nat
    decreases a
  {
    if a.TypeArg? then InferCount(a.ty) else 0
  }

  /** The reference definition of `replace_infers`: the `_` types of `t`, left to right, replaced by
    * the one-segment paths named in `names`. */
  function FillInfers(t: Ty, names: seq<string>): (r: Ty)
    requires |names| == InferCount(t)
    ensures InferCount(r) == 0
    decreases t
  {
    match t
    case Tuple(es) => Tuple(FillInfersTys(es, names))
    case Ref(lt, m, e) => Ref(lt, m, FillInfers(e, names))
    case Array(e, n) => Array(FillInfers(e, names), n)
    case Slice(e) => Slice(FillInfers(e, names))
    case Paren(e) => Paren(FillInfers(e, names))
    case Path(segs) => Path(FillInfersSegs(segs, names))
    case Infer => assert InferCountSegs([Segment(names[0], NoArgs)]) == 0; Named(names[0])
    case Other(_) => t
  }

  function FillInfersTys(es: seq<Ty>, names: seq<string>): (r: seq<Ty>)
    requires |names| == InferCountTys(es)
    ensures |r| == |es| && InferCountTys(r) == 0
    decreases es
  {
    if es == [] then []
    else
      var k := InferCountTys(es[..|es| - 1]);
      var r := FillInfersTys(es[..|es| - 1], names[..k]) + [FillInfers(es[|es| - 1], names[k..])];
      assert r[..|r| - 1] == FillInfersTys(es[..|es| - 1], names[..k]);
      r
  }

  function FillInfersSegs(segs: seq<Segment>, names: seq<string>): (r: seq<Segment>)
    requires |names| == InferCountSegs(segs)
    ensures |r| == |segs| && InferCountSegs(r) == 0
    decreases segs
  {
    if segs == [] then []
    else
      var k := InferCountSegs(segs[..|segs| - 1]);
      var r := FillInfersSegs(segs[..|segs| - 1], names[..k]) + [FillInfersSeg(segs[|segs| - 1], names[k..])];
      assert r[..|r| - 1] == FillInfersSegs(segs[..|segs| - 1], names[..k]);
      r
  }

  function FillInfersSeg(s: Segment, names: seq<string>): (r: Segment)
    requires |names| == InferCountSeg(s)
    ensures InferCountSeg(r) == 0
    decreases s
  {
    if s.args.Angle? then Segment(s.ident, Angle(FillInfersArgs(s.args.args, names))) else s
  }

  function FillInfersArgs(args: seq<GenericArg>, names: seq<string>): (r: seq<GenericArg>)
    requires |names| == InferCountArgs(args)
    ensures |r| == |args| && InferCountArgs(r) == 0
    decreases args
  {
    if args == [] then []
    else
      var k := InferCountArgs(args[..|args| - 1]);
      var r := FillInfersArgs(args[..|args| - 1], names[..k]) + [FillInfersArg(args[|args| - 1], names[k..])];
      assert r[..|r| - 1] == FillInfersArgs(args[..|args| - 1], names[..k]);
      r
  }

  function FillInfersArg(a: GenericArg, names: seq<string>): (r: GenericArg)
    requires |names| == InferCountArg(a)
    ensures InferCountArg(r) == 0
    decreases a
  {
    if a.TypeArg? then TypeArg(FillInfers(a.ty, names)) else a
  }

  /** Filling one more element: the names for the prefix come first, then those for the new
    * element. */
  lemma FillInfersTysStep(es: seq<Ty>, i: nat, a: seq<string>, b: seq<string>)
    requires i < |es| && |a| == InferCountTys(es[..i]) && |b| == InferCount(es[i])
    ensures InferCountTys(es[..i + 1]) == |a| + |b|
    ensures FillInfersTys(es[..i + 1], a + b) == FillInfersTys(es[..i], a) + [FillInfers(es[i], b)]
  {
    assert es[..i + 1][..i] == es[..i] && es[..i + 1][i] == es[i];
    assert (a + b)[..|a|] == a && (a + b)[|a|..] == b;
  }

  /** The first element alone. */
  lemma FillInfersTysFirst(es: seq<Ty>, a: seq<string>)
    requires |es| >= 1 && |a| == InferCount(es[0])
    ensures InferCountTys(es[..1]) == |a| && FillInfersTys(es[..1], a) == [FillInfers(es[0], a)]
  {
    var none: seq<string> := [];
    assert es[..0] == [] && none + a == a;
    FillInfersTysStep(es, 0, none, a);
  }

  lemma FillInfersSegsStep(segs: seq<Segment>, i: nat, a: seq<string>, b: seq<string>)
    requires i < |segs| && |a| == InferCountSegs(segs[..i]) && |b| == InferCountSeg(segs[i])
    ensures InferCountSegs(segs[..i + 1]) == |a| + |b|
    ensures FillInfersSegs(segs[..i + 1], a + b) == FillInfersSegs(segs[..i], a) + [FillInfersSeg(segs[i], b)]
  {
    assert segs[..i + 1][..i] == segs[..i] && segs[..i + 1][i] == segs[i];
    assert (a + b)[..|a|] == a && (a + b)[|a|..] == b;
  }

  lemma FillInfersArgsStep(args: seq<GenericArg>, i: nat, a: seq<string>, b: seq<string>)
    requires i < |args| && |a| == InferCountArgs(args[..i]) && |b| == InferCountArg(args[i])
    ensures InferCountArgs(args[..i + 1]) == |a| + |b|
    ensures FillInfersArgs(args[..i + 1], a + b) == FillInfersArgs(args[..i], a) + [FillInfersArg(args[i], b)]
  {
    assert args[..i + 1][..i] == args[..i] && args[..i + 1][i] == args[i];
    assert (a + b)[..|a|] == a && (a + b)[|a|..] == b;
  }

  // ---------------------------------------------------------------- reference lifetimes

  /** Every reference lifetime of a type mapped through `f`, everything else kept, along the
    * traversal of `strip_lifetimes` and `replace_lifetime`: tuples, references, arrays, slices,
    * parentheses and the type arguments of paths. */
  function MapLifetimes(t: Ty, f: Option<string> -> Option<string>): Ty
    decreases t
  {
    match t
    case Tuple(es) => Tuple(seq(|es|, i requires 0 <= i < |es| => MapLifetimes(es[i], f)))
    case Ref(lt, m, e) => Ref(f(lt), m, MapLifetimes(e, f))
    case Array(e, n) => Array(MapLifetimes(e, f), n)
    case Slice(e) => Slice(MapLifetimes(e, f))
    case Paren(e) => Paren(MapLifetimes(e, f))
    case Path(segs) => Path(seq(|segs|, i requires 0 <= i < |segs| => MapSegLifetimes(segs[i], f)))
    case Infer => t
    case Other(_) => t
  }

  function MapSegLifetimes(s: Segment, f: Option<string> -> Option<string>): Segment
    decreases s
  {
    if s.args.Angle? then
      Segment(s.ident, Angle(seq(|s.args.args|, j requires 0 <= j < |s.args.args| => MapArgLifetimes(s.args.args[j], f))))
    else s
  }

  function MapArgLifetimes(a: GenericArg, f: Option<string> -> Option<string>): GenericArg
    decreases a
  {
    if a.TypeArg? then TypeArg(MapLifetimes(a.ty, f)) else a
  }

  /** `l` is the lifetime of some reference reached by that traversal. */
  predicate HasLifetime(t: Ty, l: string)
    decreases t
  {
    match t
    case Tuple(es) => exists i :: 0 <= i < |es| && HasLifetime(es[i], l)
    case Ref(lt, _, e) => lt == Some(l) || HasLifetime(e, l)
    case Array(e, _) => HasLifetime(e, l)
    case Slice(e) => HasLifetime(e, l)
    case Paren(e) => HasLifetime(e, l)
    case Path(segs) => exists i :: 0 <= i < |segs| && SegHasLifetime(segs[i], l)
    case Infer => false
    case Other(_) => false
  }

  predicate SegHasLifetime(s: Segment, l: string)
    decreases s
  {
    s.args.Angle? && exists j :: 0 <= j < |s.args.args| && ArgHasLifetime(s.args.args[j], l)
  }

  predicate ArgHasLifetime(a: GenericArg, l: string)
    decreases a
  {
    a.TypeArg? && HasLifetime(a.ty, l)
  }

  /** The lifetimes of the result are the images under `f` of the lifetimes of `t` (when `f`
    * keeps an absent lifetime absent). */
  lemma {:induction false} MapLifetimesHas(t: Ty, f: Option<string> -> Option<string>, x: string)
    requires f(None) == None
    ensures HasLifetime(MapLifetimes(t, f), x) <==> exists l :: HasLifetime(t, l) && f(Some(l)) == Some(x)
    decreases TySize(t), 1
  {
    match t
    case Tuple(es) => MapTupleLifetimesHas(es, f, x);
    case Ref(lt, _, e) =>
      MapLifetimesHas(e, f, x);
      if f(lt) == Some(x) {
        assert HasLifetime(t, lt.value);
      }
    case Array(e, _) => MapLifetimesHas(e, f, x);
    case Slice(e) => MapLifetimesHas(e, f, x);
    case Paren(e) => MapLifetimesHas(e, f, x);
    case Path(segs) => MapPathLifetimesHas(segs, f, x);
    case Infer =>
    case Other(_) =>
  }

  lemma {:induction false} MapTupleLifetimesHas(es: seq<Ty>, f: Option<string> -> Option<string>, x: string)
    requires f(None) == None
    ensures HasLifetime(MapLifetimes(Tuple(es), f), x) <==> exists l :: HasLifetime(Tuple(es), l) && f(Some(l)) == Some(x)
    decreases TysSize(es), 2
  {
    var t := Tuple(es);
    var ms := MapLifetimes(t, f).elems;
    if HasLifetime(Tuple(ms), x) {
      var i :| 0 <= i < |ms| && HasLifetime(ms[i], x);
      assert ms[i] == MapLifetimes(es[i], f);
      MapLifetimesHas(es[i], f, x);
      var l :| HasLifetime(es[i], l) && f(Some(l)) == Some(x);
      assert HasLifetime(t, l);
    }
    if exists l :: HasLifetime(t, l) && f(Some(l)) == Some(x) {
      var l :| HasLifetime(t, l) && f(Some(l)) == Some(x);
      var i :| 0 <= i < |es| && HasLifetime(es[i], l);
      assert ms[i] == MapLifetimes(es[i], f);
      MapLifetimesHas(es[i], f, x);
      assert HasLifetime(ms[i], x);
    }
  }

  lemma {:induction false} MapPathLifetimesHas(segs: seq<Segment>, f: Option<string> -> Option<string>, x: string)
    requires f(None) == None
    ensures HasLifetime(MapLifetimes(Path(segs), f), x) <==> exists l :: HasLifetime(Path(segs), l) && f(Some(l)) == Some(x)
    decreases SegsSize(segs), 2
  {
    var t := Path(segs);
    var ms := MapLifetimes(t, f).segs;
    if HasLifetime(Path(ms), x) {
      var i :| 0 <= i < |ms| && SegHasLifetime(ms[i], x);
      assert ms[i] == MapSegLifetimes(segs[i], f);
      MapSegLifetimesHas(segs[i], f, x);
      var l :| SegHasLifetime(segs[i], l) && f(Some(l)) == Some(x);
      assert HasLifetime(t, l);
    }
    if exists l :: HasLifetime(t, l) && f(Some(l)) == Some(x) {
      var l :| HasLifetime(t, l) && f(Some(l)) == Some(x);
      var i :| 0 <= i < |segs| && SegHasLifetime(segs[i], l);
      assert ms[i] == MapSegLifetimes(segs[i], f);
      MapSegLifetimesHas(segs[i], f, x);
      assert SegHasLifetime(ms[i], x);
    }
  }

  lemma {:induction false} MapSegLifetimesHas(s: Segment, f: Option<string> -> Option<string>, x: string)
    requires f(None) == None
    ensures SegHasLifetime(MapSegLifetimes(s, f), x) <==> exists l :: SegHasLifetime(s, l) && f(Some(l)) == Some(x)
    decreases SegSize(s), 1
  {
    if s.args.Angle? {
      var args := s.args.args;
      var ms := MapSegLifetimes(s, f).args.args;
      forall j | 0 <= j < |args|
        ensures ArgHasLifetime(ms[j], x) <==> exists l :: ArgHasLifetime(args[j], l) && f(Some(l)) == Some(x)
      {
        assert ms[j] == MapArgLifetimes(args[j], f);
        if args[j].TypeArg? {
          assert TySize(args[j].ty) == ArgSize(args[j]) <= ArgsSize(args) < SegSize(s);
          MapLifetimesHas(args[j].ty, f, x);
        }
      }
      if SegHasLifetime(MapSegLifetimes(s, f), x) {
        var j :| 0 <= j < |ms| && ArgHasLifetime(ms[j], x);
        var l :| ArgHasLifetime(args[j], l) && f(Some(l)) == Some(x);
        assert SegHasLifetime(s, l);
      }
      if exists l :: SegHasLifetime(s, l) && f(Some(l)) == Some(x) {
        var l :| SegHasLifetime(s, l) && f(Some(l)) == Some(x);
        var j :| 0 <= j < |args| && ArgHasLifetime(args[j], l);
        assert ArgHasLifetime(ms[j], x);
      }
    }
  }

  /** Mapping twice is mapping once by the composition. */
  lemma {:induction false} MapLifetimesCompose(t: Ty, f: Option<string> -> Option<string>, g: Option<string> -> Option<string>,
                                               h: Option<string> -> Option<string>)
    requires forall o :: h(o) == g(f(o))
    ensures MapLifetimes(MapLifetimes(t, f), g) == MapLifetimes(t, h)
    decreases t, 1
  {
    match t
    case Tuple(es) =>
      forall i | 0 <= i < |es| ensures MapLifetimes(MapLifetimes(es[i], f), g) == MapLifetimes(es[i], h) {
        MapLifetimesCompose(es[i], f, g, h);
      }
    case Ref(_, _, e) => MapLifetimesCompose(e, f, g, h);
    case Array(e, _) => MapLifetimesCompose(e, f, g, h);
    case Slice(e) => MapLifetimesCompose(e, f, g, h);
    case Paren(e) => MapLifetimesCompose(e, f, g, h);
    case Path(segs) =>
      forall i | 0 <= i < |segs| ensures MapSegLifetimes(MapSegLifetimes(segs[i], f), g) == MapSegLifetimes(segs[i], h) {
        MapSegLifetimesCompose(segs[i], f, g, h);
      }
    case Infer =>
    case Other(_) =>
  }

  lemma {:induction false} MapSegLifetimesCompose(s: Segment, f: Option<string> -> Option<string>, g: Option<string> -> Option<string>,
                                                  h: Option<string> -> Option<string>)
    requires forall o :: h(o) == g(f(o))
    ensures MapSegLifetimes(MapSegLifetimes(s, f), g) == MapSegLifetimes(s, h)
    decreases s, 0
  {
    if s.args.Angle? {
      var args := s.args.args;
      var once := MapSegLifetimes(s, f);
      var twice := MapSegLifetimes(once, g).args.args;
      var direct := MapSegLifetimes(s, h).args.args;
      forall j | 0 <= j < |args| ensures twice[j] == direct[j] {
        assert once.args.args[j] == MapArgLifetimes(args[j], f);
        assert twice[j] == MapArgLifetimes(once.args.args[j], g);
        assert direct[j] == MapArgLifetimes(args[j], h);
        if args[j].TypeArg? {
          MapLifetimesCompose(args[j].ty, f, g, h);
        }
      }
      assert twice == direct;
    }
  }

  /** A map that keeps every lifetime present (and an absent one absent) changes nothing. */
  lemma {:induction false} MapLifetimesFixes(t: Ty, f: Option<string> -> Option<string>)
    requires f(None) == None
    requires forall l :: HasLifetime(t, l) ==> f(Some(l)) == Some(l)
    ensures MapLifetimes(t, f) == t
    decreases t, 1
  {
    match t
    case Tuple(es) =>
      forall i | 0 <= i < |es| ensures MapLifetimes(es[i], f) == es[i] {
        assert forall l :: HasLifetime(es[i], l) ==> HasLifetime(t, l);
        MapLifetimesFixes(es[i], f);
      }
    case Ref(lt, _, e) =>
      assert forall l :: HasLifetime(e, l) ==> HasLifetime(t, l);
      MapLifetimesFixes(e, f);
      if lt.Some? {
        assert HasLifetime(t, lt.value);
      }
    case Array(e, _) => MapLifetimesFixes(e, f);
    case Slice(e) => MapLifetimesFixes(e, f);
    case Paren(e) => MapLifetimesFixes(e, f);
    case Path(segs) =>
      forall i | 0 <= i < |segs| ensures MapSegLifetimes(segs[i], f) == segs[i] {
        assert forall l :: SegHasLifetime(segs[i], l) ==> HasLifetime(t, l);
        MapSegLifetimesFixes(segs[i], f);
      }
    case Infer =>
    case Other(_) =>
  }

  lemma {:induction false} MapSegLifetimesFixes(s: Segment, f: Option<string> -> Option<string>)
    requires f(None) == None
    requires forall l :: SegHasLifetime(s, l) ==> f(Some(l)) == Some(l)
    ensures MapSegLifetimes(s, f) == s
    decreases s, 0
  {
    if s.args.Angle? {
      var args := s.args.args;
      forall j | 0 <= j < |args| ensures MapArgLifetimes(args[j], f) == args[j] {
        if args[j].TypeArg? {
          assert forall l :: HasLifetime(args[j].ty, l) ==> SegHasLifetime(s, l);
          MapLifetimesFixes(args[j].ty, f);
        }
      }
      assert MapSegLifetimes(s, f).args.args == args;
      assert MapSegLifetimes(s, f) == Segment(s.ident, Angle(args)) == s;
    }
  }

  /** No lifetime at all. */
  function NoLifetime(o: Option<string>): (r: Option<string>)
    ensures r.None?
  {
    None
  }

  /** The type with every reference lifetime removed: what a rewrite of lifetimes alone keeps. */
  function EraseLifetimes(t: Ty): (r: Ty)
    ensures forall l :: !HasLifetime(r, l)
  {
    forall l ensures !HasLifetime(MapLifetimes(t, NoLifetime), l) {
      MapLifetimesHas(t, NoLifetime, l);
    }
    MapLifetimes(t, NoLifetime)
  }

  // ---------------------------------------------------------------- rendering

  /** `quote!(#ty).to_string()`: tokens separated by single spaces, so `&'a Vec<i32>`
    * renders as `& 'a Vec < i32 >` and `&mut u8` as `& mut u8`. */
  function Render(t: Ty): string
    decreases t, 1
  {
    match t
    case Tuple(es) => "(" + Strings.Join(seq(|es|, i requires 0 <= i < |es| => Render(es[i])), " , ") + ")"
    case Ref(lt, m, e) => "& " + (if lt.Some? then lt.value + " " else "") + (if m then "mut " else "") + Render(e)
    case Array(e, len) => "[" + Render(e) + " ; " + (if len.LenExpr? then len.text else "_") + "]"
    case Slice(e) => "[" + Render(e) + "]"
    case Paren(e) => "(" + Render(e) + ")"
    case Path(segs) => Strings.Join(seq(|segs|, i requires 0 <= i < |segs| => RenderSegment(segs[i])), " :: ")
    case Infer => "_"
    case Other(text) => text
  }

  /** A plain name renders as itself. */
  lemma RenderNamed(name: string)
    ensures Render(Named(name)) == name
  {
    var t := Named(name);
    assert RenderSegment(t.segs[0]) == name + "" == name;
    var parts := seq(|t.segs|, i requires 0 <= i < |t.segs| => RenderSegment(t.segs[i]));
    assert |parts| == 1 && parts[0] == name;
  }

  /** The pieces `Render` joins for a path: its rendered segments. */
  lemma RenderPathJoin(segs: seq<Segment>) returns (xs: seq<string>)
    ensures |xs| == |segs| && forall i :: 0 <= i < |segs| ==> xs[i] == RenderSegment(segs[i])
    ensures Render(Path(segs)) == Strings.Join(xs, " :: ")
  {
    xs := seq(|segs|, i requires 0 <= i < |segs| => RenderSegment(segs[i]));
  }

  /** The pieces `Render` joins for a tuple: its rendered elements. */
  lemma RenderTupleJoin(es: seq<Ty>) returns (xs: seq<string>)
    ensures |xs| == |es| && forall i :: 0 <= i < |es| ==> xs[i] == Render(es[i])
    ensures Render(Tuple(es)) == "(" + Strings.Join(xs, " , ") + ")"
  {
    xs := seq(|es|, i requires 0 <= i < |es| => Render(es[i]));
  }

  /** The pieces `RenderSegment` joins for angle-bracketed arguments. */
  lemma RenderAngleJoin(id: string, args: seq<GenericArg>) returns (xs: seq<string>)
    ensures |xs| == |args| && forall j :: 0 <= j < |args| ==> xs[j] == RenderArg(args[j])
    ensures RenderSegment(Segment(id, Angle(args))) == id + (" < " + Strings.Join(xs, " , ") + " >")
  {
    xs := seq(|args|, j requires 0 <= j < |args| => RenderArg(args[j]));
  }

  /** The text `Render` puts around the element of a reference, array, slice or parenthesis. */
  function ElemContext(t: Ty): (r: (string, string))
    requires t.Ref? || t.Array? || t.Slice? || t.Paren?
    ensures Render(t) == r.0 + Render(t.elem) + r.1
  {
    match t
    case Ref(l, m, e) => ("& " + (if l.Some? then l.value + " " else "") + (if m then "mut " else ""), "")
    case Array(e, n) => ("[", " ; " + (if n.LenExpr? then n.text else "_") + "]")
    case Slice(e) => ("[", "]")
    case Paren(e) => ("(", ")")
  }

  /** The context does not depend on the element. */
  lemma ElemContextSame(t: Ty, e: Ty)
    requires t.Ref? || t.Array? || t.Slice? || t.Paren?
    ensures ElemContext(t.(elem := e)) == ElemContext(t)
  {
  }

  function RenderSegment(s: Segment): string
    decreases s, 0
  {
    s.ident +
    match s.args
    case NoArgs => ""
    case Angle(args) => " < " + Strings.Join(seq(|args|, j requires 0 <= j < |args| => RenderArg(args[j])), " , ") + " >"
    case Parenthesized(text) => " " + text
  }

  function RenderArg(a: GenericArg): string
    decreases a, 0
  {
    match a
    case TypeArg(ty) => Render(ty)
    case LifetimeArg(name) => name
    case ConstArg(text) => text
  }

  // ---------------------------------------------------------------- parsing a type

  /** `input.parse::<Type>()`: given the tokens and a position, the parsed type and the position
    * after it. syn's type grammar is not part of this model. */
  type TypeParser = (seq<Token>, nat) -> Option<(Ty, nat)>

  /** A type parser that succeeds consumes at least one token and stays inside the input. */
  ghost predicate Advances(parseType: TypeParser) {
    forall ts: seq<Token>, i: nat :: parseType(ts, i).Some? ==> i < parseType(ts, i).value.1 <= |ts|
  }

  // ---------------------------------------------------------------- trait lists

  /** A list of trait names ends at the end of the input or at one of the `stops` punctuation
    * marks. */
  predicate StopsList(ts: seq<Token>, k: nat, stops: set<char>) {
    k == |ts| || (k < |ts| && ts[k].Punct? && ts[k].ch in stops)
  }

  /** The first position at or after `from` where a trait list must end. */
  function FirstStop(ts: seq<Token>, from: nat, stops: set<char>): (k: nat)
    requires from <= |ts|
    ensures from <= k <= |ts| && StopsList(ts, k, stops)
    ensures forall j | from <= j < k :: !StopsList(ts, j, stops)
    decreases |ts| - from
  {
    if StopsList(ts, from, stops) then from else FirstStop(ts, from + 1, stops)
  }

  /** `ts[from..to]` is a list of identifiers, each optionally followed by one `+`. */
  predicate TraitSpanOk(ts: seq<Token>, from: nat, to: nat)
    requires from <= to <= |ts|
  {
    from < to &&
    (forall j | from <= j < to :: ts[j].Ident? || ts[j] == Punct('+')) &&
    (forall j | from <= j < to && ts[j] == Punct('+') :: from < j && ts[j - 1].Ident?)
  }

  /** The names of the identifiers among `ts[lo..hi]`, in order. */
  function IdentNames(ts: seq<Token>, lo: nat, hi: nat): (r: seq<string>)
    requires lo <= hi <= |ts|
    ensures |r| <= hi - lo
    decreases hi
  {
    if hi == lo then []
    else IdentNames(ts, lo, hi - 1) + (if ts[hi - 1].Ident? then [ts[hi - 1].name] else [])
  }

  /** The first token of a non-empty trait span is an identifier, so the list is not empty. */
  lemma {:induction false} IdentNamesNonEmpty(ts: seq<Token>, lo: nat, hi: nat)
    requires lo <= hi <= |ts| && TraitSpanOk(ts, lo, hi)
    ensures |IdentNames(ts, lo, hi)| >= 1
    decreases hi
  {
    if lo + 1 < hi {
      IdentNamesNonEmpty(ts, lo, hi - 1);
    }
  }

  // ---------------------------------------------------------------- generics

  /** A bound of a type parameter, compared by its rendering: `Clone`, `'a`. */
  datatype Bound = TraitBound(path: string) | LifetimeBound(lifetime: string)

  /** `syn::GenericParam`. */
  datatype GenericParam =
    | TypeParam(name: string, bounds: seq<Bound>)
    | LifetimeParam(name: string, lbounds: seq<string>)
    | ConstParam(name: string)

  /** `syn::WherePredicate`: `T: A + B` or `'a: 'b`. */
  datatype WherePredicate =
    | TypePredicate(bounded: Ty, bounds: seq<Bound>)
    | LifetimePredicate(lifetime: string, lbounds: seq<string>)

  /** `syn::Generics`: the parameter list and the where clause. */
  datatype Generics = Generics(params: seq<GenericParam>, wherePreds: seq<WherePredicate>)

  predicate IsTypeParamNamed(p: GenericParam, name: string) {
    p.TypeParam? && p.name == name
  }

  predicate IsLifetimeParamNamed(p: GenericParam, name: string) {
    p.LifetimeParam? && p.name == name
  }

  /** The names of the lifetime parameters, as a set. */
  function LifetimeParamNames(ps: seq<GenericParam>): (r: set<string>)
    ensures forall n :: n in r <==> exists i :: 0 <= i < |ps| && IsLifetimeParamNamed(ps[i], n)
  {
    if ps == [] then {}
    else
      var rest := LifetimeParamNames(ps[1..]);
      assert forall i :: 1 <= i < |ps| ==> ps[i] == ps[1..][i - 1];
      (if ps[0].LifetimeParam? then {ps[0].name} else {}) + rest
  }

  /** The names of the type parameters, in declaration order. */
  function TypeParamNames(ps: seq<GenericParam>): (r: seq<string>)
    ensures forall n :: n in r <==> exists i :: 0 <= i < |ps| && IsTypeParamNamed(ps[i], n)
    ensures |r| <= |ps|
  {
    if ps == [] then []
    else
      var rest := TypeParamNames(ps[1..]);
      assert forall i :: 1 <= i < |ps| ==> ps[i] == ps[1..][i - 1];
      (if ps[0].TypeParam? then [ps[0].name] else []) + rest
  }
}
