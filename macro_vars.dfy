/** Variable information of the macro crate (`crates/spec-trait-macro/src/vars.rs`): the alias
  * table grouped from the annotations, and one record per argument of the called trait fn with
  * the impl generic it stands for, its alias-resolved concrete type and its annotated traits.
  *
  * The file calls two helpers whose visible definitions do not match the call: `types_equal`
  * with three arguments (the utilities crate's has four) and `ImplBody::get_corresponding_generic`
  * (not defined in the utilities crate). Both are parameters here: `Env.typesEqual` and
  * `Env.corresponding`. The string-to-type parser is a parameter as well. */
module MacroVars {
  import opened Wrappers
  import opened Syntax
  import MA = MacroAnnotations
  import T = UtilsTypes
  import UT = UtilsTraits

  /** `VarInfo`: the impl generic the trait parameter corresponds to, the concrete type of the
    * argument, and the traits annotated for it. */
  datatype VarInfo = VarInfo(implTypeDefinition: string, concreteType: string, traits: seq<string>)

  /** `Aliases` as `get_type_aliases` builds it: each aliased type with its aliases. */
  type AliasTable = map<string, seq<string>>

  /** What `get_vars` takes from outside this file: the impl's generic for a trait parameter
    * type (`impl_.get_corresponding_generic(trait generics, ·)`), syn's type parser, the alias
    * table in the order the lookup searches it, and the type equality of `get_type_traits`. */
  datatype Env = Env(
    corresponding: string -> Option<string>,
    parse: string -> Ty,
    aliases: T.Aliases,
    typesEqual: (string, string) -> bool)

  function Min(a: nat, b: nat): nat {
    if a <= b then a else b
  }

  // ============================================================ get_type_aliases

  /** The per-type lookup on a single annotation. */
  lemma AliasesOfOne(ty: string, a: MA.Annotation)
    ensures MA.GetTypeAliases(ty, [a]) == if a.Alias? && a.ty == ty then [a.alias] else []
  {
    assert [a][1..] == [];
  }

  /** `get_type_aliases`: every `Alias(type, alias)` annotation appends `alias` to the entry of
    * `type`, creating it on first use; trait annotations are skipped. A type is a key exactly
    * when it has an alias, and its entry is its aliases in annotation order. */
  method GetTypeAliases(ann: seq<MA.Annotation>) returns (aliases: AliasTable)
    ensures forall ty :: ty in aliases <==> MA.GetTypeAliases(ty, ann) != []
    ensures forall ty :: ty in aliases ==> aliases[ty] == MA.GetTypeAliases(ty, ann)
  {
    aliases := map[];
    for i := 0 to |ann|
      invariant forall ty :: ty in aliases <==> MA.GetTypeAliases(ty, ann[..i]) != []
      invariant forall ty :: ty in aliases ==> aliases[ty] == MA.GetTypeAliases(ty, ann[..i])
    {
      assert ann[..i + 1] == ann[..i] + [ann[i]];
      forall ty
        ensures MA.GetTypeAliases(ty, ann[..i + 1]) ==
                MA.GetTypeAliases(ty, ann[..i]) + (if ann[i].Alias? && ann[i].ty == ty then [ann[i].alias] else [])
      {
        MA.GetTypeAliasesAppend(ty, ann[..i], [ann[i]]);
        AliasesOfOne(ty, ann[i]);
      }
      match ann[i]
      case Alias(t, alias) =>
        var entry := if t in aliases then aliases[t] else [];
        aliases := aliases[t := entry + [alias]];
      case Trait(_, _) =>
    }
    assert ann[..|ann|] == ann;
  }

  // ============================================================ get_type_traits

  /** `get_type_traits`: the trait lists of the trait annotations whose type equals `ty`,
    * concatenated in annotation order. */
  function GetTypeTraits(ty: string, ann: seq<MA.Annotation>, typesEqual: (string, string) -> bool): (r: seq<string>)
  {
    if ann == [] then []
    else
      var rest := GetTypeTraits(ty, ann[1..], typesEqual);
      match ann[0]
      case Trait(t, traits) => if typesEqual(t, ty) then traits + rest else rest
      case Alias(_, _) => rest
  }

  /** A trait is in the result exactly when some trait annotation for an equal type lists it. */
  lemma {:induction false} GetTypeTraitsMembers(ty: string, ann: seq<MA.Annotation>, typesEqual: (string, string) -> bool)
    ensures forall x :: x in GetTypeTraits(ty, ann, typesEqual) <==>
              exists i :: 0 <= i < |ann| && ann[i].Trait? && typesEqual(ann[i].ty, ty) && x in ann[i].traits
  {
    if ann != [] {
      GetTypeTraitsMembers(ty, ann[1..], typesEqual);
      assert forall i :: 1 <= i < |ann| ==> ann[i] == ann[1..][i - 1];
      forall x | x in GetTypeTraits(ty, ann[1..], typesEqual)
        ensures exists i :: 0 <= i < |ann| && ann[i].Trait? && typesEqual(ann[i].ty, ty) && x in ann[i].traits
      {
        var j :| 0 <= j < |ann[1..]| && ann[1..][j].Trait? && typesEqual(ann[1..][j].ty, ty) && x in ann[1..][j].traits;
        assert ann[j + 1] == ann[1..][j];
      }
    }
  }

  /** `flat_map` works annotation by annotation: the lookup distributes over concatenation. */
  lemma {:induction false} GetTypeTraitsAppend(ty: string, a: seq<MA.Annotation>, b: seq<MA.Annotation>,
                                               typesEqual: (string, string) -> bool)
    ensures GetTypeTraits(ty, a + b, typesEqual) == GetTypeTraits(ty, a, typesEqual) + GetTypeTraits(ty, b, typesEqual)
  {
    if a != [] {
      assert (a + b)[1..] == a[1..] + b;
      GetTypeTraitsAppend(ty, a[1..], b, typesEqual);
    } else {
      assert a + b == b;
    }
  }

  /** With plain string equality the lookup is the annotation parser's own `get_type_traits`. */
  lemma {:induction false} GetTypeTraitsExact(ty: string, ann: seq<MA.Annotation>, typesEqual: (string, string) -> bool)
    requires forall t :: typesEqual(t, ty) <==> t == ty
    ensures GetTypeTraits(ty, ann, typesEqual) == MA.GetTypeTraits(ty, ann)
  {
    if ann != [] {
      GetTypeTraitsExact(ty, ann[1..], typesEqual);
    }
  }

  // ============================================================ get_vars

  /** The record for one argument: its concrete type is the alias-resolved rendering, its traits
    * those annotated for the argument type as written. */
  function VarFor(implGeneric: string, argType: string, ann: seq<MA.Annotation>, env: Env): VarInfo {
    VarInfo(implGeneric, T.GetConcreteType(env.parse(argType), env.aliases), GetTypeTraits(argType, ann, env.typesEqual))
  }

  /** The `zip` / `map` / `collect` of `get_vars`: pairs up argument types and parameter types
    * until either runs out; a parameter type without a corresponding impl generic panics
    * (`expect`). */
  function ZipVars(args: seq<string>, params: seq<string>, ann: seq<MA.Annotation>, env: Env): (r: Result<seq<VarInfo>>)
    ensures r.Ok? ==> |r.value| == Min(|args|, |params|)
  {
    if args == [] || params == [] then Ok([])
    else
      match env.corresponding(params[0])
      case None => Err("generic in trait not found in impl")
      case Some(g) =>
        match ZipVars(args[1..], params[1..], ann, env)
        case Err(m) => Err(m)
        case Ok(rest) => Ok([VarFor(g, args[0], ann, env)] + rest)
  }

  /** The zip fails exactly when one of the paired parameter types has no corresponding impl
    * generic; otherwise entry `i` is built from argument `i` and parameter `i`. */
  lemma {:induction false} ZipVarsCorrect(args: seq<string>, params: seq<string>, ann: seq<MA.Annotation>, env: Env)
    ensures var r := ZipVars(args, params, ann, env);
            r.Err? <==> exists i :: 0 <= i < Min(|args|, |params|) && env.corresponding(params[i]).None?
    ensures var r := ZipVars(args, params, ann, env);
            r.Ok? ==> forall i :: 0 <= i < |r.value| ==>
                        env.corresponding(params[i]).Some? &&
                        r.value[i] == VarFor(env.corresponding(params[i]).value, args[i], ann, env)
  {
    if args != [] && params != [] && env.corresponding(params[0]).Some? {
      ZipVarsCorrect(args[1..], params[1..], ann, env);
      var n := Min(|args|, |params|);
      assert Min(|args[1..]|, |params[1..]|) == n - 1;
      assert forall i :: 1 <= i < n ==> params[i] == params[1..][i - 1] && args[i] == args[1..][i - 1];
    }
  }

  /** `get_vars`: the called fn is looked up by name and argument count (`unwrap` panics when
    * the trait has none), and its parameter types are zipped with the argument types. */
  function GetVars(ann: MA.AnnotationBody, trait_: UT.TraitBody, env: Env): (r: Result<seq<VarInfo>>)
    ensures UT.FindFn(trait_, ann.fnName, |ann.args|).None? ==> r.Err?
    ensures r.Ok? ==> |r.value| <= |ann.argsTypes|
  {
    match UT.FindFn(trait_, ann.fnName, |ann.args|)
    case None => Err("called `Option::unwrap()` on a `None` value")
    case Some(sig) => ZipVars(ann.argsTypes, UT.GetParamTypes(sig.inputs), ann.annotations, env)
  }

  /** When the fn is found, there is one record per (argument type, parameter type) pair, so
    * as many as the shorter of the two; each names the parameter's impl generic, the argument's
    * concrete type and its traits; and the call fails exactly when some paired parameter type
    * has no corresponding impl generic. */
  lemma GetVarsCorrect(ann: MA.AnnotationBody, trait_: UT.TraitBody, env: Env)
    requires UT.FindFn(trait_, ann.fnName, |ann.args|).Some?
    ensures var params := UT.GetParamTypes(UT.FindFn(trait_, ann.fnName, |ann.args|).value.inputs);
            var r := GetVars(ann, trait_, env);
            (r.Err? <==> exists i :: 0 <= i < Min(|ann.argsTypes|, |params|) && env.corresponding(params[i]).None?) &&
            (r.Ok? ==> |r.value| == Min(|ann.argsTypes|, |params|) &&
                       forall i :: 0 <= i < |r.value| ==>
                         r.value[i].implTypeDefinition == env.corresponding(params[i]).value &&
                         r.value[i].concreteType == T.GetConcreteType(env.parse(ann.argsTypes[i]), env.aliases) &&
                         r.value[i].traits == GetTypeTraits(ann.argsTypes[i], ann.annotations, env.typesEqual))
  {
    var params := UT.GetParamTypes(UT.FindFn(trait_, ann.fnName, |ann.args|).value.inputs);
    ZipVarsCorrect(ann.argsTypes, params, ann.annotations, env);
  }

  /** The fn's arity is the number of call arguments, so with as many argument types as
    * arguments every parameter gets its record. */
  lemma GetVarsArity(ann: MA.AnnotationBody, trait_: UT.TraitBody, env: Env)
    requires UT.FindFn(trait_, ann.fnName, |ann.args|).Some?
    requires |ann.argsTypes| == |ann.args|
    ensures var r := GetVars(ann, trait_, env); r.Ok? ==> |r.value| == |ann.args|
  {
    var sig := UT.FindFn(trait_, ann.fnName, |ann.args|).value;
    assert |UT.GetParamTypes(sig.inputs)| == |ann.args|;
  }
}
