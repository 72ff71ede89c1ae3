/** The generic arguments the macro writes after a specialized trait name in a call
  * (`crates/spec-trait-macro/src/generics.rs`): one entry per generic of the trait, the type a
  * `Type` constraint fixed for it or `_` for inference. */
module MacroGenerics {
  import opened Wrappers
  import opened Strings
  import opened MacroConditions

  /** `TraitBody` as the macro cache stores it: the generics are kept as their printed text. */
  datatype TraitBody = TraitBody(name: string, generics: string, fns: seq<string>, raw: string)

  /** `Impl` as the macro cache stores it. */
  datatype Impl = Impl(condition: WhenCondition, traitName: string)

  /** Index `i` holds the first trait called `name`. */
  predicate FirstNamed(traits: seq<TraitBody>, name: string, i: int) {
    0 <= i < |traits| && traits[i].name == name && forall j :: 0 <= j < i ==> traits[j].name != name
  }

  /** `traits.iter().find(|tr| tr.name == name)`: the first trait with that name. */
  function FindTrait(traits: seq<TraitBody>, name: string): (r: Option<TraitBody>)
    ensures r.None? <==> forall i :: 0 <= i < |traits| ==> traits[i].name != name
    ensures r.Some? ==> exists i :: FirstNamed(traits, name, i) && traits[i] == r.value
  {
    if traits == [] then None
    else if traits[0].name == name then
      assert FirstNamed(traits, name, 0);
      Some(traits[0])
    else
      var r := FindTrait(traits[1..], name);
      if r.Some? then
        var i :| FirstNamed(traits[1..], name, i) && traits[1..][i] == r.value;
        assert FirstNamed(traits, name, i + 1) && traits[i + 1] == r.value;
        r
      else r
  }

  /** The generics text with `<` and `>` removed. */
  function Stripped(generics: string): string {
    RemoveChar(RemoveChar(generics, '<'), '>')
  }

  /** The names of the trait's generics: the text without angle brackets, split at every comma,
    * each piece trimmed. */
  function GenericNames(generics: string): (r: seq<string>)
    ensures |r| == |Split(Stripped(generics), ',')|
    ensures forall i :: 0 <= i < |r| ==> r[i] == Trim(Split(Stripped(generics), ',')[i])
  {
    TrimAll(Split(Stripped(generics), ','))
  }

  /** There is one name per comma of the original text, plus one; no name holds `<`, `>` or `,`,
    * and none starts or ends with white space. */
  lemma GenericNamesShape(generics: string)
    ensures |GenericNames(generics)| == CountChar(generics, ',') + 1
    ensures forall i :: 0 <= i < |GenericNames(generics)| ==> CleanName(GenericNames(generics)[i])
  {
    var s := Stripped(generics);
    SplitCount(s, ',');
    RemoveCharCount(RemoveChar(generics, '<'), '>', ',');
    RemoveCharCount(generics, '<', ',');
    forall i | 0 <= i < |GenericNames(generics)|
      ensures CleanName(GenericNames(generics)[i])
    {
      PieceClean(generics, i);
    }
  }

  /** A name as `GenericNames` produces it: no `<`, `>` or `,`, and no white space at the ends. */
  predicate CleanName(n: string) {
    '<' !in n && '>' !in n && ',' !in n && (n == [] || (!IsSpace(n[0]) && !IsSpace(n[|n| - 1])))
  }

  lemma PieceClean(generics: string, i: nat)
    requires i < |Split(Stripped(generics), ',')|
    ensures CleanName(Trim(Split(Stripped(generics), ',')[i]))
  {
    var s := Stripped(generics);
    var piece := Split(s, ',')[i];
    RemoveCharKeeps(RemoveChar(generics, '<'), '>', '<');
    PieceChars(s, ',', i);
    TrimNotIn(piece, '<');
    TrimNotIn(piece, '>');
    TrimNotIn(piece, ',');
  }

  /** Every character of a piece of `Split` is a character of the split text. */
  lemma {:induction false} PieceChars(s: string, sep: char, i: nat)
    requires i < |Split(s, sep)|
    ensures forall c :: c in Split(s, sep)[i] ==> c in s
  {
    if s != [] {
      var rest := Split(s[1..], sep);
      if s[0] == sep {
        if i > 0 {
          PieceChars(s[1..], sep, i - 1);
        }
      } else if i == 0 {
        PieceChars(s[1..], sep, 0);
      } else {
        PieceChars(s[1..], sep, i);
      }
    }
  }

  /** Whether a constraint is `Type(g, _)` for exactly this generic name. */
  predicate FixesGeneric(c: WhenCondition, g: string) {
    c.Type? && c.generic == g
  }

  /** No constraint fixes `g`. */
  predicate Unfixed(constraints: seq<WhenCondition>, g: string) {
    forall i :: 0 <= i < |constraints| ==> !FixesGeneric(constraints[i], g)
  }

  /** Index `i` holds the first constraint that fixes `g`. */
  predicate FirstFix(constraints: seq<WhenCondition>, g: string, i: int) {
    0 <= i < |constraints| && FixesGeneric(constraints[i], g) && Unfixed(constraints[..i], g)
  }

  /** There is at most one first constraint fixing a generic. */
  lemma FirstFixUnique(constraints: seq<WhenCondition>, g: string, i: int, j: int)
    requires FirstFix(constraints, g, i) && FirstFix(constraints, g, j)
    ensures i == j
  {
  }

  /** The type for one generic: the type of the first `Type` constraint naming it, else `_`.
    * `Trait`, `All`, `Any` and `Not` constraints are passed over. */
  function TypeFor(g: string, constraints: seq<WhenCondition>): (r: string)
    ensures Unfixed(constraints, g) ==> r == "_"
    ensures !Unfixed(constraints, g) ==> exists i :: FirstFix(constraints, g, i) && r == constraints[i].ty
  {
    if constraints == [] then "_"
    else if FixesGeneric(constraints[0], g) then
      assert FirstFix(constraints, g, 0);
      constraints[0].ty
    else
      var r := TypeFor(g, constraints[1..]);
      if Unfixed(constraints[1..], g) then
        assert Unfixed(constraints, g) by {
          forall i | 0 <= i < |constraints| ensures !FixesGeneric(constraints[i], g) {
            if i > 0 { assert constraints[i] == constraints[1..][i - 1]; }
          }
        }
        r
      else
        var i :| FirstFix(constraints[1..], g, i) && r == constraints[1..][i].ty;
        assert FirstFix(constraints, g, i + 1) by {
          assert constraints[..i + 1] == [constraints[0]] + constraints[1..][..i];
        }
        r
  }

  /** The type for each generic name, in order. */
  function TypesFor(names: seq<string>, constraints: seq<WhenCondition>): (r: seq<string>)
    ensures |r| == |names|
    ensures forall i :: 0 <= i < |r| ==> r[i] == TypeFor(names[i], constraints)
  {
    if names == [] then [] else [TypeFor(names[0], constraints)] + TypesFor(names[1..], constraints)
  }

  /** The bracketed list the macro writes: `<a, b, ...>`. */
  function Bracketed(entries: seq<string>): (r: string)
    ensures |r| >= 2 && r[0] == '<' && r[|r| - 1] == '>'
  {
    "<" + Join(entries, ", ") + ">"
  }

  /** `get_for_impl`: the generic arguments for the trait `impl_` implements. The source
    * unwraps the lookup of the trait, so a missing trait is an error. */
  function GetForImpl(impl_: Impl, traits: seq<TraitBody>, constraints: seq<WhenCondition>): (r: Result<string>)
    ensures r.Err? <==> forall i :: 0 <= i < |traits| ==> traits[i].name != impl_.traitName
    ensures r.Ok? ==>
      r.value == Bracketed(TypesFor(GenericNames(FindTrait(traits, impl_.traitName).value.generics), constraints))
  {
    match FindTrait(traits, impl_.traitName)
    case None => Err("called `Option::unwrap()` on a `None` value")
    case Some(tr) =>
      var types := TypesFor(GenericNames(tr.generics), constraints);
      if types == [] then Ok("") else Ok(Bracketed(types))
  }

  /** The empty result is unreachable: splitting always yields a piece, so every successful
    * result is bracketed and has one entry per generic name. */
  lemma GetForImplBracketed(impl_: Impl, traits: seq<TraitBody>, constraints: seq<WhenCondition>)
    requires GetForImpl(impl_, traits, constraints).Ok?
    ensures var s := GetForImpl(impl_, traits, constraints).value;
      |s| >= 2 && s[0] == '<' && s[|s| - 1] == '>'
  {
  }

  /** A trait without generics (empty generics text) gets `<_>`, never the empty text: its
    * text splits into one empty name, which no constraint the parser produces can name. */
  lemma GetForImplNoGenerics(impl_: Impl, traits: seq<TraitBody>, constraints: seq<WhenCondition>)
    requires exists i :: 0 <= i < |traits| && traits[i].name == impl_.traitName
    requires FindTrait(traits, impl_.traitName).value.generics == ""
    requires Unfixed(constraints, "")
    ensures GetForImpl(impl_, traits, constraints) == Ok(Bracketed(["_"]))
  {
    assert Stripped("") == "";
    assert GenericNames("") == [""];
    assert TypesFor([""], constraints) == ["_"];
  }

  /** A name the parser of generics would accept: non-empty, free of `<`, `>` and `,`, and
    * without white space at either end. */
  predicate Word(n: string) {
    n != [] && CleanName(n)
  }

  /** Reading the names back from a bracketed list gives the names that were written: the
    * splitting and trimming in `get_for_impl` inverts `Bracketed` on words. */
  lemma GenericNamesOfBracketed(names: seq<string>)
    requires names != []
    requires forall i :: 0 <= i < |names| ==> Word(names[i])
    ensures GenericNames(Bracketed(names)) == names
  {
    StrippedBracketed(names);
    forall i | 0 <= i < |names| ensures Item(names[i], ',') {
      assert Word(names[i]);
    }
    SplitTrimJoin("", names, ", ", ',', 0);
    assert "" + Join(names, ", ") == Join(names, ", ");
  }

  /** Removing the angle brackets from a bracketed list of words leaves the joined words. */
  lemma StrippedBracketed(names: seq<string>)
    requires forall i :: 0 <= i < |names| ==> Word(names[i])
    ensures Stripped(Bracketed(names)) == Join(names, ", ")
  {
    var j := Join(names, ", ");
    forall i | 0 <= i < |names| ensures '<' !in names[i] && '>' !in names[i] {
      assert Word(names[i]);
    }
    JoinNotIn(names, ", ", '<');
    JoinNotIn(names, ", ", '>');
    RemoveBrackets(j);
  }

  /** Removing `<` and then `>` from `<j>` leaves `j` when `j` holds neither. */
  lemma RemoveBrackets(j: string)
    requires '<' !in j && '>' !in j
    ensures RemoveChar(RemoveChar("<" + j + ">", '<'), '>') == j
  {
    var lt := "<" + j;
    assert RemoveChar(lt, '<') == j by {
      RemoveCharAppend("<", j, '<');
    }
    assert RemoveChar(lt + ">", '<') == j + ">" by {
      RemoveCharAppend(lt, ">", '<');
    }
    RemoveCharAppend(j, ">", '>');
  }

  /** The types chosen for `<T, U>` when `T = i32` is fixed twice and `U` only has a trait
    * bound: the first `Type` constraint wins and `U` is left to inference. */
  lemma TypesForExample()
    ensures TypesFor(["T", "U"], [Trait("U", ["Copy"]), Type("T", "i32"), Type("T", "u8")]) == ["i32", "_"]
  {
    var cs := [Trait("U", ["Copy"]), Type("T", "i32"), Type("T", "u8")];
    assert FirstFix(cs, "T", 1) by {
      assert cs[..1] == [Trait("U", ["Copy"])];
    }
    assert Unfixed(cs, "U");
    assert TypeFor("T", cs) == "i32" by {
      var i :| FirstFix(cs, "T", i) && TypeFor("T", cs) == cs[i].ty;
      FirstFixUnique(cs, "T", i, 1);
    }
  }

  /** The whole chain on the rendered generics `<T, U>`. */
  lemma GetForImplExample()
    ensures GetForImpl(Impl(All([]), "Foo"),
                       [TraitBody("Bar", "", [], ""), TraitBody("Foo", Bracketed(["T", "U"]), [], "")],
                       [Trait("U", ["Copy"]), Type("T", "i32"), Type("T", "u8")])
            == Ok(Bracketed(["i32", "_"]))
  {
    var traits := [TraitBody("Bar", "", [], ""), TraitBody("Foo", Bracketed(["T", "U"]), [], "")];
    assert FindTrait(traits, "Foo") == Some(traits[1]);
    assert Word("T") && Word("U");
    GenericNamesOfBracketed(["T", "U"]);
    TypesForExample();
  }
}
