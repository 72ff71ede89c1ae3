/** The argument of the `spec!` macro (`crates/spec-trait-macro/src/annotations.rs`): a method
  * call, the receiver's type, the argument types and annotations on types, separated by `;`. */
module MacroAnnotations {
  import opened Wrappers
  import opened Strings

  /** `T: A + B` (the traits a type implements) or `T = U` (an alias of a type). */
  datatype Annotation =
    | Trait(ty: string, traits: seq<string>)
    | Alias(ty: string, alias: string)

  /** The parsed macro argument. */
  datatype AnnotationBody = AnnotationBody(
    variable: string, fnName: string, args: seq<string>,
    varType: string, argsTypes: seq<string>, annotations: seq<Annotation>)

  /** A token tree of the macro input as the segmenting loop sees it: a `;` punctuation mark,
    * or any other tree with its printed text. */
  datatype Piece = Semicolon | Other(text: string)

  // ---------------------------------------------------------------------------------------
  // Segmenting (`parse_tokens`, first half)

  /** The number of `;` marks. */
  function Semicolons(ps: seq<Piece>): (n: nat)
    ensures n <= |ps|
    ensures n == 0 <==> Semicolon !in ps
  {
    if ps == [] then 0
    else Semicolons(ps[..|ps| - 1]) + (if ps[|ps| - 1] == Semicolon then 1 else 0)
  }

  /** The runs of pieces between `;` marks, read from left to right: a `;` closes the current
    * run and opens an empty one, any other piece extends the current run. */
  function Runs(ps: seq<Piece>): (r: seq<seq<Piece>>)
    ensures |r| == Semicolons(ps) + 1
    ensures forall i :: 0 <= i < |r| ==> Semicolon !in r[i]
  {
    if ps == [] then [[]]
    else
      var r := Runs(ps[..|ps| - 1]);
      var p := ps[|ps| - 1];
      if p == Semicolon then r + [[]] else r[..|r| - 1] + [r[|r| - 1] + [p]]
  }

  /** The runs put back together with a `;` between neighbours. */
  function JoinRuns(rs: seq<seq<Piece>>): (r: seq<Piece>)
    requires rs != []
  {
    if |rs| == 1 then rs[0] else JoinRuns(rs[..|rs| - 1]) + [Semicolon] + rs[|rs| - 1]
  }

  /** Cutting at the `;` marks loses nothing: the runs joined by `;` are the input. */
  lemma {:induction false} RunsJoin(ps: seq<Piece>)
    ensures JoinRuns(Runs(ps)) == ps
  {
    if ps != [] {
      var init := ps[..|ps| - 1];
      var r := Runs(init);
      RunsJoin(init);
      assert ps == init + [ps[|ps| - 1]];
      if ps[|ps| - 1] != Semicolon {
        var r' := Runs(ps);
        assert r'[..|r'| - 1] == r[..|r| - 1];
        if |r| > 1 {
          assert JoinRuns(r) == JoinRuns(r[..|r| - 1]) + [Semicolon] + r[|r| - 1];
        }
      }
    }
  }

  /** The printed text of a run: the texts of its pieces, concatenated. */
  function Text(run: seq<Piece>): string {
    if run == [] then ""
    else Text(run[..|run| - 1]) + (match run[|run| - 1] case Semicolon => "" case Other(t) => t)
  }

  /** The text gathered since the last `;` (the loop's `current`). */
  function Open(ps: seq<Piece>): string {
    if ps == [] then ""
    else match ps[|ps| - 1]
      case Semicolon => ""
      case Other(t) => Open(ps[..|ps| - 1]) + t
  }

  /** The segments a `;` has closed (the loop's `segments`): each is the trimmed text gathered
    * before it. */
  function Closed(ps: seq<Piece>): seq<string> {
    if ps == [] then []
    else if ps[|ps| - 1] == Semicolon then Closed(ps[..|ps| - 1]) + [Trim(Open(ps[..|ps| - 1]))]
    else Closed(ps[..|ps| - 1])
  }

  /** The segments of the input: those closed by a `;`, then the trimmed trailing text unless
    * it is blank. */
  function Segments(ps: seq<Piece>): seq<string> {
    var last := Trim(Open(ps));
    Closed(ps) + (if last == "" then [] else [last])
  }

  /** The segments are the runs between the `;` marks, each printed and trimmed: the closed
    * segments are all runs but the last, and the trailing text is the last run. */
  lemma {:induction false} SegmentsAreRuns(ps: seq<Piece>)
    ensures AgreeWithRuns(ps)
  {
    if ps != [] {
      var init := ps[..|ps| - 1];
      SegmentsAreRuns(init);
      assert ps == init + [ps[|ps| - 1]];
      if ps[|ps| - 1] == Semicolon {
        AgreeSemicolon(init);
      } else {
        AgreeOther(init, ps[|ps| - 1]);
      }
    }
  }

  /** The loop's state after `ps` is the runs of `ps`: the closed segments are the trimmed texts
    * of all runs but the last, and the open text is the text of the last run. */
  predicate AgreeWithRuns(ps: seq<Piece>) {
    var r := Runs(ps);
    |Closed(ps)| == |r| - 1 &&
    (forall k :: 0 <= k < |Closed(ps)| ==> Closed(ps)[k] == Trim(Text(r[k]))) &&
    Open(ps) == Text(r[|r| - 1])
  }

  lemma AgreeSemicolon(init: seq<Piece>)
    requires AgreeWithRuns(init)
    ensures AgreeWithRuns(init + [Semicolon])
  {
    var ps := init + [Semicolon];
    assert ps[..|init|] == init;
    RunsSemicolon(init);
    var r, c := Runs(init), Closed(init);
    assert Closed(ps) == c + [Trim(Open(init))];
    assert Runs(ps) == r + [[]];
    forall k | 0 <= k < |Closed(ps)|
      ensures Closed(ps)[k] == Trim(Text(Runs(ps)[k]))
    {
      if k < |c| {
        assert Closed(ps)[k] == c[k] && Runs(ps)[k] == r[k];
      }
    }
  }

  lemma AgreeOther(init: seq<Piece>, p: Piece)
    requires p != Semicolon
    requires AgreeWithRuns(init)
    ensures AgreeWithRuns(init + [p])
  {
    RunsOther(init, p);
    assert (init + [p])[..|init|] == init;
  }

  lemma RunsSemicolon(init: seq<Piece>)
    ensures Runs(init + [Semicolon]) == Runs(init) + [[]]
  {
    assert (init + [Semicolon])[..|init|] == init;
  }

  lemma RunsOther(init: seq<Piece>, p: Piece)
    requires p != Semicolon
    ensures var r := Runs(init);
      Runs(init + [p]) == r[..|r| - 1] + [r[|r| - 1] + [p]] &&
      Text(r[|r| - 1] + [p]) == Text(r[|r| - 1]) + p.text
  {
    var r := Runs(init);
    assert (init + [p])[..|init|] == init;
    var last := r[|r| - 1] + [p];
    assert last[..|last| - 1] == r[|r| - 1];
  }

  /** Input without a `;` is at most one segment: its whole trimmed text. */
  lemma SegmentsWithoutSemicolon(ps: seq<Piece>)
    requires Semicolon !in ps
    ensures Segments(ps) == (if Trim(Open(ps)) == "" then [] else [Trim(Open(ps))])
  {
    SegmentsAreRuns(ps);
    assert |Runs(ps)| == 1;
  }

  // ---------------------------------------------------------------------------------------
  // The call, the argument types and the annotations

  /** `parse_call`: the receiver before the first `.`, the function between it and the first
    * `(`, and the arguments after that `(` with every trailing `)` removed, split at `,` and
    * trimmed. A call without `(`, or without `.` before it, is rejected. */
  function ParseCall(call: string): (r: Result<(string, string, seq<string>)>)
    ensures r.Err? <==> '(' !in call || '.' !in SplitOnce(call, '(').value.0
    ensures r.Ok? ==> |r.value.2| >= 1
  {
    match SplitOnce(call, '(')
    case None => Err("Invalid call format: " + call)
    case Some((varFn, rest)) =>
      var args := TrimAll(Split(TrimEndMatches(rest, ')'), ','));
      match SplitOnce(varFn, '.')
      case None => Err("Invalid call format: " + call)
      case Some((v, f)) => Ok((Trim(v), Trim(f), args))
  }

  /** The call `v.f(a, b, ...)` is read back as receiver `v`, function `f` and the arguments. */
  lemma ParseCallRendered(v: string, f: string, args: seq<string>)
    requires Item(v, '.') && '(' !in v
    requires Item(f, '(')
    requires args != [] && forall i :: 0 <= i < |args| ==> Item(args[i], ',')
    requires ')' !in args[|args| - 1]
    ensures ParseCall(v + "." + f + "(" + Join(args, ", ") + ")") == Ok((v, f, args))
  {
    var rest := Join(args, ", ") + ")";
    assert v + "." + f + "(" + Join(args, ", ") + ")" == v + "." + f + "(" + rest;
    CallParts(v, f, rest);
    ArgsRoundTrip(args);
  }

  /** Receiver and function are cut out of `v.f(rest` at the first `(` and the first `.`. */
  lemma CallParts(v: string, f: string, rest: string)
    requires Item(v, '.') && '(' !in v
    requires Item(f, '(')
    ensures ParseCall(v + "." + f + "(" + rest)
         == Ok((v, f, TrimAll(Split(TrimEndMatches(rest, ')'), ','))))
  {
    SplitAtParen(v, f, rest);
    SplitAtDot(v, f);
    TrimItem(v, '.');
    TrimItem(f, '(');
  }

  lemma SplitAtParen(v: string, f: string, rest: string)
    requires '(' !in v && '(' !in f
    ensures SplitOnce(v + "." + f + "(" + rest, '(') == Some((v + "." + f, rest))
  {
    var varFn := v + "." + f;
    assert '(' !in varFn;
    assert v + "." + f + "(" + rest == varFn + ['('] + rest;
    SplitOnceAt(varFn, rest, '(');
  }

  lemma SplitAtDot(v: string, f: string)
    requires '.' !in v
    ensures SplitOnce(v + "." + f, '.') == Some((v, f))
  {
    assert v + "." + f == v + ['.'] + f;
    SplitOnceAt(v, f, '.');
  }

  /** An item is its own trimmed form. */
  lemma TrimItem(w: string, c: char)
    requires Item(w, c)
    ensures Trim(w) == w
  {
    TrimUnchanged(w);
  }

  /** The argument list `a, b, ...)` is read back as its arguments. */
  lemma ArgsRoundTrip(args: seq<string>)
    requires args != [] && forall i :: 0 <= i < |args| ==> Item(args[i], ',')
    requires ')' !in args[|args| - 1]
    ensures TrimAll(Split(TrimEndMatches(Join(args, ", ") + ")", ')'), ',')) == args
  {
    ArgsTrimEnd(args);
    CommaList(args);
  }

  lemma ArgsTrimEnd(args: seq<string>)
    requires args != [] && args[|args| - 1] != [] && ')' !in args[|args| - 1]
    ensures TrimEndMatches(Join(args, ", ") + ")", ')') == Join(args, ", ")
  {
    JoinLast(args, ", ");
    TrimEndMatchesOne(Join(args, ", "), ')');
  }

  /** A list written with `", "` between its items is read back as the items. */
  lemma CommaList(items: seq<string>)
    requires items != [] && forall i :: 0 <= i < |items| ==> Item(items[i], ',')
    ensures TrimAll(Split(Join(items, ", "), ',')) == items
  {
    CommaSeparator();
    SplitTrimList(items, ", ", ',', 0);
  }

  /** The last character of a join is the last character of the last part. */
  lemma {:induction false} JoinLast(parts: seq<string>, sep: string)
    requires parts != [] && parts[|parts| - 1] != []
    ensures var j := Join(parts, sep); j != [] && j[|j| - 1] == parts[|parts| - 1][|parts[|parts| - 1]| - 1]
  {
    if |parts| > 1 {
      JoinLast(parts[1..], sep);
    }
  }

  /** A call without arguments, `v.f()`, has one argument: the empty text. */
  lemma ParseCallNoArgs(v: string, f: string)
    requires Item(v, '.') && '(' !in v
    requires Item(f, '(')
    ensures ParseCall(v + "." + f + "()") == Ok((v, f, [""]))
  {
    assert v + "." + f + "()" == v + "." + f + "(" + ")";
    CallParts(v, f, ")");
    assert TrimEndMatches(")", ')') == "" by {
      TrimEndMatchesOne("", ')');
      assert "" + [')'] == ")";
    }
    assert TrimAll(Split("", ',')) == [""];
  }

  /** The elements that are not empty, in order (`filter(|x| !x.is_empty())`). */
  function NonEmpty(xs: seq<string>): (r: seq<string>)
    ensures |r| <= |xs|
    ensures forall k :: 0 <= k < |r| ==> r[k] != []
  {
    if xs == [] then []
    else if xs[0] == [] then NonEmpty(xs[1..])
    else [xs[0]] + NonEmpty(xs[1..])
  }

  /** The filter keeps every non-empty element, in order, and drops only empty ones. */
  lemma {:induction false} NonEmptyKeeps(xs: seq<string>)
    ensures forall x :: x in NonEmpty(xs) <==> x in xs && x != []
    ensures (forall k :: 0 <= k < |xs| ==> xs[k] != []) ==> NonEmpty(xs) == xs
  {
    if xs != [] {
      NonEmptyKeeps(xs[1..]);
      assert forall x :: x in xs <==> x == xs[0] || x in xs[1..];
    }
  }

  /** Whether an argument type is malformed: it holds `:` or `=`. */
  predicate BadArgType(x: string) { ':' in x || '=' in x }

  /** No entry is malformed. */
  predicate NoneBad(xs: seq<string>) {
    forall k :: 0 <= k < |xs| ==> !BadArgType(xs[k])
  }

  /** The first malformed entry, if any. */
  function FirstBad(xs: seq<string>): (r: Option<string>)
    ensures r.None? <==> NoneBad(xs)
    ensures r.Some? ==> BadArgType(r.value) && r.value in xs
  {
    if xs == [] then None
    else if BadArgType(xs[0]) then Some(xs[0])
    else
      var r := FirstBad(xs[1..]);
      assert NoneBad(xs) <==> NoneBad(xs[1..]) by {
        if NoneBad(xs[1..]) {
          forall k | 0 <= k < |xs| ensures !BadArgType(xs[k]) {
            if k > 0 { assert xs[k] == xs[1..][k - 1]; }
          }
        }
      }
      r
  }

  /** Dropping empty entries keeps a list free of malformed entries. */
  lemma NonEmptyNoneBad(xs: seq<string>)
    requires NoneBad(xs)
    ensures NoneBad(NonEmpty(xs))
  {
    NonEmptyKeeps(xs);
    forall k | 0 <= k < |NonEmpty(xs)| ensures !BadArgType(NonEmpty(xs)[k]) {
      var x := NonEmpty(xs)[k];
      assert x in xs;
    }
  }

  /** Whether the text starts with `[` and ends with `]`. */
  predicate Bracketed(s: string) { s != [] && s[0] == '[' && s[|s| - 1] == ']' }

  /** The entries of a bracketed list: the text between the brackets, split at `,`, every
    * piece trimmed. */
  function Entries(s: string): (r: seq<string>)
    requires Bracketed(s)
    ensures |r| >= 1
  {
    TrimAll(Split(s[1..|s| - 1], ','))
  }

  /** The argument types segment, `[A, B, ...]`: its entries with the empty ones dropped. An
    * unbracketed segment, or an entry holding `:` or `=`, is rejected. */
  function ParseArgsTypes(segment: string): (r: Result<seq<string>>)
    ensures r.Ok? <==> Bracketed(Trim(segment)) && NoneBad(Entries(Trim(segment)))
    ensures r.Ok? ==> NoneBad(r.value) && forall k :: 0 <= k < |r.value| ==> r.value[k] != []
  {
    var s := Trim(segment);
    if Bracketed(s) then
      var entries := Entries(s);
      match FirstBad(entries)
      case Some(x) => Err("Invalid argument type format: " + x)
      case None =>
        NonEmptyNoneBad(entries);
        Ok(NonEmpty(entries))
    else Err("Invalid arguments types format: " + s)
  }

  /** The written list `[A, B, ...]` is read back as its entries. */
  lemma ParseArgsTypesRendered(types: seq<string>)
    requires types != []
    requires forall i :: 0 <= i < |types| ==> Item(types[i], ',') && !BadArgType(types[i])
    ensures ParseArgsTypes("[" + Join(types, ", ") + "]") == Ok(types)
  {
    var j := Join(types, ", ");
    BracketedList(j);
    CommaList(types);
    assert NoneBad(types);
    NonEmptyKeeps(types);
  }

  /** `[j]` is its own trimmed form, is bracketed, and holds `j` between its brackets. */
  lemma BracketedList(j: string)
    ensures var s := "[" + j + "]"; Trim(s) == s && Bracketed(s) && Entries(s) == TrimAll(Split(j, ','))
  {
    BracketedInner(j);
    TrimUnchanged("[" + j + "]");
  }

  lemma BracketedInner(j: string)
    ensures var s := "[" + j + "]"; Bracketed(s) && s[1..|s| - 1] == j
  {
  }

  /** `[]`, with any blanks around it, is an empty list of argument types. */
  lemma ParseArgsTypesEmpty(segment: string)
    requires |Trim(segment)| == 2 && Trim(segment)[0] == '[' && Trim(segment)[1] == ']'
    ensures ParseArgsTypes(segment) == Ok([])
  {
    var s := Trim(segment);
    assert Bracketed(s);
    assert Entries(s) == [""] by {
      assert s[1..|s| - 1] == "";
      assert Split("", ',') == [""];
      assert TrimAll([""]) == [""];
    }
    assert NonEmpty([""]) == [];
  }

  /** `parse_annotation`: text with a `:` is a trait annotation (the type before the first `:`,
    * the `+`-separated traits after it); otherwise text with `=` is an alias; anything else is
    * rejected. The `:` is looked for first. */
  function ParseAnnotation(segment: string): (r: Result<Annotation>)
    ensures r.Err? <==> ':' !in segment && '=' !in segment
    ensures ':' in segment ==> r.Ok? && r.value.Trait?
    ensures ':' !in segment && '=' in segment ==> r.Ok? && r.value.Alias?
  {
    match SplitOnce(segment, ':')
    case Some((param, traits)) => Ok(Trait(Trim(param), TrimAll(Split(traits, '+'))))
    case None =>
      match SplitOnce(segment, '=')
      case Some((param, ty)) => Ok(Alias(Trim(param), Trim(ty)))
      case None => Err("Invalid annotation format: " + segment)
  }

  /** `T: A + B + ...` is read back as the trait annotation it writes. */
  lemma ParseTraitRendered(t: string, traits: seq<string>)
    requires Item(t, ':')
    requires traits != [] && forall i :: 0 <= i < |traits| ==> Item(traits[i], '+')
    ensures ParseAnnotation(t + ": " + Join(traits, " + ")) == Ok(Trait(t, traits))
  {
    var j := Join(traits, " + ");
    SplitAtColon(t, j);
    TrimItem(t, ':');
    PlusList(traits);
  }

  lemma SplitAtColon(t: string, j: string)
    requires ':' !in t
    ensures SplitOnce(t + ": " + j, ':') == Some((t, " " + j))
  {
    assert t + ": " + j == t + [':'] + (" " + j);
    SplitOnceAt(t, " " + j, ':');
  }

  /** A list written with `" + "` between its items, after the space that follows the `:`, is
    * read back as the items. */
  lemma PlusList(items: seq<string>)
    requires items != [] && forall i :: 0 <= i < |items| ==> Item(items[i], '+')
    ensures TrimAll(Split(" " + Join(items, " + "), '+')) == items
  {
    PlusSeparator();
    assert AllSpaces(" ");
    SplitTrimJoin(" ", items, " + ", '+', 1);
  }

  /** `T = U` is read back as the alias annotation it writes. */
  lemma ParseAliasRendered(t: string, u: string)
    requires Item(t, '=') && ':' !in t
    requires Item(u, ':')
    ensures ParseAnnotation(t + " = " + u) == Ok(Alias(t, u))
  {
    SplitAtEquals(t, u);
    assert Trim(t + " ") == t by {
      TrimSpaces("", t, " ");
      assert "" + t + " " == t + " ";
    }
    assert Trim(" " + u) == u by {
      TrimSpaces(" ", u, "");
      assert " " + u + "" == " " + u;
    }
  }

  lemma SplitAtEquals(t: string, u: string)
    requires '=' !in t && ':' !in t && ':' !in u
    ensures ':' !in t + " = " + u
    ensures SplitOnce(t + " = " + u, '=') == Some((t + " ", " " + u))
  {
    assert t + " = " + u == (t + " ") + ['='] + (" " + u);
    SplitOnceAt(t + " ", " " + u, '=');
  }

  /** The segments after the first three (`skip(3)`). */
  function Skip3(segments: seq<string>): (r: seq<string>)
    ensures |r| == if |segments| <= 3 then 0 else |segments| - 3
  {
    if |segments| <= 3 then [] else segments[3..]
  }

  /** `parse_tokens` after the segmenting loop: segment 0 is the call, segment 1 the receiver's
    * type, the optional segment 2 the argument types, and the non-empty segments after those
    * the annotations. The checks run in this order, the first failure being the error. */
  function ParseSegments(segments: seq<string>): (r: Result<AnnotationBody>)
    ensures segments == [] ==> r == Err("Method call not found")
    ensures r.Ok? ==> |segments| >= 2 && |r.value.args| == |r.value.argsTypes|
  {
    if segments == [] then Err("Method call not found")
    else
      match ParseCall(segments[0])
      case Err(m) => Err(m)
      case Ok((v, f, args)) =>
        if |segments| < 2 then Err("Variable type not found")
        else
          var varType := segments[1];
          if ':' in varType || '=' in varType then Err("Invalid variable type format: " + varType)
          else
            var argsTypes := if |segments| < 3 then Ok([]) else ParseArgsTypes(segments[2]);
            match argsTypes
            case Err(m) => Err(m)
            case Ok(types) =>
              if |args| != |types| then Err("Number of arguments does not match number of argument types")
              else
                match CollectResults(NonEmpty(Skip3(segments)), ParseAnnotation)
                case Err(m) => Err(m)
                case Ok(anns) => Ok(AnnotationBody(v, f, args, varType, types, anns))
  }

  /** What a successful parse took from each segment: the call from segment 0, the receiver's
    * type (free of `:` and `=`) from segment 1, the argument types from segment 2 or none, and
    * the annotations from the non-empty later segments. */
  lemma ParseSegmentsOk(segments: seq<string>)
    requires ParseSegments(segments).Ok?
    ensures var b := ParseSegments(segments).value;
      ParseCall(segments[0]) == Ok((b.variable, b.fnName, b.args)) &&
      b.varType == segments[1] && ':' !in b.varType && '=' !in b.varType &&
      (if |segments| == 2 then b.argsTypes == [] else ParseArgsTypes(segments[2]) == Ok(b.argsTypes)) &&
      CollectResults(NonEmpty(Skip3(segments)), ParseAnnotation) == Ok(b.annotations)
  {
    var call := ParseCall(segments[0]);
    var types := if |segments| < 3 then Ok([]) else ParseArgsTypes(segments[2]);
    var anns := CollectResults(NonEmpty(Skip3(segments)), ParseAnnotation);
    assert call.Ok? && types.Ok? && anns.Ok?;
    assert ParseSegments(segments) ==
      Ok(AnnotationBody(call.value.0, call.value.1, call.value.2, segments[1], types.value, anns.value));
  }

  /** With fewer than two segments the parse fails: without segments the call is missing, and
    * with a well-formed call alone the receiver's type is missing. */
  lemma ParseSegmentsMissing(call: string)
    requires ParseCall(call).Ok?
    ensures ParseSegments([call]) == Err("Variable type not found")
  {
  }

  /** A call without arguments (`v.f()`, whose one argument is the empty text) is rejected
    * when no argument types are given: without an argument types segment, or with one that
    * lists none, such as `[]` (`ParseArgsTypesEmpty`). */
  lemma NoArgsCallRejected(segments: seq<string>)
    requires 2 <= |segments| <= 3
    requires ParseCall(segments[0]).Ok? && ParseCall(segments[0]).value.2 == [""]
    requires |segments| == 3 ==> ParseArgsTypes(segments[2]) == Ok([])
    ensures ParseSegments(segments).Err?
  {
  }

  /** Conversely, segments whose parts each parse, with as many argument types as arguments,
    * parse to the body made of those parts. */
  lemma ParseSegmentsFrom(segments: seq<string>, v: string, f: string, args: seq<string>,
                          types: seq<string>, anns: seq<Annotation>)
    requires |segments| >= 3 && ParseCall(segments[0]) == Ok((v, f, args))
    requires ':' !in segments[1] && '=' !in segments[1]
    requires ParseArgsTypes(segments[2]) == Ok(types) && |args| == |types|
    requires CollectResults(NonEmpty(Skip3(segments)), ParseAnnotation) == Ok(anns)
    ensures ParseSegments(segments) == Ok(AnnotationBody(v, f, args, segments[1], types, anns))
  {
  }

  /** A body whose call, types and annotation are written out in the macro's syntax is read
    * back as that body. */
  lemma ParseSegmentsRendered(segments: seq<string>, v: string, f: string, args: seq<string>,
                              ty: string, types: seq<string>, t: string, traits: seq<string>)
    requires Item(v, '.') && '(' !in v && Item(f, '(')
    requires args != [] && forall i :: 0 <= i < |args| ==> Item(args[i], ',')
    requires ')' !in args[|args| - 1]
    requires ':' !in ty && '=' !in ty
    requires |types| == |args| && forall i :: 0 <= i < |types| ==> Item(types[i], ',') && !BadArgType(types[i])
    requires Item(t, ':') && traits != [] && forall i :: 0 <= i < |traits| ==> Item(traits[i], '+')
    requires |segments| == 4
    requires segments[0] == v + "." + f + "(" + Join(args, ", ") + ")" && segments[1] == ty
    requires segments[2] == "[" + Join(types, ", ") + "]" && segments[3] == t + ": " + Join(traits, " + ")
    ensures ParseSegments(segments) == Ok(AnnotationBody(v, f, args, ty, types, [Trait(t, traits)]))
  {
    ParseCallRendered(v, f, args);
    ParseArgsTypesRendered(types);
    ParseTraitRendered(t, traits);
    OneAnnotation(segments);
    CollectResultsOne(segments[3], ParseAnnotation);
    ParseSegmentsFrom(segments, v, f, args, types, [Trait(t, traits)]);
  }

  /** Of four segments, a non-empty last one is the only annotation segment. */
  lemma OneAnnotation(segments: seq<string>)
    requires |segments| == 4 && segments[3] != []
    ensures NonEmpty(Skip3(segments)) == [segments[3]]
  {
    var ann := segments[3];
    assert Skip3(segments) == [ann];
    assert [ann][1..] == [];
  }

  /** The segmenting loop of `parse_tokens`: a `;` closes the text gathered so far, trimmed;
    * any other token tree is appended to it; the trailing text is kept unless it is blank. */
  method CutSegments(ps: seq<Piece>) returns (segments: seq<string>)
    ensures segments == Segments(ps)
  {
    segments := [];
    var current := "";
    var i := 0;
    while i < |ps|
      invariant 0 <= i <= |ps|
      invariant segments == Closed(ps[..i]) && current == Open(ps[..i])
    {
      assert ps[..i + 1][..i] == ps[..i];
      match ps[i] {
        case Semicolon =>
          segments := segments + [Trim(current)];
          current := "";
        case Other(t) =>
          current := current + t;
      }
      i := i + 1;
    }
    assert ps[..i] == ps;
    if Trim(current) != "" {
      segments := segments + [Trim(current)];
    }
  }

  /** `parse_tokens`: the segments of the token trees, parsed. */
  method ParseTokens(ps: seq<Piece>) returns (r: Result<AnnotationBody>)
    ensures r == ParseSegments(Segments(ps))
  {
    var segments := CutSegments(ps);
    r := ParseSegments(segments);
  }

  // ---------------------------------------------------------------------------------------
  // Lookups

  /** `get_type_aliases`: the aliases declared for exactly this type, in order. */
  function GetTypeAliases(ty: string, anns: seq<Annotation>): (r: seq<string>)
    ensures |r| <= |anns|
    ensures forall x :: x in r <==> Alias(ty, x) in anns
  {
    if anns == [] then []
    else
      var rest := GetTypeAliases(ty, anns[1..]);
      assert forall a :: a in anns <==> a == anns[0] || a in anns[1..];
      match anns[0]
      case Alias(t, alias) => if t == ty then [alias] + rest else rest
      case Trait(_, _) => rest
  }

  /** The lookup works annotation by annotation: it distributes over concatenation. */
  lemma {:induction false} GetTypeAliasesAppend(ty: string, a: seq<Annotation>, b: seq<Annotation>)
    ensures GetTypeAliases(ty, a + b) == GetTypeAliases(ty, a) + GetTypeAliases(ty, b)
  {
    if a != [] {
      assert (a + b)[1..] == a[1..] + b;
      GetTypeAliasesAppend(ty, a[1..], b);
    } else {
      assert a + b == b;
    }
  }

  /** `get_type_traits`: the traits of every trait annotation for exactly this type,
    * concatenated in order. */
  function GetTypeTraits(ty: string, anns: seq<Annotation>): (r: seq<string>)
    ensures forall x :: x in r <==> exists ts :: Trait(ty, ts) in anns && x in ts
  {
    if anns == [] then []
    else
      var rest := GetTypeTraits(ty, anns[1..]);
      assert forall a :: a in anns <==> a == anns[0] || a in anns[1..];
      match anns[0]
      case Trait(t, traits) => if t == ty then traits + rest else rest
      case Alias(_, _) => rest
  }

  /** The lookup works annotation by annotation: it distributes over concatenation. */
  lemma {:induction false} GetTypeTraitsAppend(ty: string, a: seq<Annotation>, b: seq<Annotation>)
    ensures GetTypeTraits(ty, a + b) == GetTypeTraits(ty, a) + GetTypeTraits(ty, b)
  {
    if a != [] {
      assert (a + b)[1..] == a[1..] + b;
      GetTypeTraitsAppend(ty, a[1..], b);
    } else {
      assert a + b == b;
    }
  }
}
