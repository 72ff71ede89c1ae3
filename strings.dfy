/** String helpers that stand for the Rust standard library operations the source uses
  * (`trim`, `split`, `contains`, `replace`, `join`, `format!("{}", n)`). */
module Strings {
  import opened Wrappers

  predicate IsSpace(c: char) { c == ' ' || c == '\t' || c == '\n' || c == '\r' }

  /** `str::trim_start`. */
  function TrimStart(s: string): (r: string)
    ensures |r| <= |s| && r == s[|s| - |r|..]
    ensures r == [] || !IsSpace(r[0])
    ensures forall i :: 0 <= i < |s| - |r| ==> IsSpace(s[i])
  {
    if s == [] || !IsSpace(s[0]) then s else TrimStart(s[1..])
  }

  /** `str::trim_end`. */
  function TrimEnd(s: string): (r: string)
    ensures |r| <= |s| && r == s[..|r|]
    ensures r == [] || !IsSpace(r[|r| - 1])
    ensures forall i :: |r| <= i < |s| ==> IsSpace(s[i])
  {
    if s == [] || !IsSpace(s[|s| - 1]) then s else TrimEnd(s[..|s| - 1])
  }

  /** `str::trim`. */
  function Trim(s: string): (r: string)
    ensures r == [] || (!IsSpace(r[0]) && !IsSpace(r[|r| - 1]))
    ensures |r| <= |s|
  {
    TrimEnd(TrimStart(s))
  }

  /** `str::contains(char)`. */
  predicate Contains(s: string, c: char) { c in s }

  /** `str::split(sep)`: the pieces between occurrences of `sep`; always at least one piece. */
  function Split(s: string, sep: char): (r: seq<string>)
    ensures |r| >= 1
    ensures forall i :: 0 <= i < |r| ==> sep !in r[i]
    ensures |r| == 1 <==> sep !in s
  {
    if s == [] then [""]
    else if s[0] == sep then [""] + Split(s[1..], sep)
    else
      var rest := Split(s[1..], sep);
      [[s[0]] + rest[0]] + rest[1..]
  }

  /** `Split` loses nothing: joining the pieces with `sep` gives back the input. */
  lemma {:induction false} SplitJoin(s: string, sep: char)
    ensures Join(Split(s, sep), [sep]) == s
  {
    if s == [] {
    } else if s[0] == sep {
      SplitJoin(s[1..], sep);
      JoinCons("", Split(s[1..], sep), [sep]);
    } else {
      var rest := Split(s[1..], sep);
      assert Split(s, sep) == [[s[0]] + rest[0]] + rest[1..];
      SplitJoin(s[1..], sep);
      assert s == [s[0]] + s[1..];
      if |rest| != 1 {
        var tail := Join(rest[1..], [sep]);
        JoinCons([s[0]] + rest[0], rest[1..], [sep]);
        JoinCons(rest[0], rest[1..], [sep]);
        assert rest == [rest[0]] + rest[1..];
        assert ([s[0]] + rest[0]) + [sep] + tail == [s[0]] + (rest[0] + [sep] + tail);
      }
    }
  }

  /** `[String]::join(sep)`. */
  function Join(parts: seq<string>, sep: string): (r: string)
    ensures parts == [] ==> r == []
    ensures |parts| == 1 ==> r == parts[0]
  {
    if parts == [] then []
    else if |parts| == 1 then parts[0]
    else parts[0] + sep + Join(parts[1..], sep)
  }

  lemma JoinCons(p: string, ps: seq<string>, sep: string)
    requires ps != []
    ensures Join([p] + ps, sep) == p + sep + Join(ps, sep)
  {
    assert ([p] + ps)[1..] == ps;
  }

  /** `str::replace(c, "")`: every occurrence of `c` removed, everything else kept in order. */
  function RemoveChar(s: string, c: char): (r: string)
    ensures c !in r
    ensures |r| <= |s|
    ensures c !in s ==> r == s
  {
    if s == [] then []
    else if s[0] == c then RemoveChar(s[1..], c)
    else [s[0]] + RemoveChar(s[1..], c)
  }

  /** The number of occurrences of `c` in `s`. */
  function CountChar(s: string, c: char): (n: nat)
    ensures n <= |s|
    ensures n == 0 <==> c !in s
  {
    if s == [] then 0 else (if s[0] == c then 1 else 0) + CountChar(s[1..], c)
  }

  lemma {:induction false} CountCharAppend(a: string, b: string, c: char)
    ensures CountChar(a + b, c) == CountChar(a, c) + CountChar(b, c)
  {
    if a == [] {
      assert a + b == b;
    } else {
      assert (a + b)[1..] == a[1..] + b;
      CountCharAppend(a[1..], b, c);
    }
  }

  /** Joining keeps a piecewise comparison of the number of `c`s: no more in any piece means
    * no more in the whole, and fewer in one piece means fewer in the whole. */
  lemma {:induction false} JoinFewer(xs: seq<string>, ys: seq<string>, sep: string, c: char)
    requires |xs| == |ys|
    requires forall i :: 0 <= i < |xs| ==> CountChar(ys[i], c) <= CountChar(xs[i], c)
    ensures CountChar(Join(ys, sep), c) <= CountChar(Join(xs, sep), c)
    ensures (exists i :: 0 <= i < |xs| && CountChar(ys[i], c) < CountChar(xs[i], c)) ==>
              CountChar(Join(ys, sep), c) < CountChar(Join(xs, sep), c)
  {
    if |xs| > 1 {
      JoinFewer(xs[1..], ys[1..], sep, c);
      var jx, jy := Join(xs[1..], sep), Join(ys[1..], sep);
      assert Join(xs, sep) == xs[0] + sep + jx;
      assert Join(ys, sep) == ys[0] + sep + jy;
      CountCharAppend(xs[0] + sep, jx, c);
      CountCharAppend(xs[0], sep, c);
      CountCharAppend(ys[0] + sep, jy, c);
      CountCharAppend(ys[0], sep, c);
      if exists i :: 0 <= i < |xs| && CountChar(ys[i], c) < CountChar(xs[i], c) {
        var i :| 0 <= i < |xs| && CountChar(ys[i], c) < CountChar(xs[i], c);
        if i > 0 {
          assert xs[1..][i - 1] == xs[i] && ys[1..][i - 1] == ys[i];
        }
      }
    }
  }

  /** Wrapping two strings in the same context keeps the comparison of their numbers of `c`s. */
  lemma WrapFewer(pre: string, x: string, y: string, post: string, c: char)
    requires CountChar(y, c) <= CountChar(x, c)
    ensures CountChar(pre + y + post, c) <= CountChar(pre + x + post, c)
    ensures CountChar(y, c) < CountChar(x, c) ==> CountChar(pre + y + post, c) < CountChar(pre + x + post, c)
  {
    CountCharAppend(pre, x, c);
    CountCharAppend(pre + x, post, c);
    CountCharAppend(pre, y, c);
    CountCharAppend(pre + y, post, c);
  }

  /** `Split` yields one piece more than there are separators. */
  lemma {:induction false} SplitCount(s: string, sep: char)
    ensures |Split(s, sep)| == CountChar(s, sep) + 1
  {
    if s != [] {
      SplitCount(s[1..], sep);
    }
  }

  /** Removing one character leaves the count of every other character unchanged. */
  lemma {:induction false} RemoveCharCount(s: string, c: char, d: char)
    requires c != d
    ensures CountChar(RemoveChar(s, c), d) == CountChar(s, d)
  {
    if s != [] {
      RemoveCharCount(s[1..], c, d);
      if s[0] != c {
        assert ([s[0]] + RemoveChar(s[1..], c))[1..] == RemoveChar(s[1..], c);
      }
    }
  }

  /** Removing a character keeps every other character. */
  lemma {:induction false} RemoveCharKeeps(s: string, c: char, d: char)
    requires c != d
    ensures d in RemoveChar(s, c) <==> d in s
  {
    RemoveCharCount(s, c, d);
  }

  /** `Trim` only cuts characters off the ends: what remains is a slice of the input. */
  lemma TrimSlice(s: string) returns (i: nat, j: nat)
    ensures i <= j <= |s| && Trim(s) == s[i..j]
  {
    var a := TrimStart(s);
    i := |s| - |a|;
    var b := TrimEnd(a);
    j := i + |b|;
    assert Trim(s) == b == a[..|b|] == s[i..j];
  }

  /** A character absent from the input is absent from its trimmed form. */
  lemma TrimNotIn(s: string, c: char)
    requires c !in s
    ensures c !in Trim(s)
  {
    var i, j := TrimSlice(s);
  }

  /** Splitting at a separator that follows a separator-free prefix yields that prefix first. */
  lemma {:induction false} SplitAtFirst(a: string, b: string, sep: char)
    requires sep !in a
    ensures Split(a + [sep] + b, sep) == [a] + Split(b, sep)
  {
    if a == [] {
      assert a + [sep] + b == [sep] + b;
    } else {
      assert (a + [sep] + b)[1..] == a[1..] + [sep] + b;
      SplitAtFirst(a[1..], b, sep);
      assert [a[0]] + a[1..] == a;
    }
  }

  /** Text without the separator is one piece. */
  lemma SplitNone(a: string, sep: char)
    requires sep !in a
    ensures Split(a, sep) == [a]
  {
    SplitJoin(a, sep);
  }

  /** `RemoveChar` works piecewise on a concatenation. */
  lemma {:induction false} RemoveCharAppend(a: string, b: string, c: char)
    ensures RemoveChar(a + b, c) == RemoveChar(a, c) + RemoveChar(b, c)
  {
    if a != [] {
      assert (a + b)[1..] == a[1..] + b;
      RemoveCharAppend(a[1..], b, c);
    } else {
      assert a + b == b;
    }
  }

  /** A character in neither the parts nor the separator is not in their join. */
  lemma {:induction false} JoinNotIn(parts: seq<string>, sep: string, c: char)
    requires c !in sep
    requires forall i :: 0 <= i < |parts| ==> c !in parts[i]
    ensures c !in Join(parts, sep)
  {
    if |parts| > 1 {
      JoinNotIn(parts[1..], sep, c);
    }
  }

  /** Text made of white space only. */
  predicate AllSpaces(p: string) {
    forall i :: 0 <= i < |p| ==> IsSpace(p[i])
  }

  /** Leading white space is all `TrimStart` removes. */
  lemma {:induction false} TrimStartSpaces(p: string, x: string)
    requires AllSpaces(p)
    requires x == [] || !IsSpace(x[0])
    ensures TrimStart(p + x) == x
  {
    if p == [] {
      assert p + x == x;
    } else {
      assert (p + x)[1..] == p[1..] + x;
      TrimStartSpaces(p[1..], x);
    }
  }

  /** Trailing white space is all `TrimEnd` removes. */
  lemma {:induction false} TrimEndSpaces(x: string, q: string)
    requires AllSpaces(q)
    requires x == [] || !IsSpace(x[|x| - 1])
    ensures TrimEnd(x + q) == x
    decreases |q|
  {
    if q == [] {
      assert x + q == x;
    } else {
      assert (x + q)[..|x + q| - 1] == x + q[..|q| - 1];
      TrimEndSpaces(x, q[..|q| - 1]);
    }
  }

  /** Text that neither starts nor ends with white space is its own trimmed form. */
  lemma TrimUnchanged(w: string)
    requires w == [] || (!IsSpace(w[0]) && !IsSpace(w[|w| - 1]))
    ensures Trim(w) == w
  {
    TrimStartSpaces("", w);
    assert "" + w == w;
    TrimEndSpaces(w, "");
    assert w + "" == w;
  }

  /** White space around a word is trimmed off, and nothing else. */
  lemma TrimSpaces(p: string, w: string, q: string)
    requires AllSpaces(p) && AllSpaces(q)
    requires w != [] && !IsSpace(w[0]) && !IsSpace(w[|w| - 1])
    ensures Trim(p + w + q) == w
  {
    assert p + w + q == p + (w + q);
    TrimStartSpaces(p, w + q);
    TrimEndSpaces(w, q);
  }

  /** `s.trim()` on every element. */
  function TrimAll(pieces: seq<string>): (r: seq<string>)
    ensures |r| == |pieces|
    ensures forall i :: 0 <= i < |r| ==> r[i] == Trim(pieces[i])
  {
    seq(|pieces|, i requires 0 <= i < |pieces| => Trim(pieces[i]))
  }

  lemma TrimAllCons(a: string, rest: seq<string>)
    ensures TrimAll([a] + rest) == [Trim(a)] + TrimAll(rest)
  {
    var r, r' := TrimAll([a] + rest), [Trim(a)] + TrimAll(rest);
    assert |r| == |r'|;
    forall i | 0 <= i < |r| ensures r[i] == r'[i] {
      if i > 0 { assert ([a] + rest)[i] == rest[i - 1]; }
    }
  }

  /** An item of a list separated by `c`: non-empty, free of `c`, and without white space at
    * either end. */
  predicate Item(w: string, c: char) {
    w != [] && c !in w && !IsSpace(w[0]) && !IsSpace(w[|w| - 1])
  }

  /** `sep` is the character `c` at index `k` with white space only around it, as in `", "`
    * or `" + "`. */
  predicate Separator(sep: string, c: char, k: nat) {
    k < |sep| && sep[k] == c && !IsSpace(c) && AllSpaces(sep[..k]) && AllSpaces(sep[k + 1..])
  }

  lemma CommaSeparator()
    ensures Separator(", ", ',', 0)
  {
    assert ", "[..0] == "" && ", "[1..] == " ";
  }

  lemma PlusSeparator()
    ensures Separator(" + ", '+', 1)
  {
    assert " + "[..1] == " " && " + "[2..] == " ";
  }

  /** Splitting a joined list at its separator character and trimming every piece gives back
    * the items, whatever white space surrounds the separator. The prefix `p` is white space a
    * previous separator left in front of the text. */
  lemma {:induction false} SplitTrimJoin(p: string, items: seq<string>, sep: string, c: char, k: nat)
    requires AllSpaces(p) && Separator(sep, c, k)
    requires items != []
    requires forall i :: 0 <= i < |items| ==> Item(items[i], c)
    ensures TrimAll(Split(p + Join(items, sep), c)) == items
    decreases |items|
  {
    var n := items[0];
    assert Item(n, c);
    if |items| == 1 {
      assert items == [n];
      SplitTrimJoinOne(p, n, c);
    } else {
      var rest := items[1..];
      var pre, post := sep[..k], sep[k + 1..];
      assert sep == pre + [c] + post;
      assert items == [n] + rest;
      SplitJoinStep(p, n, rest, pre, c, post);
      SplitTrimJoin(post, rest, sep, c, k);
      TrimSpaces(p, n, pre);
      TrimAllCons(p + n + pre, Split(post + Join(rest, sep), c));
    }
  }

  /** `SplitTrimJoin` for a list that starts right at its first item. */
  lemma SplitTrimList(items: seq<string>, sep: string, c: char, k: nat)
    requires Separator(sep, c, k)
    requires items != []
    requires forall i :: 0 <= i < |items| ==> Item(items[i], c)
    ensures TrimAll(Split(Join(items, sep), c)) == items
  {
    SplitTrimJoin("", items, sep, c, k);
    assert "" + Join(items, sep) == Join(items, sep);
  }

  lemma SplitTrimJoinOne(p: string, n: string, c: char)
    requires AllSpaces(p) && !IsSpace(c) && Item(n, c)
    ensures forall sep :: TrimAll(Split(p + Join([n], sep), c)) == [n]
  {
    assert c !in p + n by {
      assert c !in p;
    }
    SplitNone(p + n, c);
    assert Trim(p + n) == n by {
      TrimSpaces(p, n, "");
      assert p + n + "" == p + n;
    }
    assert TrimAll([p + n]) == [n];
  }

  /** One step of `SplitTrimJoin`: the first item, with the white space around it, is the
    * first piece. */
  lemma SplitJoinStep(p: string, n: string, rest: seq<string>, pre: string, c: char, post: string)
    requires AllSpaces(p) && AllSpaces(pre) && !IsSpace(c) && c !in n && rest != []
    ensures Split(p + Join([n] + rest, pre + [c] + post), c)
         == [p + n + pre] + Split(post + Join(rest, pre + [c] + post), c)
  {
    var j := Join(rest, pre + [c] + post);
    JoinCons(n, rest, pre + [c] + post);
    assert c !in p && c !in pre;
    assert p + Join([n] + rest, pre + [c] + post) == (p + n + pre) + [c] + (post + j);
    SplitAtFirst(p + n + pre, post + j, c);
  }

  /** `str::split_once(c)`: the text before and after the first `c`, if there is one. */
  function SplitOnce(s: string, c: char): (r: Option<(string, string)>)
    ensures r.None? <==> c !in s
    ensures r.Some? ==> s == r.value.0 + [c] + r.value.1 && c !in r.value.0
  {
    if s == [] then None
    else if s[0] == c then
      assert s == [] + [c] + s[1..];
      Some(([], s[1..]))
    else
      match SplitOnce(s[1..], c)
      case None => None
      case Some((a, b)) =>
        assert s == [s[0]] + a + [c] + b;
        Some(([s[0]] + a, b))
  }

  /** `SplitOnce` cuts at the first `c`: the decomposition it returns is the only one whose left
    * part is free of `c`. */
  lemma {:induction false} SplitOnceAt(a: string, b: string, c: char)
    requires c !in a
    ensures SplitOnce(a + [c] + b, c) == Some((a, b))
  {
    if a == [] {
      assert a + [c] + b == [c] + b;
    } else {
      assert (a + [c] + b)[1..] == a[1..] + [c] + b;
      SplitOnceAt(a[1..], b, c);
      assert [a[0]] + a[1..] == a;
    }
  }

  /** `str::trim_end_matches(c)`: every trailing `c` removed. */
  function TrimEndMatches(s: string, c: char): (r: string)
    ensures |r| <= |s| && r == s[..|r|]
    ensures r == [] || r[|r| - 1] != c
    ensures forall i :: |r| <= i < |s| ==> s[i] == c
  {
    if s != [] && s[|s| - 1] == c then TrimEndMatches(s[..|s| - 1], c) else s
  }

  /** One trailing `c` after a text that does not end in `c` is removed, and nothing else. */
  lemma TrimEndMatchesOne(x: string, c: char)
    requires x == [] || x[|x| - 1] != c
    ensures TrimEndMatches(x + [c], c) == x
  {
    assert (x + [c])[..|x + [c]| - 1] == x;
  }

  /** A sequence of strings without repetitions. */
  predicate NoDuplicates<T(==)>(s: seq<T>) {
    forall i, j :: 0 <= i < j < |s| ==> s[i] != s[j]
  }

  /** Taking the head off a list without repetitions leaves one, without the head. */
  lemma NoDuplicatesTail<T>(s: seq<T>)
    requires NoDuplicates(s) && s != []
    ensures NoDuplicates(s[1..]) && s[0] !in s[1..]
  {
    var t := s[1..];
    forall j | 0 <= j < |t| ensures t[j] != s[0] {
      assert t[j] == s[j + 1];
    }
    forall i, j | 0 <= i < j < |t| ensures t[i] != t[j] {
      assert t[i] == s[i + 1] && t[j] == s[j + 1];
    }
  }

  /** The digit character of a value below ten. */
  function Digit(d: nat): (c: char)
    requires d < 10
    ensures '0' <= c <= '9'
  {
    ['0', '1', '2', '3', '4', '5', '6', '7', '8', '9'][d]
  }

  lemma DigitInjective(a: nat, b: nat)
    requires a < 10 && b < 10 && Digit(a) == Digit(b)
    ensures a == b
  {
  }

  /** `format!("{}", n)` for a non-negative integer: its decimal representation. */
  function Decimal(n: nat): (r: string)
    ensures |r| >= 1
    ensures forall i :: 0 <= i < |r| ==> '0' <= r[i] <= '9'
    decreases n
  {
    if n < 10 then [Digit(n)] else Decimal(n / 10) + [Digit(n % 10)]
  }

  /** Distinct numbers have distinct decimal representations. */
  lemma {:induction false} DecimalInjective(a: nat, b: nat)
    requires Decimal(a) == Decimal(b)
    ensures a == b
    decreases a
  {
    var da, db := Decimal(a), Decimal(b);
    if a < 10 && b < 10 {
      DigitInjective(a, b);
    } else if a < 10 || b < 10 {
      assert false;
    } else {
      assert da[|da| - 1] == Digit(a % 10);
      assert db[|db| - 1] == Digit(b % 10);
      DigitInjective(a % 10, b % 10);
      assert da[..|da| - 1] == Decimal(a / 10);
      assert db[..|db| - 1] == Decimal(b / 10);
      DecimalInjective(a / 10, b / 10);
    }
  }

  /** `prefix + Decimal(n) + suffix` is injective in `n`: fresh-name generators built from a
    * counter never produce the same name for two counter values. */
  lemma CounterNameInjective(prefix: string, suffix: string, a: nat, b: nat)
    requires prefix + Decimal(a) + suffix == prefix + Decimal(b) + suffix
    ensures a == b
  {
    var x, y := prefix + Decimal(a) + suffix, prefix + Decimal(b) + suffix;
    assert |Decimal(a)| == |Decimal(b)|;
    assert Decimal(a) == x[|prefix|..|prefix| + |Decimal(a)|];
    assert Decimal(b) == y[|prefix|..|prefix| + |Decimal(b)|];
    DecimalInjective(a, b);
  }
}
