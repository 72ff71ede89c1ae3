/** Recognising the `when` attribute of the macro crate, under its own name, an alias or its
  * full path, from the `use` declarations of a file
  * (`spec-trait-impl/crates/spec-trait-order/src/aliases.rs`). */
module ImplAliases {
  import opened Wrappers

  /** The crate that exports the attribute. */
  const MacroPackage: string := "spec_trait_macro"
  /** The attribute's own name. */
  const MacroName: string := "when"

  /** The tree of a `use` declaration, as `syn` gives it. */
  datatype UseTree =
    | UsePath(ident: string, tree: UseTree)
    | UseName(ident: string)
    | UseRename(ident: string, rename: string)
    | UseGroup(items: seq<UseTree>)
    | UseGlob

  /** A top-level item of a file: only `use` declarations matter here. */
  datatype Item = Use(tree: UseTree) | OtherItem

  /** The names under which a use tree brings the attribute into scope. `prefixSpec` says
    * whether the path leading to the tree passed through the macro crate. */
  function TreeAliases(tree: UseTree, prefixSpec: bool): set<string>
    decreases tree
  {
    match tree
    case UsePath(ident, sub) => TreeAliases(sub, prefixSpec || ident == MacroPackage)
    case UseName(ident) => if prefixSpec && ident == MacroName then {ident} else {}
    case UseRename(ident, rename) => if prefixSpec && ident == MacroName then {rename} else {}
    case UseGroup(items) => GroupAliases(items, prefixSpec)
    case UseGlob => if prefixSpec then {MacroName} else {}
  }

  /** The names brought into scope by the trees of a group, together. */
  function GroupAliases(items: seq<UseTree>, prefixSpec: bool): set<string>
    decreases items
  {
    if items == [] then {}
    else GroupAliases(items[..|items| - 1], prefixSpec) + TreeAliases(items[|items| - 1], prefixSpec)
  }

  /** The names brought into scope by the `use` declarations among `items`. */
  function ItemsAliases(items: seq<Item>): set<string> {
    if items == [] then {}
    else
      var last := items[|items| - 1];
      ItemsAliases(items[..|items| - 1]) + (if last.Use? then TreeAliases(last.tree, false) else {})
  }

  /** `collect_aliases_from_tree`: adds to `aliases` the names under which `tree` brings the
    * attribute into scope. The set is only ever inserted into. */
  method CollectAliasesFromTree(tree: UseTree, prefixSpec: bool, aliases: set<string>) returns (r: set<string>)
    ensures r == aliases + TreeAliases(tree, prefixSpec)
    decreases tree
  {
    match tree
    case UsePath(ident, sub) =>
      r := CollectAliasesFromTree(sub, prefixSpec || ident == MacroPackage, aliases);
    case UseName(ident) =>
      r := aliases;
      if prefixSpec && ident == MacroName {
        r := r + {ident};
      }
    case UseRename(ident, rename) =>
      r := aliases;
      if prefixSpec && ident == MacroName {
        r := r + {rename};
      }
    case UseGroup(items) =>
      r := aliases;
      var i := 0;
      while i < |items|
        invariant 0 <= i <= |items|
        invariant r == aliases + GroupAliases(items[..i], prefixSpec)
      {
        assert items[..i + 1][..i] == items[..i];
        r := CollectAliasesFromTree(items[i], prefixSpec, r);
        i := i + 1;
      }
      assert items[..i] == items;
    case UseGlob =>
      r := aliases;
      if prefixSpec {
        r := r + {MacroName};
      }
  }

  /** `collect_when_aliases`: the names under which the `use` declarations of a file bring the
    * attribute into scope. */
  method CollectWhenAliases(items: seq<Item>) returns (r: set<string>)
    ensures r == ItemsAliases(items)
  {
    r := {};
    var i := 0;
    while i < |items|
      invariant 0 <= i <= |items|
      invariant r == ItemsAliases(items[..i])
    {
      assert items[..i + 1][..i] == items[..i];
      if items[i].Use? {
        r := CollectAliasesFromTree(items[i].tree, false, r);
      }
      i := i + 1;
    }
    assert items[..i] == items;
  }

  /** Items other than `use` declarations contribute nothing. */
  lemma {:induction false} OnlyUseItems(items: seq<Item>, others: seq<Item>)
    requires forall k :: 0 <= k < |others| ==> others[k] == OtherItem
    ensures ItemsAliases(items + others) == ItemsAliases(items)
    decreases |others|
  {
    if others == [] {
      assert items + others == items;
    } else {
      var init := others[..|others| - 1];
      assert (items + others)[..|items + others| - 1] == items + init;
      OnlyUseItems(items, init);
    }
  }

  /** The aliases of a file are those of its parts together. */
  lemma {:induction false} ItemsAliasesAppend(a: seq<Item>, b: seq<Item>)
    ensures ItemsAliases(a + b) == ItemsAliases(a) + ItemsAliases(b)
    decreases |b|
  {
    if b == [] {
      assert a + b == a;
    } else {
      var init := b[..|b| - 1];
      assert (a + b)[..|a + b| - 1] == a + init;
      ItemsAliasesAppend(a, init);
    }
  }

  /** The order of the `use` declarations does not matter. */
  lemma ItemsAliasesCommute(a: seq<Item>, b: seq<Item>)
    ensures ItemsAliases(a + b) == ItemsAliases(b + a)
  {
    ItemsAliasesAppend(a, b);
    ItemsAliasesAppend(b, a);
  }

  /** Whether the macro crate appears anywhere in a use tree. */
  predicate Mentions(tree: UseTree)
    decreases tree
  {
    match tree
    case UsePath(ident, sub) => ident == MacroPackage || Mentions(sub)
    case UseGroup(items) => exists k :: 0 <= k < |items| && Mentions(items[k])
    case _ => false
  }

  /** A tree that does not go through the macro crate, outside it, brings nothing into scope:
    * a `when` of another crate is not the attribute. */
  lemma {:induction false} OtherCrateNothing(tree: UseTree)
    requires !Mentions(tree)
    ensures TreeAliases(tree, false) == {}
    decreases tree
  {
    match tree
    case UsePath(ident, sub) => OtherCrateNothing(sub);
    case UseGroup(items) => OtherGroupNothing(items);
    case _ =>
  }

  lemma {:induction false} OtherGroupNothing(items: seq<UseTree>)
    requires forall k :: 0 <= k < |items| ==> !Mentions(items[k])
    ensures GroupAliases(items, false) == {}
    decreases items
  {
    if items != [] {
      OtherGroupNothing(items[..|items| - 1]);
      OtherCrateNothing(items[|items| - 1]);
    }
  }

  /** Once the path has passed through the macro crate, further path segments change
    * nothing: every nested name stays in scope. */
  lemma PrefixSticks(ident: string, sub: UseTree)
    ensures TreeAliases(UsePath(ident, sub), true) == TreeAliases(sub, true)
  {
  }

  /** Every name brought into scope is the attribute's own name or a name it was renamed
    * to. */
  lemma {:induction false} AliasesAreRenames(tree: UseTree, prefixSpec: bool, a: string)
    requires a in TreeAliases(tree, prefixSpec)
    ensures a == MacroName || Renamed(tree, a)
    decreases tree
  {
    match tree
    case UsePath(ident, sub) => AliasesAreRenames(sub, prefixSpec || ident == MacroPackage, a);
    case UseGroup(items) => GroupAliasesAreRenames(items, prefixSpec, a);
    case _ =>
  }

  lemma {:induction false} GroupAliasesAreRenames(items: seq<UseTree>, prefixSpec: bool, a: string)
    requires a in GroupAliases(items, prefixSpec)
    ensures a == MacroName || exists k :: 0 <= k < |items| && Renamed(items[k], a)
    decreases items
  {
    var n := |items|;
    if a in GroupAliases(items[..n - 1], prefixSpec) {
      GroupAliasesAreRenames(items[..n - 1], prefixSpec, a);
      if a != MacroName {
        var k :| 0 <= k < n - 1 && Renamed(items[..n - 1][k], a);
        assert Renamed(items[k], a);
      }
    } else {
      AliasesAreRenames(items[n - 1], prefixSpec, a);
    }
  }

  /** Whether the tree renames the attribute's name to `a` somewhere. */
  predicate Renamed(tree: UseTree, a: string)
    decreases tree
  {
    match tree
    case UsePath(_, sub) => Renamed(sub, a)
    case UseRename(ident, rename) => ident == MacroName && rename == a
    case UseGroup(items) => exists k :: 0 <= k < |items| && Renamed(items[k], a)
    case _ => false
  }

  /** `use spec_trait_macro::when;` brings in `when`. */
  lemma SimpleImport()
    ensures ItemsAliases([Use(UsePath(MacroPackage, UseName(MacroName)))]) == {MacroName}
  {
    var items := [Use(UsePath(MacroPackage, UseName(MacroName)))];
    assert items[..0] == [];
  }

  /** `use spec_trait_macro::when as w;` brings in `w` and not `when`. */
  lemma RenamedImport(w: string)
    ensures ItemsAliases([Use(UsePath(MacroPackage, UseRename(MacroName, w)))]) == {w}
  {
    var tree := UsePath(MacroPackage, UseRename(MacroName, w));
    assert TreeAliases(tree, false) == {w};
    OneItem(Use(tree));
  }

  /** `use spec_trait_macro::{when as w, other};` brings in `w` only. */
  lemma GroupImport(w: string, other: string)
    requires other != MacroName
    ensures ItemsAliases([Use(UsePath(MacroPackage, UseGroup([UseRename(MacroName, w), UseName(other)])))]) == {w}
  {
    var group := [UseRename(MacroName, w), UseName(other)];
    assert group[..1] == [UseRename(MacroName, w)] && group[..1][..0] == [];
    assert GroupAliases(group[..1], true) == {w} by {
      assert TreeAliases(UseRename(MacroName, w), true) == {w};
    }
    assert TreeAliases(UseName(other), true) == {};
    assert GroupAliases(group, true) == {w};
    var tree := UsePath(MacroPackage, UseGroup(group));
    assert TreeAliases(tree, false) == {w};
    OneItem(Use(tree));
  }

  /** `use spec_trait_macro::*;` brings in `when`. */
  lemma GlobImport()
    ensures ItemsAliases([Use(UsePath(MacroPackage, UseGlob))]) == {MacroName}
  {
    var items := [Use(UsePath(MacroPackage, UseGlob))];
    assert items[..0] == [];
  }

  /** `use other::when;` brings in nothing. */
  lemma OtherPackageImport(other: string)
    requires other != MacroPackage
    ensures ItemsAliases([Use(UsePath(other, UseName(MacroName)))]) == {}
  {
    var tree := UsePath(other, UseName(MacroName));
    assert TreeAliases(tree, false) == {};
    OneItem(Use(tree));
  }

  /** A file of one `use` declaration brings in what its tree does. */
  lemma OneItem(item: Item)
    requires item.Use?
    ensures ItemsAliases([item]) == TreeAliases(item.tree, false)
  {
    assert [item][..0] == [];
  }

  /** `is_when_macro`: whether a path names the attribute, because its last segment is one of
    * the aliases in scope or because it is the full path `spec_trait_macro::...::when`. A path
    * without segments fails the `unwrap` of its last segment. */
  function IsWhenMacro(path: seq<string>, whenAliases: set<string>): (r: Result<bool>)
    ensures r.Err? <==> path == []
    ensures r.Ok? && r.value ==> path[|path| - 1] == MacroName || path[|path| - 1] in whenAliases
    ensures r.Ok? && path[|path| - 1] in whenAliases ==> r.value
    ensures r.Ok? && |path| > 1 && path[|path| - 1] !in whenAliases ==>
      (r.value <==> path == [MacroPackage] + path[1..|path| - 1] + [MacroName])
    ensures r.Ok? && path[|path| - 1] !in whenAliases ==>
      (r.value <==> |path| > 1 && path[0] == MacroPackage && path[|path| - 1] == MacroName)
  {
    if path == [] then Err("called `Option::unwrap()` on a `None` value")
    else
      var last := path[|path| - 1];
      Ok(last in whenAliases || (last == MacroName && path[0] == MacroPackage))
  }

  /** The attribute is recognised under its name or an alias once imported, and under its full
    * path without any import; `other::when` is not the attribute. */
  lemma IsWhenMacroExamples(w: string, other: string)
    requires other != MacroPackage
    ensures IsWhenMacro([MacroName], {MacroName}) == Ok(true)
    ensures IsWhenMacro([w], {w}) == Ok(true)
    ensures IsWhenMacro([MacroPackage, MacroName], {}) == Ok(true)
    ensures IsWhenMacro([other, MacroName], {}) == Ok(false)
    ensures IsWhenMacro([MacroName], {}) == Ok(false)
  {
  }

  /** Every name a file brings into scope for the attribute is `when` itself or a name one of
    * its `use` declarations renames `when` to. */
  lemma {:induction false} ItemsAliasesAreRenames(items: seq<Item>, a: string)
    requires a in ItemsAliases(items)
    ensures a == MacroName || exists k :: 0 <= k < |items| && items[k].Use? && Renamed(items[k].tree, a)
    decreases |items|
  {
    var n := |items|;
    if a in ItemsAliases(items[..n - 1]) {
      ItemsAliasesAreRenames(items[..n - 1], a);
      if a != MacroName {
        var k :| 0 <= k < n - 1 && items[..n - 1][k].Use? && Renamed(items[..n - 1][k].tree, a);
        assert items[k] == items[..n - 1][k];
      }
    } else {
      AliasesAreRenames(items[n - 1].tree, false, a);
    }
  }

  /** In a file, a path is the attribute only when its last segment is `when` or a name the
    * file renames `when` to: any other name is never recognised, whatever the path. */
  lemma OnlyWhenOrRename(items: seq<Item>, path: seq<string>)
    requires path != [] && path[|path| - 1] != MacroName
    requires forall k :: 0 <= k < |items| && items[k].Use? ==> !Renamed(items[k].tree, path[|path| - 1])
    ensures IsWhenMacro(path, ItemsAliases(items)) == Ok(false)
  {
    if path[|path| - 1] in ItemsAliases(items) {
      ItemsAliasesAreRenames(items, path[|path| - 1]);
    }
  }

  /** In a file that imports nothing from the macro crate, only the full path
    * `spec_trait_macro::...::when` is the attribute: a bare `when` is not. */
  lemma NoImportFullPathOnly(items: seq<Item>, path: seq<string>)
    requires forall k :: 0 <= k < |items| && items[k].Use? ==> !Mentions(items[k].tree)
    ensures path == [] ==> IsWhenMacro(path, ItemsAliases(items)).Err?
    ensures path != [] ==>
      IsWhenMacro(path, ItemsAliases(items)) == Ok(|path| > 1 && path[0] == MacroPackage && path[|path| - 1] == MacroName)
  {
    NoImportNoAliases(items);
  }

  lemma {:induction false} NoImportNoAliases(items: seq<Item>)
    requires forall k :: 0 <= k < |items| && items[k].Use? ==> !Mentions(items[k].tree)
    ensures ItemsAliases(items) == {}
    decreases |items|
  {
    if items != [] {
      var n := |items|;
      NoImportNoAliases(items[..n - 1]);
      if items[n - 1].Use? {
        OtherCrateNothing(items[n - 1].tree);
      }
    }
  }
}
