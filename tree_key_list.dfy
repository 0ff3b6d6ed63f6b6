/** The tree key list of src/ui/components/tree-key-list.ts: the keys shown
    as a tree of folders, the rows on screen, and what the selected row
    answers. The list widget's selection index is a parameter of every
    query; drawing the rows on screen is left out. */
module TreeKeyList {
  import opened Wrappers
  import opened Strings
  import opened TreeNodes
  import opened TreeBuilder
  import opened TreeFlattener
  import opened TreeOps

  lemma {:induction false} SameShapeTransitive(a: Node, b: Node, c: Node)
    requires SameShape(a, b) && SameShape(b, c)
    ensures SameShape(a, c)
    decreases a
  {
    forall x | x in a.children ensures SameShape(a.children[x], c.children[x]) {
      SameShapeTransitive(a.children[x], b.children[x], c.children[x]);
    }
  }

  /** Expand flags play no part in the keys collected below a node. */
  lemma {:induction false} KeysUnderSameShape(a: Node, b: Node)
    requires SameShape(a, b)
    ensures KeysUnder(a) == KeysUnder(b)
    decreases a, 1
  {
    ChildOrderSameShape(a, b);
    ChildKeysSameShape(a, b, ChildOrder(a));
  }

  lemma {:induction false} ChildKeysSameShape(a: Node, b: Node, names: seq<string>)
    requires SameShape(a, b) && forall x :: x in names ==> x in a.children
    ensures ChildKeys(a, names) == ChildKeys(b, names)
    decreases a, 0, |names|
  {
    if names != [] {
      var last := names[|names| - 1];
      ChildKeysSameShape(a, b, names[..|names| - 1]);
      KeysUnderSameShape(a.children[last], b.children[last]);
    }
  }

  /** Every node below the root of a built tree holds at least one key in
      its subtree: a node without a key of its own has children. */
  lemma {:induction false} NonRootHasKeys(n: Node, d: string, base: seq<string>, keys: seq<string>)
    requires |d| > 0 && WellFormed(n, d, base, keys) && base != []
    ensures |KeysUnder(n)| >= 1
    decreases n
  {
    if n.fullKey.None? {
      var names := ChildOrder(n);
      var last := names[|names| - 1];
      WFChild(n, d, base, keys, last);
      NonRootHasKeys(n.children[last], d, base + [last], keys);
      assert ChildKeys(n, names) == ChildKeys(n, names[..|names| - 1]) + KeysUnder(n.children[last]);
    }
  }

  /** A row on screen belongs to a node below the root: the node its
      reference leads to, in the tree as built and in the tree as toggled. */
  lemma RowIsBuiltNode(root: Node, built: Node, d: string, keys: seq<string>, r: FlatItem)
    requires |d| > 0 && built == InsertAll(keys, d) && SameShape(root, built) && r in Rows(root, [])
    ensures r.nodeRef != [] && NodeAt(root, r.nodeRef).Some? && NodeAt(built, r.nodeRef).Some?
    ensures NodeAt(root, r.nodeRef).value.level >= 0
    ensures r == RowOf(NodeAt(root, r.nodeRef).value, r.nodeRef)
    ensures r.fullKey == KeyAt(built, r.nodeRef)
    ensures r.isParent == IsParent(NodeAt(built, r.nodeRef).value)
    ensures SameShape(NodeAt(root, r.nodeRef).value, NodeAt(built, r.nodeRef).value)
  {
    InsertAllBuilt(keys, d);
    RowsAreNodes(root, []);
    assert r.nodeRef[0..] == r.nodeRef;
    SameShapeNodeAt(root, built, r.nodeRef);
    var m := NodeAt(root, r.nodeRef).value;
    var b := NodeAt(built, r.nodeRef).value;
    assert |m.children| == |m.children.Keys| == |b.children.Keys| == |b.children|;
  }

  /** A key whose segments start with a folder's segments is the folder's
      path itself or starts with that path and the delimiter. */
  lemma PrefixKeyMatchesPath(k: string, d: string, p: seq<string>)
    requires |d| > 0 && p != [] && IsPrefix(p, Split(k, d))
    ensures k == Join(p, d) || StartsWith(k, Join(p, d) + d)
  {
    var s := Split(k, d);
    JoinSplit(k, d);
    var rest := s[|p|..];
    assert s == p + rest;
    if rest == [] {
      assert s == p;
    } else {
      JoinAppend(p, rest, d);
      assert k == (Join(p, d) + d) + Join(rest, d);
      assert k[..|Join(p, d) + d|] == Join(p, d) + d;
    }
  }

  /** Conversely, when no segment of the folder contains the one-character
      delimiter, a key equal to the path or starting with path and
      delimiter has the folder's segments in front. */
  lemma PathMatchesPrefixKey(k: string, c: char, p: seq<string>)
    requires p != [] && forall i :: 0 <= i < |p| ==> c !in p[i]
    requires k == Join(p, [c]) || StartsWith(k, Join(p, [c]) + [c])
    ensures IsPrefix(p, Split(k, [c]))
  {
    var path := Join(p, [c]);
    if k == path {
      SplitJoinFree(p, c);
    } else {
      var rest := k[|path| + 1..];
      assert k == path + [c] + rest;
      SplitJoinFreeThen(p, c, rest);
      assert (p + Split(rest, [c]))[..|p|] == p;
    }
  }

  /** The segments on the way to a node of a built tree are pieces of some
      key's split, so none of them holds a one-character delimiter. */
  lemma PathSegmentsFree(built: Node, d: string, keys: seq<string>, p: seq<string>)
    requires |d| == 1 && BuiltFrom(built, d, keys) && NodeAt(built, p).Some? && p != []
    ensures forall i :: 0 <= i < |p| ==> d[0] !in p[i]
  {
    var m := NodeAt(built, p).value;
    WellFormedNodeAt(built, d, [], keys, p);
    assert [] + p == p;
    NonRootHasKeys(m, d, p, keys);
    var k := KeysUnder(m)[0];
    KeysUnderFolder(built, d, keys, p, k);
    PrefixOfSplitFree(k, d, p);
  }

  /** The leading segments of a key split at a one-character delimiter do
      not contain that character. */
  lemma PrefixOfSplitFree(k: string, d: string, p: seq<string>)
    requires |d| == 1 && IsPrefix(p, Split(k, d))
    ensures forall i :: 0 <= i < |p| ==> d[0] !in p[i]
  {
    assert d == [d[0]];
    SplitPiecesFree(k, d[0]);
    forall i | 0 <= i < |p| ensures d[0] !in p[i] {
      assert p[i] == Split(k, d)[i];
    }
  }

  /** The keys below a folder are exactly the keys that equal the folder's
      path (its segments joined by the delimiter) or start with the path
      followed by the delimiter. */
  lemma FolderPathSelectsKeys(built: Node, d: string, keys: seq<string>, p: seq<string>, k: string)
    requires |d| == 1 && BuiltFrom(built, d, keys) && NodeAt(built, p).Some? && p != []
    ensures k in KeysUnder(NodeAt(built, p).value) <==>
      k in keys && (k == Join(p, d) || StartsWith(k, Join(p, d) + d))
  {
    KeysUnderFolder(built, d, keys, p, k);
    if k in keys && IsPrefix(p, Split(k, d)) {
      PrefixKeyMatchesPath(k, d, p);
    }
    if k in keys && (k == Join(p, d) || StartsWith(k, Join(p, d) + d)) {
      PathSegmentsFree(built, d, keys, p);
      assert d == [d[0]];
      PathMatchesPrefixKey(k, d[0], p);
    }
  }

  /** The candidates buildTree picks from are single characters. */
  lemma DetectedIsOneChar(keys: seq<string>)
    ensures |DetectDelimiter(keys)| == 1
  {
    var d := DetectDelimiter(keys);
    assert d == ":" || d == "/" || d == "." || d == "-";
  }

  /** After updateItems(["a", "a:b"]) the only row is the folder "a", which
      also stores the key "a". */
  lemma FolderRowExample()
    ensures DetectDelimiter(["a", "a:b"]) == ":"
    ensures |TopRows(InsertAll(["a", "a:b"], ":"))| == 1
    ensures TopRows(InsertAll(["a", "a:b"], ":"))[0].isParent
    ensures TopRows(InsertAll(["a", "a:b"], ":"))[0].nodeRef == ["a"]
  {
    ExampleDelimiter();
    var t := ExampleTree();
    SingleChildOrder(t, "a");
    assert TopRows(t)[0] == TopRow(t, "a");
  }

  /** The widget's state taken apart: the tree differs from the one built
      for `keys` only in its expand flags, and the rows are its flattening. */
  ghost predicate Consistent(treeRoot: Option<Node>, delimiter: string, flatItems: seq<FlatItem>,
                             keys: seq<string>, built: Node)
  {
    && (treeRoot.None? ==> flatItems == [])
    && (treeRoot.Some? ==>
          && delimiter == ChosenDelimiter(keys, None)
          && built == InsertAll(keys, delimiter)
          && SameShape(treeRoot.value, built)
          && flatItems == Rows(treeRoot.value, []))
  }

  /** A freshly built tree with its rows is consistent. */
  lemma FreshConsistent(treeRoot: Option<Node>, d: string, items: seq<FlatItem>, keys: seq<string>, root: Node)
    requires d == ChosenDelimiter(keys, None) && root == InsertAll(keys, d)
    requires treeRoot == Some(root) && items == Rows(root, [])
    ensures Consistent(treeRoot, d, items, keys, root)
    ensures items == TopRows(root)
  {
    InsertAllBuilt(keys, d);
    FreshTreeRows(root, d, keys);
    SameShapeReflexive(root);
  }

  /** Toggling the node of a row of a consistent tree flips that node's
      expand flag, and re-flattening keeps the state consistent. */
  lemma ToggleConsistent(root: Node, d: string, items: seq<FlatItem>, keys: seq<string>, built: Node, sel: int,
                          treeRoot: Option<Node>, rows: seq<FlatItem>)
    requires Consistent(Some(root), d, items, keys, built) && 0 <= sel < |items|
    requires treeRoot == Some(ToggleAt(root, items[sel].nodeRef)) && rows == Rows(treeRoot.value, [])
    ensures Consistent(treeRoot, d, rows, keys, built)
    ensures NodeAt(treeRoot.value, items[sel].nodeRef).Some?
    ensures NodeAt(treeRoot.value, items[sel].nodeRef).value.isExpanded == !items[sel].isExpanded
    ensures sel < |rows| && rows[..sel] == items[..sel] && rows[sel].nodeRef == items[sel].nodeRef
  {
    var p := items[sel].nodeRef;
    assert items[sel] in items;
    RowIsBuiltNode(root, built, d, keys, items[sel]);
    ToggleAtSameShape(root, p);
    SameShapeTransitive(ToggleAt(root, p), root, built);
    ToggleAtFlipsOnlyTarget(root, p, p);
    ToggleKeepsSelection(root, items, sel);
  }

  /** After toggling the node of row `sel` and re-flattening, the rows
      above it are unchanged and row `sel` is still that node's. */
  lemma ToggleKeepsSelection(root: Node, items: seq<FlatItem>, sel: int)
    requires items == Rows(root, []) && 0 <= sel < |items|
    ensures var rows := Rows(ToggleAt(root, items[sel].nodeRef), []);
      sel < |rows| && rows[..sel] == items[..sel] && rows[sel].nodeRef == items[sel].nodeRef
  {
    var p := items[sel].nodeRef;
    assert items[sel] in items;
    RowIsShown(root, [], items[sel]);
    assert p[0..] == p && [] + p == p;
    RowsSplitAt(root, [], p);
    RowsDistinct(root, []);
    assert sel == |RowsBefore(root, [], p)|;
    ToggleKeepsRowsBefore(root, [], p);
    RowsSplitAt(ToggleAt(root, p), [], p);
  }

  /** The widget's state: the tree of the shown keys, the delimiter it was
      built with, and its rows. */
  class TreeKeyListWidget {
    var treeRoot: Option<Node>
    var delimiter: string
    var flatItems: seq<FlatItem>
    /** The keys of the last updateItems, and the tree built from them
        before any toggle. */
    ghost var keys: seq<string>
    ghost var built: Node

    /** The tree differs from the one built for `keys` only in its expand
        flags, and the rows are its flattening. */
    ghost predicate Valid()
      reads this
    {
      Consistent(treeRoot, delimiter, flatItems, keys, built)
    }

    /** The node of the selected row. */
    ghost function SelectedNode(sel: int): Node
      reads this
      requires Valid() && 0 <= sel < |flatItems|
    {
      assert flatItems[sel] in flatItems;
      RowIsBuiltNode(treeRoot.value, built, delimiter, keys, flatItems[sel]);
      NodeAt(treeRoot.value, flatItems[sel].nodeRef).value
    }

    constructor()
      ensures Valid()
      ensures treeRoot == None && flatItems == []
    {
      treeRoot := None;
      delimiter := ":";
      flatItems := [];
      keys := [];
      built := EmptyRoot();
    }

    /** Build the tree of `newKeys` with the detected delimiter and show its
        rows: one collapsed row per first segment. */
    method UpdateItems(newKeys: seq<string>)
      modifies this
      ensures Valid()
      ensures keys == newKeys && delimiter == DetectDelimiter(newKeys)
      ensures treeRoot == Some(InsertAll(newKeys, delimiter))
      ensures flatItems == TopRows(treeRoot.value)
    {
      var root, d := BuildTree(newKeys, None);
      var items := FlattenTree(root);
      treeRoot, delimiter, flatItems, keys, built := Some(root), d, items, newKeys, root;
      FreshConsistent(treeRoot, delimiter, flatItems, keys, built);
    }

    /** The key of the selected row: one of the shown keys, which splits
        into the row's path. */
    method GetSelectedKey(sel: int) returns (r: Option<string>)
      requires Valid()
      ensures r == if 0 <= sel < |flatItems| then SelectedNode(sel).fullKey else None
      ensures r.Some? ==>
        0 <= sel < |flatItems| && r.value in keys && Split(r.value, delimiter) == flatItems[sel].nodeRef
    {
      r := None;
      if 0 <= sel < |flatItems| {
        var item := flatItems[sel];
        assert item in flatItems;
        RowIsBuiltNode(treeRoot.value, built, delimiter, keys, item);
        r := item.fullKey;
        if r.Some? {
          InsertAllBuilt(keys, delimiter);
          WellFormedKeyAt(built, delimiter, [], keys, item.nodeRef);
          assert [] + item.nodeRef == item.nodeRef;
        }
      }
    }

    /** The selected row is a folder exactly when its node has children. */
    method IsSelectedItemFolder(sel: int) returns (r: bool)
      requires Valid()
      ensures r <==> 0 <= sel < |flatItems| && IsParent(SelectedNode(sel))
    {
      r := false;
      if 0 <= sel < |flatItems| {
        var item := flatItems[sel];
        assert item in flatItems;
        RowIsBuiltNode(treeRoot.value, built, delimiter, keys, item);
        r := item.isParent;
      }
    }

    /** The number of keys below the selected folder: every shown key whose
        segments start with the folder's, at least one; 0 for a leaf row or
        no selection. */
    method GetSelectedFolderKeyCount(sel: int) returns (count: nat)
      requires Valid()
      ensures 0 <= sel < |flatItems| && flatItems[sel].isParent ==>
        count == |KeysWithPrefix(keys, delimiter, flatItems[sel].nodeRef)| && count >= 1
      ensures !(0 <= sel < |flatItems| && flatItems[sel].isParent) ==> count == 0
    {
      count := 0;
      if 0 <= sel < |flatItems| {
        var item := flatItems[sel];
        if item.isParent {
          assert item in flatItems;
          var root := treeRoot.value;
          RowIsBuiltNode(root, built, delimiter, keys, item);
          count := |KeysUnder(NodeAt(root, item.nodeRef).value)|;
          KeysUnderSameShape(NodeAt(root, item.nodeRef).value, NodeAt(built, item.nodeRef).value);
          InsertAllBuilt(keys, delimiter);
          FolderKeyCount(built, delimiter, keys, item.nodeRef);
          WellFormedNodeAt(built, delimiter, [], keys, item.nodeRef);
          assert [] + item.nodeRef == item.nodeRef;
          NonRootHasKeys(NodeAt(built, item.nodeRef).value, delimiter, item.nodeRef, keys);
        }
      }
    }

    /** getSelectedFolderPath as the source has it: the row has no path of
        its own, so every selection, a folder row included, yields none. */
    method GetSelectedFolderPathAsWritten(sel: int) returns (r: Option<string>)
      requires Valid()
      ensures r.None?
    {
      r := None;
      if 0 <= sel < |flatItems| {
        var item := flatItems[sel];
        if item.isParent {
          r := None;
        }
      }
    }

    /** The path of the selected folder: its segments joined by the
        delimiter. The keys below the folder are exactly the keys equal to
        the path or starting with the path and the delimiter. */
    method GetSelectedFolderPath(sel: int) returns (r: Option<string>)
      requires Valid()
      ensures r.Some? <==> 0 <= sel < |flatItems| && flatItems[sel].isParent
      ensures r.Some? ==>
        && 0 <= sel < |flatItems|
        && r.value == Join(flatItems[sel].nodeRef, delimiter)
        && forall k :: k in KeysUnder(SelectedNode(sel)) <==>
             k in keys && (k == r.value || StartsWith(k, r.value + delimiter))
    {
      r := None;
      if 0 <= sel < |flatItems| {
        var item := flatItems[sel];
        if item.isParent {
          assert item in flatItems;
          var root := treeRoot.value;
          RowIsBuiltNode(root, built, delimiter, keys, item);
          r := Some(Join(item.nodeRef, delimiter));
          DetectedIsOneChar(keys);
          KeysUnderSameShape(NodeAt(root, item.nodeRef).value, NodeAt(built, item.nodeRef).value);
          InsertAllBuilt(keys, delimiter);
          forall k ensures k in KeysUnder(SelectedNode(sel)) <==>
            k in keys && (k == r.value || StartsWith(k, r.value + delimiter))
          {
            FolderPathSelectsKeys(built, delimiter, keys, item.nodeRef, k);
          }
        }
      }
    }

    /** The delimiter of the shown tree, ':' before the first update. */
    method GetDelimiter() returns (r: string)
      requires Valid()
      ensures treeRoot.None? ==> r == ":"
      ensures treeRoot.Some? ==> r == DetectDelimiter(keys)
      ensures r in Candidates
    {
      if treeRoot.Some? {
        r := delimiter;
      } else {
        r := ":";
      }
    }

    /** Toggle the selected folder and show the rows of the toggled tree; a
        leaf row or no selection changes nothing. */
    method ToggleCurrentNode(sel: int)
      requires Valid()
      modifies this
      ensures Valid()
      ensures keys == old(keys) && built == old(built) && delimiter == old(delimiter)
      ensures old(0 <= sel < |flatItems| && flatItems[sel].isParent) ==>
        && old(treeRoot).Some? && treeRoot.Some?
        && treeRoot.value == ToggleAt(old(treeRoot).value, old(flatItems[sel].nodeRef))
        && flatItems == Rows(treeRoot.value, [])
        && NodeAt(treeRoot.value, old(flatItems[sel].nodeRef)).Some?
        && NodeAt(treeRoot.value, old(flatItems[sel].nodeRef)).value.isExpanded == !old(flatItems[sel].isExpanded)
        && sel < |flatItems| && flatItems[..sel] == old(flatItems[..sel])
        && flatItems[sel].nodeRef == old(flatItems[sel].nodeRef)
      ensures !old(0 <= sel < |flatItems| && flatItems[sel].isParent) ==>
        treeRoot == old(treeRoot) && flatItems == old(flatItems)
    {
      if 0 <= sel < |flatItems| {
        var item := flatItems[sel];
        if item.isParent {
          match treeRoot
          case Some(root) =>
            var toggled := ToggleAt(root, item.nodeRef);
            var items := FlattenTree(toggled);
            ghost var before := flatItems;
            treeRoot, flatItems := Some(toggled), items;
            ToggleConsistent(root, delimiter, before, keys, built, sel, treeRoot, flatItems);
          case None =>
        }
      }
    }

    /** The right-arrow key: open the selected folder if it is closed. */
    method ExpandCurrentNode(sel: int)
      requires Valid()
      modifies this
      ensures Valid()
      ensures keys == old(keys) && built == old(built) && delimiter == old(delimiter)
      ensures old(0 <= sel < |flatItems| && flatItems[sel].isParent) ==>
        && treeRoot.Some? && NodeAt(treeRoot.value, old(flatItems[sel].nodeRef)).Some?
        && NodeAt(treeRoot.value, old(flatItems[sel].nodeRef)).value.isExpanded
      ensures old(0 <= sel < |flatItems| && flatItems[sel].isParent && !flatItems[sel].isExpanded) ==>
        && old(treeRoot).Some? && treeRoot.Some?
        && treeRoot.value == ToggleAt(old(treeRoot).value, old(flatItems[sel].nodeRef))
        && flatItems == Rows(treeRoot.value, [])
        && sel < |flatItems| && flatItems[..sel] == old(flatItems[..sel])
        && flatItems[sel].nodeRef == old(flatItems[sel].nodeRef)
      ensures old(0 <= sel < |flatItems| && flatItems[sel].isParent && flatItems[sel].isExpanded) ==>
        treeRoot == old(treeRoot) && flatItems == old(flatItems)
      ensures !old(0 <= sel < |flatItems| && flatItems[sel].isParent) ==>
        treeRoot == old(treeRoot) && flatItems == old(flatItems)
    {
      if 0 <= sel < |flatItems| {
        var item := flatItems[sel];
        assert item in flatItems;
        if treeRoot.Some? {
          RowIsBuiltNode(treeRoot.value, built, delimiter, keys, item);
        }
        if item.isParent && !item.isExpanded {
          ToggleCurrentNode(sel);
        }
      }
    }

    /** The left-arrow key: close the selected folder if it is open. */
    method CollapseCurrentNode(sel: int)
      requires Valid()
      modifies this
      ensures Valid()
      ensures keys == old(keys) && built == old(built) && delimiter == old(delimiter)
      ensures old(0 <= sel < |flatItems| && flatItems[sel].isParent) ==>
        && treeRoot.Some? && NodeAt(treeRoot.value, old(flatItems[sel].nodeRef)).Some?
        && !NodeAt(treeRoot.value, old(flatItems[sel].nodeRef)).value.isExpanded
      ensures old(0 <= sel < |flatItems| && flatItems[sel].isParent && flatItems[sel].isExpanded) ==>
        && old(treeRoot).Some? && treeRoot.Some?
        && treeRoot.value == ToggleAt(old(treeRoot).value, old(flatItems[sel].nodeRef))
        && flatItems == Rows(treeRoot.value, [])
        && sel < |flatItems| && flatItems[..sel] == old(flatItems[..sel])
        && flatItems[sel].nodeRef == old(flatItems[sel].nodeRef)
      ensures old(0 <= sel < |flatItems| && flatItems[sel].isParent && !flatItems[sel].isExpanded) ==>
        treeRoot == old(treeRoot) && flatItems == old(flatItems)
      ensures !old(0 <= sel < |flatItems| && flatItems[sel].isParent) ==>
        treeRoot == old(treeRoot) && flatItems == old(flatItems)
    {
      if 0 <= sel < |flatItems| {
        var item := flatItems[sel];
        assert item in flatItems;
        if treeRoot.Some? {
          RowIsBuiltNode(treeRoot.value, built, delimiter, keys, item);
        }
        if item.isParent && item.isExpanded {
          ToggleCurrentNode(sel);
        }
      }
    }
  }
}
