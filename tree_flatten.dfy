/** flattenTree of src/utils/tree-builder.ts: the indented display rows of
    the nodes whose ancestors are all expanded, in pre-order. */
module TreeFlattener {
  import opened Wrappers
  import opened Strings
  import opened TreeNodes
  import opened TreeBuilder

  /** One display row. `nodeRef` is the path of the row's node. */
  datatype FlatItem = FlatItem(
    display: string,
    fullKey: Option<string>,
    isParent: bool,
    isExpanded: bool,
    level: int,
    nodeRef: seq<string>)

  /** `'  '.repeat(level)`. */
  function Indent(level: nat): (r: string)
    ensures |r| == 2 * level
    ensures forall i :: 0 <= i < |r| ==> r[i] == ' '
  {
    if level == 0 then "" else "  " + Indent(level - 1)
  }

  /** '▼ ' for an expanded folder, '▶ ' for a collapsed one, two spaces for a leaf. */
  function ExpandIcon(n: Node): (icon: string)
    ensures |icon| == 2 && icon[1] == ' '
    ensures icon[0] != ' ' <==> IsParent(n)
  {
    if IsParent(n) then (if n.isExpanded then "▼ " else "▶ ") else "  "
  }

  /** The row of node `n` found at path `path`. */
  function RowOf(n: Node, path: seq<string>): (r: FlatItem)
    requires n.level >= 0
    ensures r.fullKey == n.fullKey && r.isExpanded == n.isExpanded && r.level == n.level && r.nodeRef == path
    ensures r.isParent <==> |n.children| > 0
    ensures |r.display| == 2 * n.level + 2 + |n.name|
    ensures r.display[2 * n.level + 2..] == n.name
  {
    FlatItem(Indent(n.level) + ExpandIcon(n) + n.name, n.fullKey, IsParent(n), n.isExpanded, n.level, path)
  }

  /** The node's own row, unless it is the root (level below 0). */
  function OwnRow(n: Node, path: seq<string>): seq<FlatItem>
  {
    if n.level >= 0 then [RowOf(n, path)] else []
  }

  /** What traverse pushes for node `n` at `path`: its own row, then, when
      it is expanded or the root, the rows of its children in sibling order. */
  function Rows(n: Node, path: seq<string>): seq<FlatItem>
    decreases n, 1, 0
  {
    OwnRow(n, path) + (if n.isExpanded || n.level < 0 then ChildRows(n, ChildOrder(n), path) else [])
  }

  /** The rows of the children `names` of `n`, one child after the other. */
  function ChildRows(n: Node, names: seq<string>, path: seq<string>): seq<FlatItem>
    requires forall x :: x in names ==> x in n.children
    decreases n, 0, |names|
  {
    if names == [] then []
    else
      var last := names[|names| - 1];
      ChildRows(n, names[..|names| - 1], path) + Rows(n.children[last], path + [last])
  }

  /** traverse: appends the rows of `node` to the rows pushed so far. */
  method Traverse(node: Node, path: seq<string>, result: seq<FlatItem>) returns (out: seq<FlatItem>)
    ensures out == result + Rows(node, path)
    decreases node, 1
  {
    out := result;
    if node.level >= 0 {
      out := out + [RowOf(node, path)];
    }
    assert out == result + OwnRow(node, path);
    if node.isExpanded || node.level < 0 {
      var names := ChildOrder(node);
      out := TraverseChildren(node, names, path, out);
      AppendAssoc(result, OwnRow(node, path), ChildRows(node, names, path));
      RowsOfOpen(node, path);
    } else {
      RowsOfClosed(node, path);
    }
  }

  lemma AppendAssoc<T>(a: seq<T>, b: seq<T>, c: seq<T>)
    ensures (a + b) + c == a + (b + c)
  {
  }

  /** The loop of traverse over the children `names` of `node`. */
  method TraverseChildren(node: Node, names: seq<string>, path: seq<string>, result: seq<FlatItem>) returns (out: seq<FlatItem>)
    requires forall x :: x in names ==> x in node.children
    ensures out == result + ChildRows(node, names, path)
    decreases node, 0
  {
    out := result;
    for i := 0 to |names|
      invariant out == result + ChildRows(node, names[..i], path)
    {
      var name := names[i];
      ChildRowsStep(node, names, i, path);
      AppendAssoc(result, ChildRows(node, names[..i], path), Rows(node.children[name], path + [name]));
      out := Traverse(node.children[name], path + [name], out);
    }
    assert names[..|names|] == names;
  }

  lemma ChildRowsStep(n: Node, names: seq<string>, i: nat, path: seq<string>)
    requires i < |names| && forall x :: x in names ==> x in n.children
    ensures ChildRows(n, names[..i + 1], path)
      == ChildRows(n, names[..i], path) + Rows(n.children[names[i]], path + [names[i]])
  {
    assert names[..i + 1][..i] == names[..i];
  }

  /** flattenTree. */
  method FlattenTree(root: Node) returns (result: seq<FlatItem>)
    ensures result == Rows(root, [])
  {
    result := Traverse(root, [], []);
  }

  /** Row `r` is the formatted row of the node that its `nodeRef` reaches
      from `n`, which sits at `path`. */
  ghost predicate RowOfNodeAt(n: Node, path: seq<string>, r: FlatItem)
  {
    && |path| <= |r.nodeRef| && r.nodeRef[..|path|] == path
    && var m := NodeAt(n, r.nodeRef[|path|..]);
       m.Some? && m.value.level >= 0 && r == RowOf(m.value, r.nodeRef)
  }

  lemma {:induction false} ChildRowsMembers(n: Node, names: seq<string>, path: seq<string>, r: FlatItem)
    requires forall x :: x in names ==> x in n.children
    ensures r in ChildRows(n, names, path) <==>
      exists j :: 0 <= j < |names| && r in Rows(n.children[names[j]], path + [names[j]])
    decreases |names|
  {
    if names != [] {
      var init := names[..|names| - 1];
      ChildRowsMembers(n, init, path, r);
      if r in ChildRows(n, init, path) {
        var j :| 0 <= j < |init| && r in Rows(n.children[init[j]], path + [init[j]]);
        assert names[j] == init[j];
      }
      forall j | 0 <= j < |names| && r in Rows(n.children[names[j]], path + [names[j]])
        ensures r in ChildRows(n, names, path)
      {
        if j < |names| - 1 {
          assert names[j] == init[j];
        }
      }
    }
  }

  /** A row of a child's block, seen from the parent. */
  lemma RowOfChild(n: Node, c: string, path: seq<string>, r: FlatItem)
    requires c in n.children && RowOfNodeAt(n.children[c], path + [c], r)
    ensures RowOfNodeAt(n, path, r)
    ensures |path| < |r.nodeRef| && r.nodeRef[|path|] == c
  {
    var p := path + [c];
    assert r.nodeRef[..|path|] == r.nodeRef[..|p|][..|path|];
    assert r.nodeRef[|path|] == r.nodeRef[..|p|][|path|];
    assert r.nodeRef[|path|..] == [c] + r.nodeRef[|p|..];
  }

  /** Every row is the row of the node its nodeRef leads to: its display is
      the indent, the icon and the name of that node, and its key, folder
      flag, expand flag and level are that node's. */
  lemma {:induction false} RowsAreNodes(n: Node, path: seq<string>)
    ensures forall r :: r in Rows(n, path) ==> RowOfNodeAt(n, path, r)
    decreases n, 1, 0
  {
    var own := if n.level >= 0 then [RowOf(n, path)] else [];
    var rest := if n.isExpanded || n.level < 0 then ChildRows(n, ChildOrder(n), path) else [];
    assert Rows(n, path) == own + rest;
    if n.level >= 0 {
      assert path[|path|..] == [] && path[..|path|] == path;
      assert RowOfNodeAt(n, path, RowOf(n, path));
    }
    if n.isExpanded || n.level < 0 {
      ChildRowsAreNodes(n, ChildOrder(n), path);
    }
  }

  lemma {:induction false} ChildRowsAreNodes(n: Node, names: seq<string>, path: seq<string>)
    requires forall x :: x in names ==> x in n.children
    ensures forall r :: r in ChildRows(n, names, path) ==>
      RowOfNodeAt(n, path, r) && |path| < |r.nodeRef| && r.nodeRef[|path|] in names
    decreases n, 0, |names|
  {
    if names != [] {
      var last := names[|names| - 1];
      ChildRowsAreNodes(n, names[..|names| - 1], path);
      RowsAreNodes(n.children[last], path + [last]);
      forall r | r in Rows(n.children[last], path + [last])
        ensures RowOfNodeAt(n, path, r) && |path| < |r.nodeRef| && r.nodeRef[|path|] in names
      {
        RowOfChild(n, last, path, r);
      }
    }
  }

  /** The node at path `q` below `n` gets a row: it is not the root, and
      each node passed on the way down from `n` is expanded or is the root. */
  ghost predicate Shown(n: Node, q: seq<string>)
    decreases |q|
  {
    if q == [] then n.level >= 0
    else (n.isExpanded || n.level < 0) && q[0] in n.children && Shown(n.children[q[0]], q[1..])
  }

  /** Every shown node has its row among the rows of `n`. */
  lemma {:induction false} ShownHasRow(n: Node, path: seq<string>, q: seq<string>)
    requires Shown(n, q)
    ensures NodeAt(n, q).Some? && NodeAt(n, q).value.level >= 0
    ensures RowOf(NodeAt(n, q).value, path + q) in Rows(n, path)
    decreases |q|
  {
    if q == [] {
      assert path + q == path;
      assert Rows(n, path)[0] == RowOf(n, path);
    } else {
      var c := q[0];
      ShownHasRow(n.children[c], path + [c], q[1..]);
      PathStep(path, q);
      ChildRowInRows(n, path, c, RowOf(NodeAt(n, q).value, path + q));
    }
  }

  /** A row of an open node's child is a row of the node. */
  lemma ChildRowInRows(n: Node, path: seq<string>, c: string, r: FlatItem)
    requires n.isExpanded || n.level < 0
    requires c in n.children && r in Rows(n.children[c], path + [c])
    ensures r in Rows(n, path)
  {
    var names := ChildOrder(n);
    assert c in names;
    var j :| 0 <= j < |names| && names[j] == c;
    ChildRowsMembers(n, names, path, r);
    RowsOfOpen(n, path);
  }

  /** Every row belongs to a shown node. */
  lemma {:induction false} RowIsShown(n: Node, path: seq<string>, r: FlatItem)
    requires r in Rows(n, path)
    ensures |path| <= |r.nodeRef| && r.nodeRef[..|path|] == path
    ensures Shown(n, r.nodeRef[|path|..])
    decreases n
  {
    if r in OwnRow(n, path) {
      assert r.nodeRef[|path|..] == [] && r.nodeRef[..|path|] == path;
    } else {
      var c := RowFromChild(n, path, r);
      RowIsShown(n.children[c], path + [c], r);
      ShownStep(n, c, path, r.nodeRef);
    }
  }

  /** A row of `n` that is not its own row is a row of one of its
      children, and then `n` is open. */
  lemma RowFromChild(n: Node, path: seq<string>, r: FlatItem) returns (c: string)
    requires r in Rows(n, path) && r !in OwnRow(n, path)
    ensures n.isExpanded || n.level < 0
    ensures c in n.children && r in Rows(n.children[c], path + [c])
  {
    if !(n.isExpanded || n.level < 0) {
      RowsOfClosed(n, path);
      assert false;
    }
    var names := ChildOrder(n);
    RowsOfOpen(n, path);
    ChildRowsMembers(n, names, path, r);
    var j :| 0 <= j < |names| && r in Rows(n.children[names[j]], path + [names[j]]);
    c := names[j];
  }

  lemma ShownStep(n: Node, c: string, path: seq<string>, ref: seq<string>)
    requires n.isExpanded || n.level < 0
    requires c in n.children
    requires |path + [c]| <= |ref| && ref[..|path + [c]|] == path + [c]
    requires Shown(n.children[c], ref[|path + [c]|..])
    ensures |path| <= |ref| && ref[..|path|] == path
    ensures Shown(n, ref[|path|..])
  {
    var p := path + [c];
    assert ref[..|path|] == ref[..|p|][..|path|];
    assert ref[|path|] == ref[..|p|][|path|];
    var q := ref[|path|..];
    assert q[0] == c && q[1..] == ref[|p|..];
  }

  /** The node at path `p` exists and is expanded. */
  ghost predicate ExpandedAt(n: Node, p: seq<string>)
  {
    NodeAt(n, p).Some? && NodeAt(n, p).value.isExpanded
  }

  lemma ExpandedAtChild(n: Node, q: seq<string>, k: nat)
    requires q != [] && q[0] in n.children && 1 <= k <= |q|
    ensures ExpandedAt(n, q[..k]) == ExpandedAt(n.children[q[0]], q[1..][..k - 1])
  {
    assert q[..k][0] == q[0] && q[..k][1..] == q[1..][..k - 1];
  }

  /** Below a node that is not the root, in a tree whose levels count the
      depth, a node has a row exactly when it exists and every node on the
      way to it, from `n` on, is expanded. */
  lemma {:induction false} ShownWhenAncestorsExpanded(n: Node, depth: nat, q: seq<string>)
    requires Levelled(n, depth) && depth >= 1
    ensures Shown(n, q) <==> NodeAt(n, q).Some? && forall k :: 0 <= k < |q| ==> ExpandedAt(n, q[..k])
    decreases |q|
  {
    if q != [] {
      var c := q[0];
      assert q[..0] == [];
      if c in n.children {
        var child := n.children[c];
        ShownWhenAncestorsExpanded(child, depth + 1, q[1..]);
        forall k | 1 <= k <= |q| {
          ExpandedAtChild(n, q, k);
        }
        if NodeAt(n, q).Some? && forall k :: 0 <= k < |q| ==> ExpandedAt(n, q[..k]) {
          forall k | 0 <= k < |q[1..]|
            ensures ExpandedAt(child, q[1..][..k])
          {
            assert ExpandedAt(n, q[..k + 1]);
          }
        }
      }
    }
  }

  /** flattenTree on the root of a tree whose levels count the depth: the
      node at path `q` has a row exactly when it is not the root, it exists,
      and every node strictly between the root and it is expanded; that row
      is the node's formatted row. */
  lemma RootShownWhenAncestorsExpanded(root: Node, q: seq<string>)
    requires Levelled(root, 0)
    ensures Shown(root, q) <==>
      q != [] && NodeAt(root, q).Some? && forall k :: 1 <= k < |q| ==> ExpandedAt(root, q[..k])
    ensures Shown(root, q) ==>
      NodeAt(root, q).Some? && NodeAt(root, q).value.level >= 0 &&
      RowOf(NodeAt(root, q).value, q) in Rows(root, [])
  {
    if q != [] && q[0] in root.children {
      var child := root.children[q[0]];
      ShownWhenAncestorsExpanded(child, 1, q[1..]);
      forall k | 1 <= k <= |q| {
        ExpandedAtChild(root, q, k);
      }
      if NodeAt(root, q).Some? && forall k :: 1 <= k < |q| ==> ExpandedAt(root, q[..k]) {
        forall k | 0 <= k < |q[1..]|
          ensures ExpandedAt(child, q[1..][..k])
        {
          assert ExpandedAt(root, q[..k + 1]);
        }
      }
    }
    if Shown(root, q) {
      ShownHasRow(root, [], q);
      assert [] + q == q;
    }
  }

  /** Pre-order on paths below `n`: a node comes before its descendants,
      and below the first segment where two paths part, the sibling that
      comes first in sibling order comes first. */
  ghost predicate PreOrder(n: Node, q1: seq<string>, q2: seq<string>)
    decreases |q1|
  {
    if q1 == [] then q2 != []
    else
      && q2 != [] && q1[0] in n.children && q2[0] in n.children
      && if q1[0] == q2[0] then PreOrder(n.children[q1[0]], q1[1..], q2[1..])
         else Before(n.children, q1[0], q2[0])
  }

  lemma {:induction false} PreOrderIrreflexive(n: Node, q: seq<string>)
    ensures !PreOrder(n, q, q)
    decreases |q|
  {
    if q != [] && q[0] in n.children {
      PreOrderIrreflexive(n.children[q[0]], q[1..]);
    }
  }

  /** The part of a row's path below `path`. */
  ghost function Below(path: seq<string>, r: FlatItem): seq<string>
  {
    if |path| <= |r.nodeRef| then r.nodeRef[|path|..] else r.nodeRef
  }

  /** Names in sibling order. */
  ghost predicate InSiblingOrder(n: Node, names: seq<string>)
  {
    && (forall x :: x in names ==> x in n.children)
    && forall i, j :: 0 <= i < j < |names| ==> Before(n.children, names[i], names[j])
  }

  /** Every earlier row's node comes before every later row's node. */
  ghost predicate PreOrdered(n: Node, path: seq<string>, rows: seq<FlatItem>)
  {
    forall i, k :: 0 <= i < k < |rows| ==> PreOrder(n, Below(path, rows[i]), Below(path, rows[k]))
  }

  /** Rows pushed by traverse follow pre-order: an earlier row's node comes
      before a later row's node. */
  lemma {:induction false} RowsInPreOrder(n: Node, path: seq<string>)
    ensures PreOrdered(n, path, Rows(n, path))
    decreases n, 1, 0
  {
    if n.isExpanded || n.level < 0 {
      ChildRowsInPreOrder(n, ChildOrder(n), path);
      ChildRowsAreNodes(n, ChildOrder(n), path);
      OwnRowFirst(n, path, ChildRows(n, ChildOrder(n), path));
      PreOrderedConcat(n, path, OwnRow(n, path), ChildRows(n, ChildOrder(n), path));
    } else {
      assert |Rows(n, path)| <= 1;
    }
  }

  lemma {:induction false} ChildRowsInPreOrder(n: Node, names: seq<string>, path: seq<string>)
    requires InSiblingOrder(n, names)
    ensures PreOrdered(n, path, ChildRows(n, names, path))
    decreases n, 0, |names|
  {
    if names != [] {
      var init := names[..|names| - 1];
      var last := names[|names| - 1];
      ChildRowsInPreOrder(n, init, path);
      RowsInPreOrder(n.children[last], path + [last]);
      LiftPreOrdered(n, last, path);
      EarlierBlocksFirst(n, names, path);
      PreOrderedConcat(n, path, ChildRows(n, init, path), Rows(n.children[last], path + [last]));
    }
  }

  /** Two pre-ordered runs of rows, all of the first before all of the
      second, make one pre-ordered run. */
  lemma PreOrderedConcat(n: Node, path: seq<string>, a: seq<FlatItem>, b: seq<FlatItem>)
    requires PreOrdered(n, path, a) && PreOrdered(n, path, b)
    requires forall x, y :: x in a && y in b ==> PreOrder(n, Below(path, x), Below(path, y))
    ensures PreOrdered(n, path, a + b)
  {
    var rows := a + b;
    forall i, k | 0 <= i < k < |rows|
      ensures PreOrder(n, Below(path, rows[i]), Below(path, rows[k]))
    {
      if k < |a| {
        assert rows[i] == a[i] && rows[k] == a[k];
      } else if i < |a| {
        assert rows[i] == a[i] && rows[k] == b[k - |a|];
        assert rows[i] in a && rows[k] in b;
      } else {
        assert rows[i] == b[i - |a|] && rows[k] == b[k - |a|];
      }
    }
  }

  /** A node's own row comes before every row below it. */
  lemma OwnRowFirst(n: Node, path: seq<string>, rest: seq<FlatItem>)
    requires forall r :: r in rest ==> |path| < |r.nodeRef|
    ensures forall x, y :: x in OwnRow(n, path) && y in rest ==> PreOrder(n, Below(path, x), Below(path, y))
  {
    if n.level >= 0 {
      assert Below(path, RowOf(n, path)) == [];
    }
  }

  /** The order of one child's rows, seen from the parent. */
  lemma LiftPreOrdered(n: Node, c: string, path: seq<string>)
    requires c in n.children
    requires PreOrdered(n.children[c], path + [c], Rows(n.children[c], path + [c]))
    ensures PreOrdered(n, path, Rows(n.children[c], path + [c]))
  {
    var rows := Rows(n.children[c], path + [c]);
    RowsAreNodes(n.children[c], path + [c]);
    forall i, k | 0 <= i < k < |rows|
      ensures PreOrder(n, Below(path, rows[i]), Below(path, rows[k]))
    {
      assert rows[i] in rows && rows[k] in rows;
      BelowChild(n, c, path, rows[i]);
      BelowChild(n, c, path, rows[k]);
    }
  }

  /** The rows of earlier siblings come before the rows of the last one. */
  lemma EarlierBlocksFirst(n: Node, names: seq<string>, path: seq<string>)
    requires InSiblingOrder(n, names) && names != []
    ensures var last := names[|names| - 1];
      forall x, y :: x in ChildRows(n, names[..|names| - 1], path) && y in Rows(n.children[last], path + [last]) ==>
        PreOrder(n, Below(path, x), Below(path, y))
  {
    var init := names[..|names| - 1];
    var last := names[|names| - 1];
    ChildRowsAreNodes(n, init, path);
    RowsAreNodes(n.children[last], path + [last]);
    forall x, y | x in ChildRows(n, init, path) && y in Rows(n.children[last], path + [last])
      ensures PreOrder(n, Below(path, x), Below(path, y))
    {
      CrossBlocks(n, names, path, x, y);
    }
  }

  /** Seen from the parent, a row of child `c`'s block lies below `c`. */
  lemma BelowChild(n: Node, c: string, path: seq<string>, r: FlatItem)
    requires c in n.children && RowOfNodeAt(n.children[c], path + [c], r)
    ensures Below(path, r) == [c] + Below(path + [c], r)
  {
    RowOfChild(n, c, path, r);
    assert r.nodeRef[|path|..] == [c] + r.nodeRef[|path| + 1..];
  }

  /** A row of an earlier sibling's block comes before a row of the last
      sibling's block. */
  lemma CrossBlocks(n: Node, names: seq<string>, path: seq<string>, r1: FlatItem, r2: FlatItem)
    requires InSiblingOrder(n, names) && names != []
    requires RowOfNodeAt(n, path, r1) && |path| < |r1.nodeRef|
    requires r1.nodeRef[|path|] in names[..|names| - 1]
    requires names[|names| - 1] in n.children
    requires RowOfNodeAt(n.children[names[|names| - 1]], path + [names[|names| - 1]], r2)
    ensures PreOrder(n, Below(path, r1), Below(path, r2))
  {
    var last := names[|names| - 1];
    BelowChild(n, last, path, r2);
    var j :| 0 <= j < |names| - 1 && names[j] == r1.nodeRef[|path|];
    assert Before(n.children, names[j], last);
    BeforeIsStrictOrder(n.children);
    assert names[j] != last;
    var q1 := Below(path, r1);
    var q2 := Below(path, r2);
    assert q1 == r1.nodeRef[|path|..];
    assert q1 != [] && q1[0] == names[j];
    assert q2 != [] && q2[0] == last;
  }

  /** No node gets two rows. */
  lemma RowsDistinct(n: Node, path: seq<string>)
    ensures forall i, k :: 0 <= i < k < |Rows(n, path)| ==> Rows(n, path)[i].nodeRef != Rows(n, path)[k].nodeRef
  {
    var rows := Rows(n, path);
    RowsInPreOrder(n, path);
    RowsAreNodes(n, path);
    forall i, k | 0 <= i < k < |rows|
      ensures rows[i].nodeRef != rows[k].nodeRef
    {
      assert rows[i] in rows && rows[k] in rows;
      PreOrderIrreflexive(n, Below(path, rows[i]));
    }
  }

  /** The rows of children that are collapsed and not the root: one row each. */
  lemma {:induction false} CollapsedChildRows(n: Node, names: seq<string>, path: seq<string>)
    requires forall x :: x in names ==> x in n.children && !n.children[x].isExpanded && n.children[x].level >= 0
    ensures |ChildRows(n, names, path)| == |names|
    ensures forall i :: 0 <= i < |names| ==>
      ChildRows(n, names, path)[i] == RowOf(n.children[names[i]], path + [names[i]])
    decreases |names|
  {
    if names != [] {
      var init := names[..|names| - 1];
      var last := names[|names| - 1];
      CollapsedChildRows(n, init, path);
      var child := n.children[last];
      assert Rows(child, path + [last]) == [RowOf(child, path + [last])];
      forall i | 0 <= i < |names| - 1
        ensures names[i] == init[i]
      {
      }
    }
  }

  /** The row of first-level node `c` while it is collapsed: no indent, its
      icon and its name, level 0, and the path [c]. */
  function TopRow(root: Node, c: string): (r: FlatItem)
    requires c in root.children
  {
    FlatItem(ExpandIcon(root.children[c]) + c, root.children[c].fullKey,
             IsParent(root.children[c]), false, 0, [c])
  }

  /** One collapsed first-level row per child of the root, in sibling order. */
  function TopRows(root: Node): (rows: seq<FlatItem>)
  {
    var names := ChildOrder(root);
    seq(|names|, i requires 0 <= i < |names| => TopRow(root, names[i]))
  }

  /** flattenTree right after buildTree: one row per first segment, in
      sibling order, each collapsed at level 0 and showing its own name. */
  lemma FreshTreeRows(root: Node, d: string, keys: seq<string>)
    requires |d| > 0 && BuiltFrom(root, d, keys)
    ensures Rows(root, []) == TopRows(root)
  {
    TopLevelCollapsed(root, d, keys);
    CollapsedTopRows(root);
    RootRows(root);
  }

  /** The first-level nodes of a built tree are collapsed, at level 0, and
      named by their segment. */
  lemma TopLevelCollapsed(root: Node, d: string, keys: seq<string>)
    requires |d| > 0 && BuiltFrom(root, d, keys)
    ensures root.level < 0
    ensures forall x :: x in root.children ==>
      !root.children[x].isExpanded && root.children[x].level == 0 && root.children[x].name == x
  {
    forall x | x in root.children
      ensures !root.children[x].isExpanded && root.children[x].level == 0 && root.children[x].name == x
    {
      assert WellFormed(root.children[x], d, [] + [x], keys);
    }
  }

  lemma CollapsedTopRows(root: Node)
    requires forall x :: x in root.children ==>
      !root.children[x].isExpanded && root.children[x].level == 0 && root.children[x].name == x
    ensures ChildRows(root, ChildOrder(root), []) == TopRows(root)
  {
    var names := ChildOrder(root);
    var rows := ChildRows(root, names, []);
    var top := TopRows(root);
    CollapsedChildRows(root, names, []);
    assert |rows| == |top|;
    forall i | 0 <= i < |names|
      ensures rows[i] == top[i]
    {
      TopRowIsRowOf(root, names[i]);
      TopRowsAt(root, i);
    }
  }

  lemma TopRowsAt(root: Node, i: nat)
    requires i < |ChildOrder(root)|
    ensures |TopRows(root)| == |ChildOrder(root)|
    ensures TopRows(root)[i] == TopRow(root, ChildOrder(root)[i])
  {
  }

  lemma RootRows(root: Node)
    requires root.level < 0
    ensures Rows(root, []) == ChildRows(root, ChildOrder(root), [])
  {
    assert Rows(root, []) == [] + ChildRows(root, ChildOrder(root), []);
  }

  lemma TopRowIsRowOf(root: Node, c: string)
    requires c in root.children && root.children[c].level == 0 && root.children[c].name == c
    requires !root.children[c].isExpanded
    ensures RowOf(root.children[c], [] + [c]) == TopRow(root, c)
  {
    assert [] + [c] == [c];
    assert Indent(0) == "";
  }

  /** The position of `x` in `s`: its first occurrence. */
  function IndexOf(s: seq<string>, x: string): (i: nat)
    requires x in s
    ensures i < |s| && s[i] == x && x !in s[..i]
  {
    if s[0] == x then 0
    else
      var i := IndexOf(s[1..], x) + 1;
      assert s[..i] == [s[0]] + s[1..][..i - 1];
      i
  }

  /** The rows that come before the row of the shown node at `q` below `n`:
      the rows of every node on the way down, and the blocks of the
      siblings that come before each step. */
  ghost function RowsBefore(n: Node, path: seq<string>, q: seq<string>): seq<FlatItem>
    requires Shown(n, q)
    decreases |q|
  {
    if q == [] then []
    else
      var c := q[0];
      var names := ChildOrder(n);
      var m := IndexOf(names, c);
      OwnRow(n, path) + ChildRows(n, names[..m], path) + RowsBefore(n.children[c], path + [c], q[1..])
  }

  /** The blocks of the first `k` children start the blocks of all of them. */
  lemma {:induction false} ChildRowsPrefix(n: Node, names: seq<string>, k: nat, path: seq<string>)
    requires k <= |names| && forall x :: x in names ==> x in n.children
    ensures |ChildRows(n, names[..k], path)| <= |ChildRows(n, names, path)|
    ensures ChildRows(n, names, path)[..|ChildRows(n, names[..k], path)|] == ChildRows(n, names[..k], path)
    decreases |names|
  {
    if k == |names| {
      assert names[..k] == names;
    } else {
      var init := names[..|names| - 1];
      assert names[..k] == init[..k];
      ChildRowsPrefix(n, init, k, path);
    }
  }

  /** The row of a shown node sits right after the rows before it. */
  lemma {:induction false} RowsSplitAt(n: Node, path: seq<string>, q: seq<string>)
    requires Shown(n, q)
    ensures NodeAt(n, q).Some? && NodeAt(n, q).value.level >= 0
    ensures |RowsBefore(n, path, q)| < |Rows(n, path)|
    ensures Rows(n, path)[..|RowsBefore(n, path, q)|] == RowsBefore(n, path, q)
    ensures Rows(n, path)[|RowsBefore(n, path, q)|] == RowOf(NodeAt(n, q).value, path + q)
    decreases |q|
  {
    if q == [] {
      assert path + q == path;
      assert Rows(n, path)[0] == RowOf(n, path);
    } else {
      RowsSplitAt(n.children[q[0]], path + [q[0]], q[1..]);
      RowsSplitStep(n, path, q);
    }
  }

  /** One step down of RowsSplitAt: from the child on the way to the parent. */
  lemma RowsSplitStep(n: Node, path: seq<string>, q: seq<string>)
    requires q != [] && Shown(n, q)
    requires var child := n.children[q[0]]; var p := path + [q[0]];
      && NodeAt(child, q[1..]).Some? && NodeAt(child, q[1..]).value.level >= 0
      && |RowsBefore(child, p, q[1..])| < |Rows(child, p)|
      && Rows(child, p)[..|RowsBefore(child, p, q[1..])|] == RowsBefore(child, p, q[1..])
      && Rows(child, p)[|RowsBefore(child, p, q[1..])|] == RowOf(NodeAt(child, q[1..]).value, p + q[1..])
    ensures NodeAt(n, q).Some? && NodeAt(n, q).value.level >= 0
    ensures |RowsBefore(n, path, q)| < |Rows(n, path)|
    ensures Rows(n, path)[..|RowsBefore(n, path, q)|] == RowsBefore(n, path, q)
    ensures Rows(n, path)[|RowsBefore(n, path, q)|] == RowOf(NodeAt(n, q).value, path + q)
  {
    var c := q[0];
    var names := ChildOrder(n);
    var m := IndexOf(names, c);
    var child := n.children[c];
    var front := ChildRows(n, names[..m], path);
    PathStep(path, q);
    ChildRowsStep(n, names, m, path);
    ChildRowsPrefix(n, names, m + 1, path);
    RowsOfOpen(n, path);
    SplitInBlock(Rows(n, path), OwnRow(n, path), ChildRows(n, names, path), front,
                 Rows(child, path + [c]), RowsBefore(child, path + [c], q[1..]));
  }

  lemma PathStep(path: seq<string>, q: seq<string>)
    requires q != []
    ensures path + [q[0]] + q[1..] == path + q
  {
  }

  /** The rows of an expanded node or of the root: its own, then its children's. */
  lemma RowsOfOpen(n: Node, path: seq<string>)
    requires n.isExpanded || n.level < 0
    ensures Rows(n, path) == OwnRow(n, path) + ChildRows(n, ChildOrder(n), path)
  {
  }

  /** Positions inside the block that follows `own` and `front`. */
  lemma RowsOfClosed(n: Node, path: seq<string>)
    requires !n.isExpanded && n.level >= 0
    ensures Rows(n, path) == OwnRow(n, path)
  {
  }

  lemma SplitInBlock(x: seq<FlatItem>, own: seq<FlatItem>, all: seq<FlatItem>, front: seq<FlatItem>,
                     block: seq<FlatItem>, inner: seq<FlatItem>)
    requires x == own + all && |front + block| <= |all| && all[..|front + block|] == front + block
    requires |inner| < |block| && block[..|inner|] == inner
    ensures |own + front + inner| < |x|
    ensures x[..|own + front + inner|] == own + front + inner
    ensures x[|own + front + inner|] == block[|inner|]
  {
    var k := |own| + |front| + |inner|;
    assert x[k] == all[|front| + |inner|] == (front + block)[|front| + |inner|];
    assert x[..k] == own + all[..|front| + |inner|];
    assert all[..|front| + |inner|] == (front + block)[..|front| + |inner|] == front + block[..|inner|];
  }
}
