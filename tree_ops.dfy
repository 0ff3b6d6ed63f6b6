/** toggleNode, expandAll, collapseAll, countNodes and countLeafNodes of
    src/utils/tree-builder.ts, and the collection of the keys stored below a
    node that the tree navigator counts. A node reached through a reference
    is the node at a path; changing it yields the updated tree. */
module TreeOps {
  import opened Wrappers
  import opened TreeNodes
  import opened Strings
  import opened TreeFlattener
  import opened TreeBuilder

  /** toggleNode on the node at path `p` below `n`. A path that leads
      nowhere changes nothing. */
  function ToggleAt(n: Node, p: seq<string>): (r: Node)
    ensures r.name == n.name && r.fullKey == n.fullKey && r.level == n.level
    ensures r.children.Keys == n.children.Keys
    ensures p == [] ==> r.isExpanded == !n.isExpanded
    ensures p != [] ==> r.isExpanded == n.isExpanded
    decreases |p|
  {
    if p == [] then n.(isExpanded := !n.isExpanded)
    else if p[0] in n.children then
      n.(children := n.children[p[0] := ToggleAt(n.children[p[0]], p[1..])])
    else n
  }

  /** Toggling twice restores the tree. */
  lemma {:induction false} ToggleAtTwice(n: Node, p: seq<string>)
    ensures ToggleAt(ToggleAt(n, p), p) == n
    decreases |p|
  {
    if p != [] && p[0] in n.children {
      var c := p[0];
      ToggleAtTwice(n.children[c], p[1..]);
      assert n.children[c := n.children[c]] == n.children;
    }
  }

  /** Toggling changes nothing but expand flags. */
  lemma {:induction false} ToggleAtSameShape(n: Node, p: seq<string>)
    ensures SameShape(ToggleAt(n, p), n)
    decreases |p|
  {
    SameShapeReflexive(n);
    if p != [] && p[0] in n.children {
      ToggleAtSameShape(n.children[p[0]], p[1..]);
    }
  }

  lemma {:induction false} SameShapeReflexive(n: Node)
    ensures SameShape(n, n)
    decreases n
  {
    forall c | c in n.children ensures SameShape(n.children[c], n.children[c]) {
      SameShapeReflexive(n.children[c]);
    }
  }

  /** Toggling flips the flag of the node at `p` and of no other node. */
  lemma {:induction false} ToggleAtFlipsOnlyTarget(n: Node, p: seq<string>, q: seq<string>)
    ensures NodeAt(ToggleAt(n, p), q).Some? <==> NodeAt(n, q).Some?
    ensures NodeAt(n, q).Some? ==>
      NodeAt(ToggleAt(n, p), q).value.isExpanded ==
        (if q == p then !NodeAt(n, q).value.isExpanded else NodeAt(n, q).value.isExpanded)
    decreases |q|
  {
    var t := ToggleAt(n, p);
    if q != [] && p != [] && q[0] == p[0] && p[0] in n.children {
      ToggleAtFlipsOnlyTarget(n.children[p[0]], p[1..], q[1..]);
      assert q == p <==> q[1..] == p[1..] by {
        if q[1..] == p[1..] {
          assert q == [q[0]] + q[1..] && p == [p[0]] + p[1..];
        }
      }
    } else if q != [] && q[0] in n.children {
      assert t.children[q[0]] == n.children[q[0]];
    }
  }
  /** Children blocks of children that two nodes share are the same. */
  lemma {:induction false} ChildRowsSameChildren(a: Node, b: Node, names: seq<string>, path: seq<string>)
    requires forall x :: x in names ==> x in a.children && x in b.children && a.children[x] == b.children[x]
    ensures ChildRows(a, names, path) == ChildRows(b, names, path)
    decreases |names|
  {
    if names != [] {
      ChildRowsSameChildren(a, b, names[..|names| - 1], path);
    }
  }

  /** Toggling a shown node keeps it shown and leaves every row before its
      row as it was. */
  lemma {:induction false} ToggleKeepsRowsBefore(n: Node, path: seq<string>, q: seq<string>)
    requires Shown(n, q)
    ensures Shown(ToggleAt(n, q), q)
    ensures RowsBefore(ToggleAt(n, q), path, q) == RowsBefore(n, path, q)
    decreases |q|
  {
    if q != [] {
      var c := q[0];
      ToggleKeepsRowsBefore(n.children[c], path + [c], q[1..]);
      ToggleStep(n, path, q);
    }
  }

  lemma ToggleStep(n: Node, path: seq<string>, q: seq<string>)
    requires q != [] && Shown(n, q)
    requires Shown(ToggleAt(n.children[q[0]], q[1..]), q[1..])
    requires RowsBefore(ToggleAt(n.children[q[0]], q[1..]), path + [q[0]], q[1..])
      == RowsBefore(n.children[q[0]], path + [q[0]], q[1..])
    ensures Shown(ToggleAt(n, q), q)
    ensures RowsBefore(ToggleAt(n, q), path, q) == RowsBefore(n, path, q)
  {
    var c := q[0];
    var t := ToggleAt(n, q);
    ToggleTop(n, path, q);
    var names := ChildOrder(n);
    var m := IndexOf(names, c);
    ChildRowsSameChildren(t, n, names[..m], path);
    RowsBeforeStep(t, path, q);
    RowsBeforeStep(n, path, q);
  }

  /** Toggling below a child changes only that child of the node. */
  lemma ToggleTop(n: Node, path: seq<string>, q: seq<string>)
    requires q != [] && q[0] in n.children
    ensures ToggleAt(n, q).children == n.children[q[0] := ToggleAt(n.children[q[0]], q[1..])]
    ensures ToggleAt(n, q).isExpanded == n.isExpanded && ToggleAt(n, q).level == n.level
    ensures OwnRow(ToggleAt(n, q), path) == OwnRow(n, path)
    ensures ChildOrder(ToggleAt(n, q)) == ChildOrder(n)
  {
    var t := ToggleAt(n, q);
    assert t == n.(children := n.children[q[0] := ToggleAt(n.children[q[0]], q[1..])]);
    ToggleAtSameShape(n, q);
    ChildOrderSameShape(t, n);
    OwnRowSameShape(t, n, path);
  }

  /** A node's own row depends on its shape and its flag only. */
  lemma OwnRowSameShape(a: Node, b: Node, path: seq<string>)
    requires SameShape(a, b) && a.isExpanded == b.isExpanded
    ensures OwnRow(a, path) == OwnRow(b, path)
  {
    assert |a.children| == |a.children.Keys| == |b.children.Keys| == |b.children|;
  }

  /** RowsBefore at a path that goes through a child. */
  lemma RowsBeforeStep(n: Node, path: seq<string>, q: seq<string>)
    requires q != [] && Shown(n, q)
    ensures RowsBefore(n, path, q)
      == OwnRow(n, path) + ChildRows(n, ChildOrder(n)[..IndexOf(ChildOrder(n), q[0])], path)
         + RowsBefore(n.children[q[0]], path + [q[0]], q[1..])
  {
  }

  /** The tree below `n` with every expand flag set to `flag`. */
  function SetAll(n: Node, flag: bool): (r: Node)
    ensures r.name == n.name && r.fullKey == n.fullKey && r.level == n.level
    ensures r.isExpanded == flag && r.children.Keys == n.children.Keys
    ensures forall c :: c in r.children ==> r.children[c].isExpanded == flag
    decreases n
  {
    n.(isExpanded := flag, children := map c | c in n.children :: SetAll(n.children[c], flag))
  }

  /** After expandAll or collapseAll every node of the subtree carries the
      flag, and nothing else has changed. */
  lemma {:induction false} SetAllFlags(n: Node, flag: bool, q: seq<string>)
    ensures SameShape(SetAll(n, flag), n)
    ensures NodeAt(SetAll(n, flag), q).Some? <==> NodeAt(n, q).Some?
    ensures NodeAt(SetAll(n, flag), q).Some? ==> NodeAt(SetAll(n, flag), q).value.isExpanded == flag
    decreases n
  {
    var r := SetAll(n, flag);
    forall c | c in n.children ensures SameShape(r.children[c], n.children[c]) {
      SetAllFlags(n.children[c], flag, []);
    }
    if q != [] && q[0] in n.children {
      SetAllFlags(n.children[q[0]], flag, q[1..]);
    }
  }

  /** A later expandAll or collapseAll overrides an earlier one. */
  lemma {:induction false} SetAllOverrides(n: Node, first: bool, second: bool)
    ensures SetAll(SetAll(n, first), second) == SetAll(n, second)
    decreases n
  {
    forall c | c in n.children
      ensures SetAll(SetAll(n.children[c], first), second) == SetAll(n.children[c], second)
    {
      SetAllOverrides(n.children[c], first, second);
    }
    assert SetAll(SetAll(n, first), second).children == SetAll(n, second).children;
  }

  /** The recursion shared by expandAll and collapseAll: set the node's
      flag, then visit every child. */
  method SetExpandedEverywhere(n: Node, flag: bool) returns (r: Node)
    ensures r == SetAll(n, flag)
    decreases n
  {
    var kids: map<string, Node> := map[];
    var rest := n.children.Keys;
    while rest != {}
      invariant rest <= n.children.Keys
      invariant kids.Keys == n.children.Keys - rest
      invariant forall c :: c in kids ==> kids[c] == SetAll(n.children[c], flag)
      decreases rest
    {
      var c :| c in rest;
      var child := SetExpandedEverywhere(n.children[c], flag);
      kids := kids[c := child];
      rest := rest - {c};
    }
    r := n.(isExpanded := flag, children := kids);
    assert kids == SetAll(n, flag).children;
  }

  /** expandAll. */
  method ExpandAll(n: Node) returns (r: Node)
    ensures r == SetAll(n, true)
  {
    r := SetExpandedEverywhere(n, true);
  }

  /** collapseAll. */
  method CollapseAll(n: Node) returns (r: Node)
    ensures r == SetAll(n, false)
  {
    r := SetExpandedEverywhere(n, false);
  }

  /** The names of a sequence, as a set. */
  function NameSet(names: seq<string>): set<string>
  {
    set x | x in names
  }

  /** countNodes: every node that is not the root (level below 0) counts
      one. The children are summed in no particular order. */
  ghost function NodeCount(n: Node): (r: nat)
    ensures n.level >= 0 ==> r >= 1
    ensures n.children == map[] ==> r == if n.level >= 0 then 1 else 0
    decreases n, 1
  {
    (if n.level >= 0 then 1 else 0) + ChildNodeCount(n, n.children.Keys)
  }

  ghost function ChildNodeCount(n: Node, names: set<string>): nat
    requires names <= n.children.Keys
    decreases n, 0, names
  {
    if names == {} then 0
    else
      var c :| c in names;
      NodeCount(n.children[c]) + ChildNodeCount(n, names - {c})
  }

  /** The children may be summed starting from any one of them. */
  lemma {:induction false} ChildNodeCountRemove(n: Node, names: set<string>, c: string)
    requires names <= n.children.Keys && c in names
    ensures ChildNodeCount(n, names) == NodeCount(n.children[c]) + ChildNodeCount(n, names - {c})
    decreases |names|
  {
    var d :| d in names && ChildNodeCount(n, names) == NodeCount(n.children[d]) + ChildNodeCount(n, names - {d});
    if d != c {
      ChildNodeCountRemove(n, names - {d}, c);
      ChildNodeCountRemove(n, names - {c}, d);
      assert names - {d} - {c} == names - {c} - {d};
    }
  }

  /** countNodes. */
  method CountNodes(n: Node) returns (count: nat)
    ensures count == NodeCount(n)
    decreases n
  {
    count := if n.level >= 0 then 1 else 0;
    var rest := n.children.Keys;
    while rest != {}
      invariant rest <= n.children.Keys
      invariant count + ChildNodeCount(n, rest) == NodeCount(n)
      decreases rest
    {
      var c :| c in rest;
      var k := CountNodes(n.children[c]);
      ChildNodeCountRemove(n, rest, c);
      count := count + k;
      rest := rest - {c};
    }
  }

  /** countNodes counts the rows flattenTree shows once every node is
      expanded: each node except the root. */
  lemma {:induction false} NodeCountIsExpandedRows(n: Node, path: seq<string>)
    ensures |Rows(SetAll(n, true), path)| == NodeCount(n)
    decreases n, 1
  {
    var m := SetAll(n, true);
    var names := ChildOrder(m);
    assert Rows(m, path) == OwnRow(m, path) + ChildRows(m, names, path);
    ChildOrderDistinct(m);
    ExpandedChildRows(n, names, path);
    assert NameSet(names) == n.children.Keys;
  }

  lemma {:induction false} ExpandedChildRows(n: Node, names: seq<string>, path: seq<string>)
    requires forall x :: x in names ==> x in n.children
    requires forall i, j :: 0 <= i < j < |names| ==> names[i] != names[j]
    ensures |ChildRows(SetAll(n, true), names, path)| == ChildNodeCount(n, NameSet(names))
    decreases n, 0, |names|
  {
    var m := SetAll(n, true);
    if names != [] {
      var init := names[..|names| - 1];
      var last := names[|names| - 1];
      ExpandedChildRows(n, init, path);
      NodeCountIsExpandedRows(n.children[last], path + [last]);
      ChildNodeCountRemove(n, NameSet(names), last);
      NameSetDropLast(names);
      assert m.children[last] == SetAll(n.children[last], true);
      assert ChildRows(m, names, path) == ChildRows(m, init, path) + Rows(m.children[last], path + [last]);
    } else {
      assert NameSet(names) == {};
    }
  }

  lemma NameSetDropLast(names: seq<string>)
    requires names != []
    requires forall i, j :: 0 <= i < j < |names| ==> names[i] != names[j]
    ensures NameSet(names) - {names[|names| - 1]} == NameSet(names[..|names| - 1])
  {
    var init := names[..|names| - 1];
    forall x | x in NameSet(init) ensures x != names[|names| - 1] {
      var i :| 0 <= i < |init| && init[i] == x;
      assert names[i] == x;
    }
    assert names == init + [names[|names| - 1]];
  }

  /** A JavaScript truthy key: present and not the empty string. */
  predicate Truthy(k: Option<string>)
  {
    k.Some? && k.value != ""
  }

  /** countLeafNodes: a node with a truthy key counts one and its subtree is
      not visited; any other node sums its children, in no particular order. */
  ghost function LeafCount(n: Node): (r: nat)
    ensures Truthy(n.fullKey) ==> r == 1
    ensures !Truthy(n.fullKey) && n.children == map[] ==> r == 0
    decreases n, 1
  {
    if Truthy(n.fullKey) then 1 else ChildLeafCount(n, n.children.Keys)
  }

  ghost function ChildLeafCount(n: Node, names: set<string>): nat
    requires names <= n.children.Keys
    decreases n, 0, names
  {
    if names == {} then 0
    else
      var c :| c in names;
      LeafCount(n.children[c]) + ChildLeafCount(n, names - {c})
  }

  lemma {:induction false} ChildLeafCountRemove(n: Node, names: set<string>, c: string)
    requires names <= n.children.Keys && c in names
    ensures ChildLeafCount(n, names) == LeafCount(n.children[c]) + ChildLeafCount(n, names - {c})
    decreases |names|
  {
    var d :| d in names && ChildLeafCount(n, names) == LeafCount(n.children[d]) + ChildLeafCount(n, names - {d});
    if d != c {
      ChildLeafCountRemove(n, names - {d}, c);
      ChildLeafCountRemove(n, names - {c}, d);
      assert names - {d} - {c} == names - {c} - {d};
    }
  }

  /** countLeafNodes. */
  method CountLeafNodes(n: Node) returns (count: nat)
    ensures count == LeafCount(n)
    decreases n
  {
    if Truthy(n.fullKey) {
      return 1;
    }
    count := 0;
    var rest := n.children.Keys;
    while rest != {}
      invariant rest <= n.children.Keys
      invariant count + ChildLeafCount(n, rest) == LeafCount(n)
      decreases rest
    {
      var c :| c in rest;
      var k := CountLeafNodes(n.children[c]);
      ChildLeafCountRemove(n, rest, c);
      count := count + k;
      rest := rest - {c};
    }
  }

  /** The keys stored in the subtree of `n`, in pre-order and sibling order:
      the node's own key, then those of its children. */
  function KeysUnder(n: Node): (r: seq<string>)
    ensures n.fullKey.Some? ==> r != [] && r[0] == n.fullKey.value
    ensures n.children == map[] ==> r == if n.fullKey.Some? then [n.fullKey.value] else []
    decreases n, 1
  {
    (if n.fullKey.Some? then [n.fullKey.value] else []) + ChildKeys(n, ChildOrder(n))
  }

  function ChildKeys(n: Node, names: seq<string>): seq<string>
    requires forall x :: x in names ==> x in n.children
    decreases n, 0, |names|
  {
    if names == [] then []
    else ChildKeys(n, names[..|names| - 1]) + KeysUnder(n.children[names[|names| - 1]])
  }

  /** Every key stored below `n` is collected. */
  lemma {:induction false} KeyAtIsUnder(n: Node, q: seq<string>)
    requires KeyAt(n, q).Some?
    ensures KeyAt(n, q).value in KeysUnder(n)
    decreases |q|
  {
    if q != [] {
      var c := q[0];
      KeyAtIsUnder(n.children[c], q[1..]);
      var names := ChildOrder(n);
      assert c in names;
      var j :| 0 <= j < |names| && names[j] == c;
      ChildKeysHas(n, names, j, KeyAt(n, q).value);
    }
  }

  lemma {:induction false} ChildKeysHas(n: Node, names: seq<string>, j: nat, k: string)
    requires forall x :: x in names ==> x in n.children
    requires j < |names| && k in KeysUnder(n.children[names[j]])
    ensures k in ChildKeys(n, names)
    decreases |names|
  {
    if j < |names| - 1 {
      ChildKeysHas(n, names[..|names| - 1], j, k);
    }
  }

  /** Only keys stored below `n` are collected. */
  lemma {:induction false} UnderIsKeyAt(n: Node, k: string)
    requires k in KeysUnder(n)
    ensures exists q :: KeyAt(n, q) == Some(k)
    decreases n, 1
  {
    if n.fullKey == Some(k) {
      assert KeyAt(n, []) == Some(k);
    } else {
      UnderChildKeys(n, ChildOrder(n), k);
    }
  }

  lemma {:induction false} UnderChildKeys(n: Node, names: seq<string>, k: string)
    requires forall x :: x in names ==> x in n.children
    requires k in ChildKeys(n, names)
    ensures exists q :: KeyAt(n, q) == Some(k)
    decreases n, 0, |names|
  {
    var init := names[..|names| - 1];
    var last := names[|names| - 1];
    if k in ChildKeys(n, init) {
      UnderChildKeys(n, init, k);
    } else {
      UnderIsKeyAt(n.children[last], k);
      var q :| KeyAt(n.children[last], q) == Some(k);
      assert ([last] + q)[0] == last && ([last] + q)[1..] == q;
      assert KeyAt(n, [last] + q) == Some(k);
    }
  }

  /** countLeafNodes never exceeds the number of stored keys below the node. */
  lemma {:induction false} LeafCountAtMostKeys(n: Node)
    ensures LeafCount(n) <= |KeysUnder(n)|
    decreases n, 1
  {
    if !Truthy(n.fullKey) {
      var names := ChildOrder(n);
      ChildOrderDistinct(n);
      ChildLeafCountAtMostKeys(n, names);
      assert NameSet(names) == n.children.Keys;
    }
  }

  lemma {:induction false} ChildLeafCountAtMostKeys(n: Node, names: seq<string>)
    requires forall x :: x in names ==> x in n.children
    requires forall i, j :: 0 <= i < j < |names| ==> names[i] != names[j]
    ensures ChildLeafCount(n, NameSet(names)) <= |ChildKeys(n, names)|
    decreases n, 0, |names|
  {
    if names != [] {
      var init := names[..|names| - 1];
      var last := names[|names| - 1];
      ChildLeafCountAtMostKeys(n, init);
      LeafCountAtMostKeys(n.children[last]);
      ChildLeafCountRemove(n, NameSet(names), last);
      NameSetDropLast(names);
    } else {
      assert NameSet(names) == {};
    }
  }

  /** countLeafNodes is positive exactly when some node of the subtree holds
      a truthy key. */
  lemma {:induction false} LeafCountPositive(n: Node)
    ensures LeafCount(n) > 0 <==> exists q :: Truthy(KeyAt(n, q))
    decreases n, 1
  {
    if Truthy(n.fullKey) {
      assert Truthy(KeyAt(n, []));
    } else {
      ChildLeafCountPositive(n, n.children.Keys);
      if exists q :: Truthy(KeyAt(n, q)) {
        var q :| Truthy(KeyAt(n, q));
        assert q != [];
        LeafCountPositive(n.children[q[0]]);
        assert Truthy(KeyAt(n.children[q[0]], q[1..]));
      }
      if LeafCount(n) > 0 {
        var c :| c in n.children && LeafCount(n.children[c]) > 0;
        LeafCountPositive(n.children[c]);
        var q :| Truthy(KeyAt(n.children[c], q));
        assert ([c] + q)[0] == c && ([c] + q)[1..] == q;
        assert Truthy(KeyAt(n, [c] + q));
      }
    }
  }

  lemma {:induction false} ChildLeafCountPositive(n: Node, names: set<string>)
    requires names <= n.children.Keys
    ensures ChildLeafCount(n, names) > 0 <==> exists c :: c in names && LeafCount(n.children[c]) > 0
    decreases names
  {
    if names != {} {
      var c :| c in names && ChildLeafCount(n, names) == LeafCount(n.children[c]) + ChildLeafCount(n, names - {c});
      ChildLeafCountPositive(n, names - {c});
    }
  }

  /** The per-key walk of buildTree on ["a", "a:b"] stores two keys, but
      countLeafNodes stops at the truthy key "a" and counts one. */
  lemma LeafCountStopsAtKey()
    ensures ChosenDelimiter(["a", "a:b"], None) == ":"
    ensures LeafCount(InsertAll(["a", "a:b"], ":")) == 1
    ensures |KeysUnder(InsertAll(["a", "a:b"], ":"))| == 2
  {
    ExampleDelimiter();
    var t := ExampleTree();
    var a := t.children["a"];
    assert ChildLeafCount(t, {"a"}) == LeafCount(a) + ChildLeafCount(t, {});
    ExampleKeys(t);
  }

  lemma ExampleKeys(t: Node)
    requires t.children.Keys == {"a"} && t.fullKey.None?
    requires t.children["a"].fullKey == Some("a") && t.children["a"].children.Keys == {"b"}
    requires t.children["a"].children["b"] == Node("b", Some("a:b"), map[], false, 1)
    ensures |KeysUnder(t)| == 2
  {
    var a := t.children["a"];
    var ab := a.children["b"];
    SingleChildOrder(t, "a");
    SingleChildOrder(a, "b");
    assert KeysUnder(ab) == ["a:b"];
    OneChildKeys(a, "b");
    OneChildKeys(t, "a");
  }

  lemma SingleChildOrder(n: Node, c: string)
    requires n.children.Keys == {c}
    ensures ChildOrder(n) == [c]
  {
    var r := ChildOrder(n);
    assert r[0] in n.children;
  }

  lemma OneChildKeys(n: Node, c: string)
    requires c in n.children
    ensures ChildKeys(n, [c]) == KeysUnder(n.children[c])
  {
    assert [c][..0] == [];
  }

  /** The tree of ["a", "a:b"]: "a" holds its key and the child "b". */
  lemma ExampleTree() returns (t: Node)
    ensures t == InsertAll(["a", "a:b"], ":")
    ensures t.children.Keys == {"a"} && t.level == -1 && t.fullKey.None?
    ensures t.children["a"].fullKey == Some("a") && t.children["a"].children.Keys == {"b"}
    ensures t.children["a"].children["b"] == Node("b", Some("a:b"), map[], false, 1)
  {
    SplitExamples();
    var root := EmptyRoot();
    var ab := Node("b", Some("a:b"), map[], false, 1);
    var a := Node("a", Some("a"), map["b" := ab], false, 0);
    assert ["a", "a:b"][..1] == ["a"] && ["a"][..0] == [];
    var a1 := Node("a", Some("a"), map[], false, 0);
    var t1 := root.(children := map["a" := a1]);
    assert InsertAll(["a"], ":") == InsertPath(root, ["a"], 0, "a") == t1;
    assert InsertPath(a1, ["a", "b"], 1, "a:b") == a;
    assert InsertPath(t1, ["a", "b"], 0, "a:b") == t1.(children := map["a" := a]);
    t := root.(children := map["a" := a]);
  }

  /** A key "" is stored by buildTree's walk but not counted by
      countLeafNodes, since "" is not truthy. */
  lemma LeafCountSkipsEmptyKey()
    ensures LeafCount(InsertAll([""], ":")) == 0
    ensures |KeysUnder(InsertAll([""], ":"))| == 1
  {
    SplitExamples();
    assert [""][..0] == [];
    var root := EmptyRoot();
    var e := Node("", Some(""), map[], false, 0);
    var t := InsertPath(root, [""], 0, "");
    assert t == root.(children := map["" := e]);
    assert LeafCount(e) == 0;
    assert ChildLeafCount(t, {""}) == LeafCount(e) + ChildLeafCount(t, {});
    assert ChildOrder(t) == [""];
    assert [""][..0] == [];
    assert ChildKeys(t, [""]) == ChildKeys(t, []) + KeysUnder(e);
  }

  lemma ExampleDelimiter()
    ensures ChosenDelimiter(["a", "a:b"], None) == ":"
  {
    var keys := ["a", "a:b"];
    ExampleCounts();
    var d := DetectDelimiter(keys);
    assert Occurrences(keys, Candidates[0]) > 0;
    assert Occurrences(keys, d) >= 1;
  }

  /** The candidate counts of the keys `a` and `a:b`. */
  lemma ExampleCounts()
    ensures Occurrences(["a", "a:b"], ":") == 1
    ensures Occurrences(["a", "a:b"], "/") == 0
    ensures Occurrences(["a", "a:b"], ".") == 0
    ensures Occurrences(["a", "a:b"], "-") == 0
  {
    var keys := ["a", "a:b"];
    OccurrencesCountChars(keys, ':');
    OccurrencesCountChars(keys, '/');
    OccurrencesCountChars(keys, '.');
    OccurrencesCountChars(keys, '-');
    ExampleCharCounts();
  }

  lemma ExampleCharCounts()
    ensures CharCount(["a", "a:b"], ':') == 1
    ensures CharCount(["a", "a:b"], '/') == 0
    ensures CharCount(["a", "a:b"], '.') == 0
    ensures CharCount(["a", "a:b"], '-') == 0
  {
    var keys := ["a", "a:b"];
    assert keys[1..][1..] == [];
    assert multiset("a") == multiset{'a'};
    assert multiset("a:b") == multiset{'a', ':', 'b'};
  }

  lemma SplitOneChar(c: char)
    requires c != ':'
    ensures Split([c], ":") == [[c]]
  {
    var s := [c];
    assert s[..1][0] != ":"[0];
    assert s[1..] == "";
    var rest := Split(s[1..], ":");
    assert rest == [""];
    assert [s[0]] + rest[0] == [c];
    assert rest[1..] == [];
  }

  lemma SplitExamples()
    ensures Split("", ":") == [""]
    ensures Split("a", ":") == ["a"]
    ensures Split("a:b", ":") == ["a", "b"]
  {
    SplitOneChar('a');
    SplitOneChar('b');
    var s := "a:b";
    assert s[1..] == ":b";
    assert ":b"[..1] == ":" && ":b"[1..] == "b";
    var rest := Split(":b", ":");
    assert rest == [""] + ["b"];
    assert [s[0]] + rest[0] == "a";
    assert rest[1..] == ["b"];
  }

  /** No value appears twice. */
  predicate Distinct(s: seq<string>)
  {
    forall i, j :: 0 <= i < j < |s| ==> s[i] != s[j]
  }

  /** `p` is a leading part of `q`. */
  predicate IsPrefix(p: seq<string>, q: seq<string>)
  {
    |p| <= |q| && q[..|p|] == p
  }

  /** In a tree built for `keys`, the key found at `q` below a node at
      `base` is one of `keys`, and it splits into `base + q`. */
  lemma {:induction false} WellFormedKeyAt(n: Node, d: string, base: seq<string>, keys: seq<string>, q: seq<string>)
    requires |d| > 0 && WellFormed(n, d, base, keys) && KeyAt(n, q).Some?
    ensures KeyAt(n, q).value in keys && Split(KeyAt(n, q).value, d) == base + q
    decreases |q|
  {
    if q == [] {
      WFRoot(n, d, base, keys);
    } else {
      var c := q[0];
      WFChild(n, d, base, keys, c);
      WellFormedKeyAt(n.children[c], d, base + [c], keys, q[1..]);
      AppendCons(base, q);
    }
  }

  lemma WFRoot(n: Node, d: string, base: seq<string>, keys: seq<string>)
    requires |d| > 0 && WellFormed(n, d, base, keys)
    ensures n.fullKey.Some? ==> n.fullKey.value in keys && Split(n.fullKey.value, d) == base
  {
  }

  lemma WFChild(n: Node, d: string, base: seq<string>, keys: seq<string>, c: string)
    requires |d| > 0 && WellFormed(n, d, base, keys) && c in n.children
    ensures WellFormed(n.children[c], d, base + [c], keys)
  {
  }

  lemma AppendCons(base: seq<string>, q: seq<string>)
    requires q != []
    ensures base + [q[0]] + q[1..] == base + q
  {
  }

  /** The node at `q` below a node at `base` is at `base + q`. */
  lemma {:induction false} WellFormedNodeAt(n: Node, d: string, base: seq<string>, keys: seq<string>, q: seq<string>)
    requires |d| > 0 && WellFormed(n, d, base, keys) && NodeAt(n, q).Some?
    ensures WellFormed(NodeAt(n, q).value, d, base + q, keys)
    decreases |q|
  {
    if q == [] {
      assert base + q == base;
    } else {
      var c := q[0];
      WFChild(n, d, base, keys, c);
      WellFormedNodeAt(n.children[c], d, base + [c], keys, q[1..]);
      AppendCons(base, q);
    }
  }

  /** The keys collected below the node at path `p` of a tree built for
      `keys` are exactly the keys whose segments start with `p`. */
  lemma KeysUnderFolder(root: Node, d: string, keys: seq<string>, p: seq<string>, k: string)
    requires |d| > 0 && BuiltFrom(root, d, keys) && NodeAt(root, p).Some?
    ensures k in KeysUnder(NodeAt(root, p).value) <==> k in keys && IsPrefix(p, Split(k, d))
  {
    if k in KeysUnder(NodeAt(root, p).value) {
      FolderKeyIsPrefixed(root, d, keys, p, k);
    }
    if k in keys && IsPrefix(p, Split(k, d)) {
      PrefixedKeyInFolder(root, d, keys, p, k);
    }
  }

  lemma FolderKeyIsPrefixed(root: Node, d: string, keys: seq<string>, p: seq<string>, k: string)
    requires |d| > 0 && BuiltFrom(root, d, keys) && NodeAt(root, p).Some?
    requires k in KeysUnder(NodeAt(root, p).value)
    ensures k in keys && IsPrefix(p, Split(k, d))
  {
    var m := NodeAt(root, p).value;
    WellFormedNodeAt(root, d, [], keys, p);
    assert [] + p == p;
    UnderIsKeyAt(m, k);
    var q :| KeyAt(m, q) == Some(k);
    WellFormedKeyAt(m, d, p, keys, q);
    assert (p + q)[..|p|] == p;
  }

  lemma PrefixedKeyInFolder(root: Node, d: string, keys: seq<string>, p: seq<string>, k: string)
    requires |d| > 0 && BuiltFrom(root, d, keys) && NodeAt(root, p).Some?
    requires k in keys && IsPrefix(p, Split(k, d))
    ensures k in KeysUnder(NodeAt(root, p).value)
  {
    var m := NodeAt(root, p).value;
    var parts := Split(k, d);
    var rest := parts[|p|..];
    assert parts == p + rest;
    NodeAtAppend(root, p, rest);
    assert KeyAt(root, parts) == Some(k);
    assert KeyAt(m, rest) == Some(k);
    KeyAtIsUnder(m, rest);
  }

  /** A key collected below a child comes from that child's subtree. */
  lemma {:induction false} ChildKeysFrom(n: Node, names: seq<string>, k: string) returns (j: nat)
    requires forall x :: x in names ==> x in n.children
    requires k in ChildKeys(n, names)
    ensures j < |names| && k in KeysUnder(n.children[names[j]])
    decreases |names|
  {
    var init := names[..|names| - 1];
    ChildKeysLast(n, names);
    if k in ChildKeys(n, init) {
      j := ChildKeysFrom(n, init, k);
      assert names[j] == init[j];
    } else {
      j := |names| - 1;
    }
  }

  lemma ChildKeysLast(n: Node, names: seq<string>)
    requires names != [] && forall x :: x in names ==> x in n.children
    ensures ChildKeys(n, names)
      == ChildKeys(n, names[..|names| - 1]) + KeysUnder(n.children[names[|names| - 1]])
  {
  }

  /** Below a node at `base` of a tree built for `keys`, every collected key
      splits into a path that starts with `base`, and no key is collected
      twice. */
  lemma {:induction false} KeysUnderDistinct(n: Node, d: string, base: seq<string>, keys: seq<string>)
    requires |d| > 0 && WellFormed(n, d, base, keys)
    ensures Distinct(KeysUnder(n))
    decreases n, 1
  {
    var names := ChildOrder(n);
    ChildOrderDistinct(n);
    ChildKeysDistinct(n, d, base, keys, names);
    var own := if n.fullKey.Some? then [n.fullKey.value] else [];
    var rest := ChildKeys(n, names);
    assert KeysUnder(n) == own + rest;
    if n.fullKey.Some? {
      assert Split(n.fullKey.value, d) == base;
      forall k | k in rest ensures k != n.fullKey.value {
        KeyBelowChild(n, d, base, keys, names, k);
      }
    }
    DistinctConcat(own, rest);
  }

  lemma {:induction false} ChildKeysDistinct(n: Node, d: string, base: seq<string>, keys: seq<string>, names: seq<string>)
    requires |d| > 0 && WellFormed(n, d, base, keys)
    requires forall x :: x in names ==> x in n.children
    requires forall i, j :: 0 <= i < j < |names| ==> names[i] != names[j]
    ensures Distinct(ChildKeys(n, names))
    decreases n, 0, |names|
  {
    if names != [] {
      var init := names[..|names| - 1];
      var last := names[|names| - 1];
      ChildKeysDistinct(n, d, base, keys, init);
      KeysUnderDistinct(n.children[last], d, base + [last], keys);
      forall k | k in ChildKeys(n, init)
        ensures k !in KeysUnder(n.children[last])
      {
        KeyBelowChild(n, d, base, keys, init, k);
        var j :| 0 <= j < |init| && Split(k, d)[|base|] == init[j];
        assert names[j] == init[j];
        if k in KeysUnder(n.children[last]) {
          WFChild(n, d, base, keys, last);
          KeyUnderSplits(n.children[last], d, base + [last], keys, k);
          PrefixNext(base, last, Split(k, d));
        }
      }
      DistinctConcat(ChildKeys(n, init), KeysUnder(n.children[last]));
    }
  }

  /** A collected key splits into a path through the node. */
  lemma KeyUnderSplits(n: Node, d: string, base: seq<string>, keys: seq<string>, k: string)
    requires |d| > 0 && WellFormed(n, d, base, keys) && k in KeysUnder(n)
    ensures k in keys && IsPrefix(base, Split(k, d))
  {
    UnderIsKeyAt(n, k);
    var q :| KeyAt(n, q) == Some(k);
    WellFormedKeyAt(n, d, base, keys, q);
    assert (base + q)[..|base|] == base;
  }

  /** A key collected below one of the children `names` splits into a path
      that continues past `base` with one of `names`. */
  lemma KeyBelowChild(n: Node, d: string, base: seq<string>, keys: seq<string>, names: seq<string>, k: string)
    requires |d| > 0 && WellFormed(n, d, base, keys)
    requires forall x :: x in names ==> x in n.children
    requires k in ChildKeys(n, names)
    ensures |base| < |Split(k, d)| && exists j :: 0 <= j < |names| && Split(k, d)[|base|] == names[j]
  {
    var j := ChildKeysFrom(n, names, k);
    WFChild(n, d, base, keys, names[j]);
    KeyUnderSplits(n.children[names[j]], d, base + [names[j]], keys, k);
    PrefixNext(base, names[j], Split(k, d));
  }

  lemma PrefixNext(p: seq<string>, c: string, q: seq<string>)
    requires IsPrefix(p + [c], q)
    ensures |p| < |q| && q[|p|] == c
  {
    assert q[..|p| + 1][|p|] == c;
  }

  lemma DistinctConcat(a: seq<string>, b: seq<string>)
    requires Distinct(a) && Distinct(b)
    requires forall k :: k in a ==> k !in b
    ensures Distinct(a + b)
  {
    forall i, j | 0 <= i < j < |a + b| ensures (a + b)[i] != (a + b)[j] {
      if j >= |a| && i < |a| {
        assert (a + b)[i] in a && (a + b)[j] in b;
      }
    }
  }

  /** A sequence without repetition has as many elements as its set. */
  lemma {:induction false} DistinctCard(s: seq<string>)
    requires Distinct(s)
    ensures |NameSet(s)| == |s|
    decreases |s|
  {
    if s != [] {
      var init := s[..|s| - 1];
      DistinctCard(init);
      NameSetDropLast(s);
      assert s[|s| - 1] in NameSet(s);
    } else {
      assert NameSet(s) == {};
    }
  }

  /** The distinct stored keys whose segments start with `p`. */
  ghost function KeysWithPrefix(keys: seq<string>, d: string, p: seq<string>): set<string>
    requires |d| > 0
  {
    set k | k in keys && IsPrefix(p, Split(k, d))
  }

  /** Below the node at path `p` of a tree built for `keys`, as many keys
      are collected as there are distinct keys whose segments start with `p`. */
  lemma FolderKeyCount(root: Node, d: string, keys: seq<string>, p: seq<string>)
    requires |d| > 0 && BuiltFrom(root, d, keys) && NodeAt(root, p).Some?
    ensures |KeysUnder(NodeAt(root, p).value)| == |KeysWithPrefix(keys, d, p)|
  {
    var m := NodeAt(root, p).value;
    WellFormedNodeAt(root, d, [], keys, p);
    assert [] + p == p;
    KeysUnderDistinct(m, d, p, keys);
    DistinctCard(KeysUnder(m));
    FolderKeySet(root, d, keys, p);
  }

  lemma FolderKeySet(root: Node, d: string, keys: seq<string>, p: seq<string>)
    requires |d| > 0 && BuiltFrom(root, d, keys) && NodeAt(root, p).Some?
    ensures NameSet(KeysUnder(NodeAt(root, p).value)) == KeysWithPrefix(keys, d, p)
  {
    var m := NodeAt(root, p).value;
    forall k ensures k in NameSet(KeysUnder(m)) <==> k in KeysWithPrefix(keys, d, p) {
      KeysUnderFolder(root, d, keys, p, k);
    }
  }
}
