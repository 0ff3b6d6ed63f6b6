/** The tree node of src/utils/tree-builder.ts and the order in which a
    node's children are visited. A node is a value; a reference to a node
    is the path of segment names that leads to it from the root. */
module TreeNodes {
  import opened Wrappers
  import opened Strings

  /** `fullKey` is present when the node is a stored key; the map key of a
      child is the child's segment name. */
  datatype Node = Node(
    name: string,
    fullKey: Option<string>,
    children: map<string, Node>,
    isExpanded: bool,
    level: int)

  /** `node.children.size > 0`: the node is shown as a folder. */
  predicate IsParent(n: Node)
  {
    |n.children| > 0
  }

  /** The node reached by walking the segments of `p` from `n`. */
  function NodeAt(n: Node, p: seq<string>): Option<Node>
    decreases |p|
  {
    if p == [] then Some(n)
    else if p[0] in n.children then NodeAt(n.children[p[0]], p[1..])
    else None
  }

  /** The key stored at the end of path `p`, if that node exists and has one. */
  function KeyAt(n: Node, p: seq<string>): Option<string>
  {
    match NodeAt(n, p)
    case Some(m) => m.fullKey
    case None => None
  }

  lemma {:induction false} NodeAtAppend(n: Node, p: seq<string>, q: seq<string>)
    ensures NodeAt(n, p + q) ==
      (match NodeAt(n, p) case Some(m) => NodeAt(m, q) case None => None)
    decreases |p|
  {
    if p == [] {
      assert p + q == q;
    } else {
      assert (p + q)[0] == p[0] && (p + q)[1..] == p[1..] + q;
      if p[0] in n.children {
        NodeAtAppend(n.children[p[0]], p[1..], q);
      }
    }
  }

  /** The sibling order of flattenTree: a child with children of its own
      comes before a childless one, otherwise the smaller name comes first. */
  predicate Before(children: map<string, Node>, a: string, b: string)
    requires a in children && b in children
  {
    var pa := IsParent(children[a]);
    var pb := IsParent(children[b]);
    if pa != pb then pa else StrLt(a, b)
  }

  lemma BeforeIsStrictOrder(children: map<string, Node>)
    ensures forall a, b :: a in children && b in children && Before(children, a, b) ==> !Before(children, b, a)
    ensures forall a, b :: a in children && b in children && a != b ==> Before(children, a, b) || Before(children, b, a)
    ensures forall a, b, c :: a in children && b in children && c in children && Before(children, a, b) && Before(children, b, c) ==> Before(children, a, c)
  {
    forall a, b | a in children && b in children
      ensures Before(children, a, b) ==> !Before(children, b, a)
      ensures a != b ==> Before(children, a, b) || Before(children, b, a)
    {
      StrLtAsymmetric(a, b);
      StrLtTotal(a, b);
    }
    forall a, b, c | a in children && b in children && c in children && Before(children, a, b) && Before(children, b, c)
      ensures Before(children, a, c)
    {
      StrLtTransitive(a, b, c);
    }
  }

  /** `m` comes before every other name of `s`. */
  predicate IsFirst(children: map<string, Node>, m: string, s: set<string>)
    requires s <= children.Keys
  {
    m in s && forall x :: x in s && x != m ==> Before(children, m, x)
  }

  lemma {:induction false} FirstExists(children: map<string, Node>, s: set<string>)
    requires s <= children.Keys && s != {}
    ensures exists m :: IsFirst(children, m, s)
    decreases |s|
  {
    BeforeIsStrictOrder(children);
    var x :| x in s;
    if s - {x} == {} {
      assert s == {x};
      assert IsFirst(children, x, s);
    } else {
      FirstExists(children, s - {x});
      var m :| IsFirst(children, m, s - {x});
      if Before(children, x, m) {
        assert IsFirst(children, x, s);
      } else {
        assert IsFirst(children, m, s);
      }
    }
  }

  /** The names of `s` listed once each, in sibling order. */
  function SortNames(children: map<string, Node>, s: set<string>): (r: seq<string>)
    requires s <= children.Keys
    ensures |r| == |s|
    ensures forall x :: x in r <==> x in s
    ensures forall i, j :: 0 <= i < j < |r| ==> Before(children, r[i], r[j])
    decreases |s|
  {
    if s == {} then []
    else
      FirstExists(children, s);
      FirstIsUnique(children, s);
      var m :| IsFirst(children, m, s);
      [m] + SortNames(children, s - {m})
  }

  /** A set has at most one first name. */
  lemma FirstIsUnique(children: map<string, Node>, s: set<string>)
    requires s <= children.Keys
    ensures forall m, n :: IsFirst(children, m, s) && IsFirst(children, n, s) ==> m == n
  {
    forall m, n | IsFirst(children, m, s) && IsFirst(children, n, s) ensures m == n {
      FirstUnique(children, s, m, n);
    }
  }

  /** The first name of a set is unique. */
  lemma FirstUnique(children: map<string, Node>, s: set<string>, m: string, n: string)
    requires s <= children.Keys && IsFirst(children, m, s) && IsFirst(children, n, s)
    ensures m == n
  {
    BeforeIsStrictOrder(children);
  }

  /** The order in which the children of `n` are visited. */
  function ChildOrder(n: Node): (r: seq<string>)
    ensures |r| == |n.children|
    ensures forall x :: x in r <==> x in n.children
    ensures forall i, j :: 0 <= i < j < |r| ==> Before(n.children, r[i], r[j])
  {
    SortNames(n.children, n.children.Keys)
  }

  /** Sorted names have no repetition. */
  lemma ChildOrderDistinct(n: Node)
    ensures forall i, j :: 0 <= i < j < |ChildOrder(n)| ==> ChildOrder(n)[i] != ChildOrder(n)[j]
  {
    var r := ChildOrder(n);
    forall i, j | 0 <= i < j < |r| ensures r[i] != r[j] {
      assert Before(n.children, r[i], r[j]);
      StrLtIrreflexive(r[i]);
    }
  }

  /** Two trees that differ at most in their expand flags. */
  ghost predicate SameShape(a: Node, b: Node)
    decreases a
  {
    && a.name == b.name
    && a.fullKey == b.fullKey
    && a.level == b.level
    && a.children.Keys == b.children.Keys
    && forall c :: c in a.children ==> SameShape(a.children[c], b.children[c])
  }

  lemma {:induction false} SameShapeNodeAt(a: Node, b: Node, p: seq<string>)
    requires SameShape(a, b)
    ensures NodeAt(a, p).Some? <==> NodeAt(b, p).Some?
    ensures NodeAt(a, p).Some? ==> SameShape(NodeAt(a, p).value, NodeAt(b, p).value)
    decreases |p|
  {
    if p != [] && p[0] in a.children {
      SameShapeNodeAt(a.children[p[0]], b.children[p[0]], p[1..]);
    }
  }

  lemma {:induction false} SortNamesSameShape(ca: map<string, Node>, cb: map<string, Node>, s: set<string>)
    requires s <= ca.Keys && ca.Keys == cb.Keys
    requires forall c :: c in ca ==> IsParent(ca[c]) == IsParent(cb[c])
    ensures SortNames(ca, s) == SortNames(cb, s)
    decreases |s|
  {
    if s != {} {
      var a := SortNames(ca, s);
      var b := SortNames(cb, s);
      assert IsFirst(ca, a[0], s) && a == [a[0]] + SortNames(ca, s - {a[0]});
      assert IsFirst(cb, b[0], s) && b == [b[0]] + SortNames(cb, s - {b[0]});
      FirstUnique(cb, s, a[0], b[0]);
      SortNamesSameShape(ca, cb, s - {a[0]});
    }
  }

  /** Expand flags play no part in the visiting order. */
  lemma ChildOrderSameShape(a: Node, b: Node)
    requires SameShape(a, b)
    ensures ChildOrder(a) == ChildOrder(b)
  {
    forall c | c in a.children ensures IsParent(a.children[c]) == IsParent(b.children[c]) {
      assert a.children[c].children.Keys == b.children[c].children.Keys;
    }
    SortNamesSameShape(a.children, b.children, a.children.Keys);
  }

  /** The level of every node is its depth minus one: the root, at depth
      0, has level -1. */
  ghost predicate Levelled(n: Node, depth: nat)
    decreases n
  {
    n.level == depth - 1 && forall c :: c in n.children ==> Levelled(n.children[c], depth + 1)
  }
}
