/** buildTree and detectDelimiter of src/utils/tree-builder.ts. */
module TreeBuilder {
  import opened Wrappers
  import opened Strings
  import opened TreeNodes

  /** The delimiter candidates, in the order that breaks ties. */
  const Candidates: seq<string> := [":", "/", ".", "-"]

  /** The sum over the keys of `key.split(delim).length - 1`. */
  function Occurrences(keys: seq<string>, delim: string): nat
    requires |delim| > 0
  {
    if keys == [] then 0
    else (|Split(keys[0], delim)| - 1) + Occurrences(keys[1..], delim)
  }

  /** How many times character `c` appears in all keys together. */
  function CharCount(keys: seq<string>, c: char): nat
  {
    if keys == [] then 0 else multiset(keys[0])[c] + CharCount(keys[1..], c)
  }

  /** The split-based count of a one-character candidate is its number of
      appearances in the keys. */
  lemma {:induction false} OccurrencesCountChars(keys: seq<string>, c: char)
    ensures Occurrences(keys, [c]) == CharCount(keys, c)
  {
    if keys != [] {
      SplitCountsOccurrences(keys[0], c);
      OccurrencesCountChars(keys[1..], c);
    }
  }

  datatype DelimCount = DelimCount(delim: string, count: nat)

  /** `delimiters.map(delim => ({ delim, count }))`. */
  function Counts(keys: seq<string>): (counts: seq<DelimCount>)
    ensures |counts| == |Candidates|
    ensures forall i :: 0 <= i < |counts| ==>
      counts[i].delim == Candidates[i] && counts[i].count == Occurrences(keys, Candidates[i])
  {
    [DelimCount(":", Occurrences(keys, ":")), DelimCount("/", Occurrences(keys, "/")),
     DelimCount(".", Occurrences(keys, ".")), DelimCount("-", Occurrences(keys, "-"))]
  }

  /** The position of the entry that a stable sort by descending count puts
      first: the earliest entry whose count is maximal. */
  function StableTop(counts: seq<DelimCount>): (k: nat)
    requires |counts| > 0
    ensures k < |counts|
    ensures forall i :: 0 <= i < |counts| ==> counts[i].count <= counts[k].count
    ensures forall i :: 0 <= i < k ==> counts[i].count < counts[k].count
  {
    if |counts| == 1 then 0
    else
      var k' := StableTop(counts[..|counts| - 1]);
      if counts[|counts| - 1].count > counts[k'].count then |counts| - 1 else k'
  }

  /** detectDelimiter: the candidate with the most occurrences, the earlier
      one on a tie, and ':' when no key contains any candidate. */
  function DetectDelimiter(keys: seq<string>): (d: string)
    ensures d in Candidates
    ensures (forall c :: c in Candidates ==> Occurrences(keys, c) == 0) ==> d == ":"
    ensures (exists c :: c in Candidates && Occurrences(keys, c) > 0) ==>
      exists j :: 0 <= j < |Candidates| && Candidates[j] == d
        && (forall i :: 0 <= i < |Candidates| ==> Occurrences(keys, Candidates[i]) <= Occurrences(keys, d))
        && (forall i :: 0 <= i < j ==> Occurrences(keys, Candidates[i]) < Occurrences(keys, d))
  {
    var counts := Counts(keys);
    var k := StableTop(counts);
    if counts[k].count > 0 then counts[k].delim else ":"
  }

  /** The delimiter buildTree uses: the one given, unless it is missing or empty. */
  function ChosenDelimiter(keys: seq<string>, delimiter: Option<string>): (d: string)
    ensures |d| > 0
    ensures delimiter.Some? && delimiter.value != "" ==> d == delimiter.value
    ensures delimiter.None? || delimiter.value == "" ==> d == DetectDelimiter(keys)
  {
    if delimiter.None? || delimiter.value == "" then DetectDelimiter(keys) else delimiter.value
  }

  /** The walk of one key from segment `i` on: reuse the child named by the
      segment or create it collapsed at level `i`, and store the key on the
      node of the last segment. */
  function InsertPath(n: Node, parts: seq<string>, i: nat, key: string): Node
    requires i < |parts|
    decreases |parts| - i
  {
    var part := parts[i];
    var isLeaf := i == |parts| - 1;
    var child :=
      if part in n.children then n.children[part]
      else Node(part, if isLeaf then Some(key) else None, map[], false, i);
    var next := if isLeaf then child.(fullKey := Some(key)) else InsertPath(child, parts, i + 1, key);
    n.(children := n.children[part := next])
  }

  /** What holds of a node reached from the root by the segments `base`,
      apart from its subtree: its level is its depth, its name is its
      segment, and a key it stores is one of `keys` that splits into `base`. */
  ghost predicate LocalOk(n: Node, d: string, base: seq<string>, keys: seq<string>)
    requires |d| > 0
  {
    && n.level == |base| - 1
    && (base != [] ==> n.name == base[|base| - 1])
    && (n.fullKey.Some? ==> n.fullKey.value in keys && Split(n.fullKey.value, d) == base)
  }

  /** The tree invariant: every node is LocalOk, and a non-root node
      without a key has children (it lies on the path of a key). */
  ghost predicate WellFormed(n: Node, d: string, base: seq<string>, keys: seq<string>)
    requires |d| > 0
    decreases n
  {
    && LocalOk(n, d, base, keys)
    && (base != [] && n.fullKey.None? ==> IsParent(n))
    && forall c :: c in n.children ==> WellFormed(n.children[c], d, base + [c], keys)
  }

  lemma {:induction false} WellFormedLevelled(n: Node, d: string, base: seq<string>, keys: seq<string>)
    requires |d| > 0 && WellFormed(n, d, base, keys)
    ensures Levelled(n, |base|)
    decreases n
  {
    forall c | c in n.children ensures Levelled(n.children[c], |base| + 1) {
      WellFormedLevelled(n.children[c], d, base + [c], keys);
    }
  }

  /** Every key is found at the end of the walk of its segments. */
  ghost predicate Complete(root: Node, d: string, keys: seq<string>)
    requires |d| > 0
  {
    forall k :: k in keys ==> KeyAt(root, Split(k, d)) == Some(k)
  }

  /** Every node below `n` is collapsed. */
  ghost predicate Collapsed(n: Node)
    decreases n
  {
    forall c :: c in n.children ==> !n.children[c].isExpanded && Collapsed(n.children[c])
  }

  lemma {:induction false} WellFormedMono(n: Node, d: string, base: seq<string>, keys: seq<string>, more: seq<string>)
    requires |d| > 0 && forall k :: k in keys ==> k in more
    requires WellFormed(n, d, base, keys)
    ensures WellFormed(n, d, base, more)
    decreases n
  {
    forall c | c in n.children ensures WellFormed(n.children[c], d, base + [c], more) {
      WellFormedMono(n.children[c], d, base + [c], keys, more);
    }
  }

  /** Replacing one child by a well-formed node keeps a node well-formed. */
  lemma WellFormedReplaceChild(n: Node, d: string, base: seq<string>, keys: seq<string>, part: string, next: Node)
    requires |d| > 0 && LocalOk(n, d, base, keys)
    requires forall c :: c in n.children && c != part ==> WellFormed(n.children[c], d, base + [c], keys)
    requires WellFormed(next, d, base + [part], keys)
    ensures WellFormed(n.(children := n.children[part := next]), d, base, keys)
  {
    var r := n.(children := n.children[part := next]);
    assert LocalOk(r, d, base, keys);
    assert part in r.children;
  }

  lemma {:induction false} InsertWellFormed(n: Node, parts: seq<string>, i: nat, key: string, d: string, keys: seq<string>)
    requires |d| > 0 && i < |parts| && Split(key, d) == parts
    requires LocalOk(n, d, parts[..i], keys + [key])
    requires forall c :: c in n.children ==> WellFormed(n.children[c], d, parts[..i] + [c], keys + [key])
    ensures WellFormed(InsertPath(n, parts, i, key), d, parts[..i], keys + [key])
    decreases |parts| - i
  {
    var more := keys + [key];
    var part := parts[i];
    var isLeaf := i == |parts| - 1;
    var base := parts[..i + 1];
    assert parts[..i] + [part] == base;
    var child :=
      if part in n.children then n.children[part]
      else Node(part, if isLeaf then Some(key) else None, map[], false, i);
    assert LocalOk(child, d, base, more);
    assert forall c :: c in child.children ==> WellFormed(child.children[c], d, base + [c], more);
    var next := if isLeaf then child.(fullKey := Some(key)) else InsertPath(child, parts, i + 1, key);
    if isLeaf {
      assert base == parts;
      assert LocalOk(next, d, base, more);
      assert WellFormed(next, d, base, more);
    } else {
      InsertWellFormed(child, parts, i + 1, key, d, keys);
    }
    WellFormedReplaceChild(n, d, parts[..i], more, part, next);
  }

  lemma {:induction false} InsertStoresKey(n: Node, parts: seq<string>, i: nat, key: string)
    requires i < |parts|
    ensures KeyAt(InsertPath(n, parts, i, key), parts[i..]) == Some(key)
    decreases |parts| - i
  {
    var part := parts[i];
    var isLeaf := i == |parts| - 1;
    var child :=
      if part in n.children then n.children[part]
      else Node(part, if isLeaf then Some(key) else None, map[], false, i);
    var next := if isLeaf then child.(fullKey := Some(key)) else InsertPath(child, parts, i + 1, key);
    var r := n.(children := n.children[part := next]);
    assert parts[i..] == [part] + parts[i + 1..];
    assert NodeAt(r, parts[i..]) == NodeAt(next, parts[i + 1..]);
    if !isLeaf {
      InsertStoresKey(child, parts, i + 1, key);
    }
  }

  lemma {:induction false} InsertKeepsKeys(n: Node, parts: seq<string>, i: nat, key: string, q: seq<string>)
    requires i < |parts| && q != parts[i..] && KeyAt(n, q).Some?
    ensures KeyAt(InsertPath(n, parts, i, key), q) == KeyAt(n, q)
    decreases |parts| - i
  {
    var part := parts[i];
    if q != [] && q[0] == part {
      var child := n.children[part];
      assert parts[i..] == [part] + parts[i + 1..];
      assert q == [q[0]] + q[1..];
      if i == |parts| - 1 {
        assert q[1..] != [];
        var next := child.(fullKey := Some(key));
        assert NodeAt(next, q[1..]) == NodeAt(child, q[1..]);
      } else {
        InsertKeepsKeys(child, parts, i + 1, key, q[1..]);
      }
    }
  }

  lemma {:induction false} InsertKeepsCollapsed(n: Node, parts: seq<string>, i: nat, key: string)
    requires i < |parts| && Collapsed(n)
    requires n.level >= 0 ==> !n.isExpanded
    ensures Collapsed(InsertPath(n, parts, i, key))
    decreases |parts| - i
  {
    var part := parts[i];
    var isLeaf := i == |parts| - 1;
    var child :=
      if part in n.children then n.children[part]
      else Node(part, if isLeaf then Some(key) else None, map[], false, i);
    if !isLeaf {
      InsertKeepsCollapsed(child, parts, i + 1, key);
    }
  }

  /** What buildTree promises of the tree it returns for `keys`. */
  ghost predicate BuiltFrom(root: Node, d: string, keys: seq<string>)
    requires |d| > 0
  {
    && root.name == "root" && root.level == -1 && root.isExpanded && root.fullKey == None
    && WellFormed(root, d, [], keys)
    && Complete(root, d, keys)
    && Collapsed(root)
  }

  /** One more walk keeps the promise, for the keys seen so far plus the new one. */
  lemma InsertKeepsBuilt(root: Node, d: string, seen: seq<string>, key: string)
    requires |d| > 0 && BuiltFrom(root, d, seen)
    ensures BuiltFrom(InsertPath(root, Split(key, d), 0, key), d, seen + [key])
  {
    var parts := Split(key, d);
    var r := InsertPath(root, parts, 0, key);
    assert parts[..0] == [] && parts[0..] == parts;
    WellFormedMono(root, d, [], seen, seen + [key]);
    InsertWellFormed(root, parts, 0, key, d, seen);
    InsertStoresKey(root, parts, 0, key);
    InsertKeepsCollapsed(root, parts, 0, key);
    forall k | k in seen + [key] ensures KeyAt(r, Split(k, d)) == Some(k) {
      if Split(k, d) == parts {
        SplitInjective(k, key, d);
      } else {
        assert k in seen;
        InsertKeepsKeys(root, parts, 0, key, Split(k, d));
      }
    }
  }

  /** The synthetic root buildTree starts from. */
  function EmptyRoot(): Node
  {
    Node("root", None, map[], true, -1)
  }

  /** The tree after the walks of `keys`, one key after the other. */
  function InsertAll(keys: seq<string>, d: string): Node
    requires |d| > 0
    decreases |keys|
  {
    if keys == [] then EmptyRoot()
    else
      var k := keys[|keys| - 1];
      InsertPath(InsertAll(keys[..|keys| - 1], d), Split(k, d), 0, k)
  }

  /** What buildTree promises about its result: the tree of the walks of
      `keys` has the synthetic root, keeps the tree invariant, holds every
      key at the end of its path and has every node below the root collapsed. */
  lemma {:induction false} InsertAllBuilt(keys: seq<string>, d: string)
    requires |d| > 0
    ensures BuiltFrom(InsertAll(keys, d), d, keys)
    decreases |keys|
  {
    if keys != [] {
      var init := keys[..|keys| - 1];
      InsertAllBuilt(init, d);
      InsertKeepsBuilt(InsertAll(init, d), d, init, keys[|keys| - 1]);
      assert init + [keys[|keys| - 1]] == keys;
    }
  }

  /** buildTree: a root named 'root' at level -1, expanded and without a
      key, and one walk per key that reuses or creates the segment nodes.
      Returns the delimiter it used beside the root; InsertAllBuilt states
      what the resulting tree satisfies. */
  method BuildTree(keys: seq<string>, delimiter: Option<string>) returns (root: Node, d: string)
    ensures d == ChosenDelimiter(keys, delimiter)
    ensures root == InsertAll(keys, d)
  {
    d := ChosenDelimiter(keys, delimiter);
    root := EmptyRoot();
    for i := 0 to |keys|
      invariant root == InsertAll(keys[..i], d)
    {
      assert keys[..i + 1][..i] == keys[..i];
      root := InsertPath(root, Split(keys[i], d), 0, keys[i]);
    }
    assert keys[..|keys|] == keys;
  }
}
