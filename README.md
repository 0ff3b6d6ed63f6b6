# redisc key space, in Dafny

A model of the part of redisc (a terminal browser for a Redis store) that
organises and navigates the key space, with proofs of what it promises:

- **tree builder** (`src/utils/tree-builder.ts`): choosing the key
  delimiter among `: / . -`, building the folder tree of keys split at the
  delimiter, flattening it into indented display rows (folders first, then
  names in order, only below expanded folders, in pre-order), toggling,
  expanding and collapsing folders, and the two node counts;
- **key manager** (`src/redis/key-manager.ts`): the `KeyManager` class
  with its four fields, the SCAN cursor loop of `loadKeys`, the sort, the
  case-insensitive client-side search filter, `clearFilter`, the getters
  and `getCounts`;
- **tree key list** (`src/ui/components/tree-key-list.ts`): the state of
  the tree view (`treeRoot`, `flatItems`, the delimiter the tree was built
  with), `updateItems`, the queries about the selected row,
  `toggleCurrentNode` and the right/left arrow guards;
- **formatters** (`src/utils/formatters.ts`): `formatTTL` and
  `formatTTLDetails`.

Files: `wrappers.dfy` (Option, Result), `strings.dfy` (JavaScript
`split`, `join`, ordering, lower-casing and `includes` on strings),
`tree_node.dfy` (the tree node value, paths, sibling order),
`tree_builder.dfy`, `tree_flatten.dfy`, `tree_ops.dfy` (toggle,
expand/collapse, counts, the keys under a folder), `key_manager.dfy`,
`tree_key_list.dfy`, `formatters.dfy`.

A tree node is a value `Node(name, fullKey, children, isExpanded, level)`
whose `children` is a map from segment to node; the `nodeRef` of a display
row is the path of segments from the root to its node. The tree invariant
`TreeBuilder.WellFormed`/`BuiltFrom` (every node's level is its depth
minus one, the root being at -1, its
name its segment, a key it stores splits into its path, a folder without a
key has children, every key is found at the end of its path, every node
below the root starts collapsed) is what `buildTree` establishes and what
the tree view relies on.

## Model

| member | source | states |
|---|---|---|
| Strings.Split | src/utils/tree-builder.ts:54 | `key.split(delimiter)` with a non-empty separator: at least one piece, cut at the leftmost non-overlapping occurrences |
| Strings.Join | src/utils/tree-builder.ts:54 | `parts.join(sep)`, the partner of `split`: JoinSplit and SplitJoinFree prove each undoes the other |
| Strings.JoinSplit | src/utils/tree-builder.ts:54 | joining the pieces of a split with the separator gives back the key |
| Strings.SplitInjective | src/utils/tree-builder.ts:54 | two keys with the same pieces are the same key, so distinct keys end at distinct paths |
| Strings.SplitCountsOccurrences | src/utils/tree-builder.ts:30 | for a one-character separator, `split(delim).length - 1` is the number of occurrences of that character |
| Strings.SplitPiecesFree | src/utils/tree-builder.ts:54 | no piece of a split contains the one-character separator |
| Strings.SplitFree | src/utils/tree-builder.ts:54 | a string without the separator splits into itself alone |
| Strings.SplitFreePrefix | src/utils/tree-builder.ts:54 | a separator-free piece followed by the separator splits off as the first piece |
| Strings.SplitJoinFree | src/utils/tree-builder.ts:54 | joining separator-free segments and splitting again gives the segments back |
| Strings.SplitJoinFreeThen | src/utils/tree-builder.ts:54 | a key starting with the joined segments and the separator splits into those segments, then the rest |
| Strings.JoinAppend | src/utils/tree-builder.ts:54 | joining two non-empty segment lists is joining each with the separator between |
| Strings.JoinConsHead | src/utils/tree-builder.ts:54 | a character in front of the first segment is a character in front of the join |
| Strings.StrLt | src/redis/key-manager.ts:34 | lexicographic order by code point, a proper prefix first; the four lemmas below prove it a strict total order |
| Strings.StrLtIrreflexive | src/utils/tree-builder.ts:117 | the name order used for siblings and for `sort()` is irreflexive |
| Strings.StrLtAsymmetric | src/utils/tree-builder.ts:117 | the name order is asymmetric |
| Strings.StrLtTransitive | src/utils/tree-builder.ts:117 | the name order is transitive |
| Strings.StrLtTotal | src/utils/tree-builder.ts:117 | any two different names are ordered one way or the other |
| Strings.Contains | src/redis/key-manager.ts:60 | `includes`: the substring occurs at some position; the empty substring is always found |
| Strings.Lower | src/redis/key-manager.ts:58-60 | `toLowerCase` keeps the length and maps each character on its own |
| TreeNodes.NodeAtAppend | src/utils/tree-builder.ts:57-72 | walking `p + q` from a node is walking `p`, then `q` from where that ends |
| TreeNodes.Before | src/utils/tree-builder.ts:110-118 | the sibling comparator: a folder before a non-folder, otherwise name order; BeforeIsStrictOrder proves it a strict total order |
| TreeNodes.BeforeIsStrictOrder | src/utils/tree-builder.ts:110-118 | the sibling comparator (folders first, then by name) is a strict total order |
| TreeNodes.FirstExists | src/utils/tree-builder.ts:110-118 | every non-empty set of siblings has a first one in that order |
| TreeNodes.SortNames | src/utils/tree-builder.ts:110-118 | the sort of a set of sibling names holds each of them once, in strictly increasing sibling order |
| TreeNodes.ChildOrder | src/utils/tree-builder.ts:110-118 | the sorted children: every child once, folders before leaves, names ascending within each class |
| TreeNodes.ChildOrderDistinct | src/utils/tree-builder.ts:110-118 | no child appears twice in the sorted children |
| TreeNodes.SameShapeNodeAt | src/utils/tree-builder.ts:133-135 | trees that differ only in their expanded flags have the same paths, reaching nodes of the same shape |
| TreeNodes.SortNamesSameShape | src/utils/tree-builder.ts:110-118 | the sibling sort does not look at expanded flags |
| TreeNodes.ChildOrderSameShape | src/utils/tree-builder.ts:110-118 | trees of the same shape sort their children alike |
| TreeBuilder.OccurrencesCountChars | src/utils/tree-builder.ts:28-31 | the per-delimiter total of `split(delim).length - 1` over the keys is the number of that character in the keys |
| TreeBuilder.Counts | src/utils/tree-builder.ts:27-31 | one count per candidate, in candidate order, each the total number of occurrences over all keys |
| TreeBuilder.StableTop | src/utils/tree-builder.ts:34 | the head after the stable descending sort: a maximal count, and no earlier entry has that count |
| TreeBuilder.DetectDelimiter | src/utils/tree-builder.ts:26-36 | one of `: / . -`; `:` when no key holds any; otherwise a candidate of maximal count, ties going to the earliest |
| TreeBuilder.ChosenDelimiter | src/utils/tree-builder.ts:42-44 | a given non-empty delimiter is used as is; otherwise the detected one |
| TreeBuilder.WellFormedLevelled | src/utils/tree-builder.ts:62-68 | in a well-formed tree every node's level is its depth minus one |
| TreeBuilder.WellFormedMono | src/utils/tree-builder.ts:53-78 | the tree invariant survives adding keys to the set of keys seen |
| TreeBuilder.WellFormedReplaceChild | src/utils/tree-builder.ts:69-72 | replacing one child by a well-formed one keeps the parent well-formed |
| TreeBuilder.InsertPath | src/utils/tree-builder.ts:57-78 | the walk of one key down its segments; the Insert lemmas below state what it creates, stores and keeps |
| TreeBuilder.InsertWellFormed | src/utils/tree-builder.ts:57-78 | one key's walk keeps every node at its depth, named by its segment, storing only keys that split into its path, and no keyless leaf |
| TreeBuilder.InsertStoresKey | src/utils/tree-builder.ts:57-78 | after a key's walk, its path leads to a node whose `fullKey` is the key, even where that node was already a folder |
| TreeBuilder.InsertKeepsKeys | src/utils/tree-builder.ts:61-72 | a walk reuses existing nodes: every key stored at another path stays where it was |
| TreeBuilder.InsertKeepsCollapsed | src/utils/tree-builder.ts:62-68 | nodes created by a walk start collapsed, so every node below the root stays collapsed |
| TreeBuilder.InsertKeepsBuilt | src/utils/tree-builder.ts:53-78 | one more key's walk keeps everything buildTree promises, for the keys seen plus that key |
| TreeBuilder.InsertAll | src/utils/tree-builder.ts:50-79 | the walks of the keys, one after the other, from the synthetic root; InsertAllBuilt states what the result satisfies |
| TreeBuilder.InsertAllBuilt | src/utils/tree-builder.ts:41-82 | the tree of the walks of all keys has a root named `root` with level -1, expanded and keyless; every key is found at the end of its path; the tree invariant holds; all other nodes are collapsed |
| TreeBuilder.BuildTree | src/utils/tree-builder.ts:41-82 | the loop leaves the tree of the walks of all keys, one after the other (what that tree satisfies is InsertAllBuilt), together with the chosen delimiter |
| TreeFlattener.Indent | src/utils/tree-builder.ts:94 | `'  '.repeat(level)`: two spaces per level |
| TreeFlattener.ExpandIcon | src/utils/tree-builder.ts:95 | two characters ending in a space; the first is not a space exactly when the node has children |
| TreeFlattener.RowOf | src/utils/tree-builder.ts:93-104 | a row copies the node's key, flag and level and records its path; it is a folder row exactly when the node has children; its display is 2·level + 2 characters of indent and icon, then the name |
| TreeFlattener.Rows | src/utils/tree-builder.ts:90-123 | what `traverse` pushes: the node's row unless it is the root, then its children's rows in sibling order when it is expanded or the root; RowsAreNodes, ShownHasRow, RowIsShown and RowsInPreOrder state what the rows are |
| TreeFlattener.Traverse | src/utils/tree-builder.ts:90-124 | traverse appends exactly the rows of the node's subtree to what was pushed before |
| TreeFlattener.TraverseChildren | src/utils/tree-builder.ts:120-122 | the loop over the sorted children appends their rows one child after the other |
| TreeFlattener.ChildRowsStep | src/utils/tree-builder.ts:120-122 | one more child adds exactly that child's rows at the end |
| TreeFlattener.FlattenTree | src/utils/tree-builder.ts:87-128 | the result is the pre-order row list of the whole tree |
| TreeFlattener.ChildRowsMembers | src/utils/tree-builder.ts:120-122 | a row among the children's rows comes from one of the children |
| TreeFlattener.RowOfChild | src/utils/tree-builder.ts:120-122 | a row of a child's subtree is a row of a node of the parent's subtree, with the child's name next on its path |
| TreeFlattener.RowsAreNodes | src/utils/tree-builder.ts:92-104 | every row is the row of the node its nodeRef path reaches: display is indent, icon and name; `isParent` iff it has children |
| TreeFlattener.ChildRowsAreNodes | src/utils/tree-builder.ts:120-122 | every row of the children's rows is a node's row below one of those children |
| TreeFlattener.ShownHasRow | src/utils/tree-builder.ts:92-123 | a node all of whose ancestors are expanded (or the root) has its row in the list |
| TreeFlattener.RowIsShown | src/utils/tree-builder.ts:92-123 | every row lies below the traversal's start and is of a node whose ancestors are all expanded |
| TreeFlattener.ShownStep | src/utils/tree-builder.ts:108 | visibility below an expanded child lifts to its parent |
| TreeFlattener.ExpandedAtChild | src/utils/tree-builder.ts:108 | the expanded flags along a path, read from the child |
| TreeFlattener.ShownWhenAncestorsExpanded | src/utils/tree-builder.ts:92-123 | below the root, a node has a row iff it exists and every ancestor on its path is expanded |
| TreeFlattener.RootShownWhenAncestorsExpanded | src/utils/tree-builder.ts:91-123 | from the root: never the root's own row, and a node has a row iff every non-root ancestor is expanded |
| TreeFlattener.PreOrderIrreflexive | src/utils/tree-builder.ts:90-126 | the pre-order on paths is irreflexive |
| TreeFlattener.RowsInPreOrder | src/utils/tree-builder.ts:90-126 | the rows come in pre-order: a node's row before its descendants, and a sibling's whole subtree before the next sibling |
| TreeFlattener.ChildRowsInPreOrder | src/utils/tree-builder.ts:120-122 | the children's rows in sorted sibling order are in pre-order |
| TreeFlattener.BelowChild | src/utils/tree-builder.ts:120-122 | the path of a row under a child starts with the child's name |
| TreeFlattener.CrossBlocks | src/utils/tree-builder.ts:110-122 | any row of an earlier sibling's subtree precedes, in pre-order, any row of a later sibling's subtree |
| TreeFlattener.RowsDistinct | src/utils/tree-builder.ts:90-126 | no node appears twice in the rows |
| TreeFlattener.CollapsedChildRows | src/utils/tree-builder.ts:108 | collapsed children give one row each, nothing below them |
| TreeFlattener.FreshTreeRows | src/utils/tree-builder.ts:66 | a freshly built tree flattens to one row per top-level segment |
| TreeFlattener.TopLevelCollapsed | src/utils/tree-builder.ts:62-68 | in a fresh tree the top-level nodes are collapsed, at level 0 and named by their segment |
| TreeFlattener.CollapsedTopRows | src/utils/tree-builder.ts:108-122 | collapsed top-level nodes give exactly their own rows in sibling order |
| TreeFlattener.RootRows | src/utils/tree-builder.ts:91-92 | the root contributes no row of its own |
| TreeFlattener.TopRowIsRowOf | src/utils/tree-builder.ts:93-103 | a collapsed top-level node's row is its display row at path `[name]` |
| TreeFlattener.IndexOf | src/utils/tree-builder.ts:120 | the position of a child among the sorted children, its first occurrence |
| TreeFlattener.ChildRowsPrefix | src/utils/tree-builder.ts:120-122 | the rows of the first k sorted children are a prefix of the rows of all of them |
| TreeFlattener.RowsSplitAt | src/utils/tree-builder.ts:90-126 | the rows of a visible node are preceded exactly by the rows of everything before it in pre-order |
| TreeFlattener.RowsSplitStep | src/utils/tree-builder.ts:90-126 | that split, lifted from a child to its expanded parent |
| TreeFlattener.RowsOfOpen | src/utils/tree-builder.ts:108-122 | an expanded node (or the root) has its row followed by its children's rows |
| TreeOps.ToggleAt | src/utils/tree-builder.ts:133-135 | toggling a node keeps its name, key, level and child names and flips its own flag only when the path is empty; ToggleAtFlipsOnlyTarget states the rest |
| TreeOps.ToggleAtTwice | src/utils/tree-builder.ts:133-135 | toggling a node twice restores the tree |
| TreeOps.ToggleAtSameShape | src/utils/tree-builder.ts:133-135 | toggling changes no name, key, level or child |
| TreeOps.SameShapeReflexive | src/utils/tree-builder.ts:133-135 | every tree has its own shape |
| TreeOps.ToggleAtFlipsOnlyTarget | src/utils/tree-builder.ts:133-135 | toggling flips the flag of that node only; every path still reaches a node iff it did |
| TreeOps.ChildRowsSameChildren | src/utils/tree-builder.ts:120-122 | the children's rows depend only on those children |
| TreeOps.ToggleKeepsRowsBefore | src/ui/components/tree-key-list.ts:118-127 | toggling a visible node leaves it visible and leaves every row before it unchanged |
| TreeOps.SetAll | src/utils/tree-builder.ts:140-155 | the node and each child carry the flag, names, keys, levels and child names unchanged; SetAllFlags extends this to the whole subtree |
| TreeOps.SetAllFlags | src/utils/tree-builder.ts:140-155 | expandAll/collapseAll set the flag on every node of the subtree and change nothing else |
| TreeOps.SetAllOverrides | src/utils/tree-builder.ts:140-155 | the last of two expand/collapse-all calls decides every flag |
| TreeOps.SetExpandedEverywhere | src/utils/tree-builder.ts:140-155 | the recursive walk sets the flag on the node and, child by child, on every descendant |
| TreeOps.ExpandAll | src/utils/tree-builder.ts:140-145 | every node of the subtree expanded, nothing else changed |
| TreeOps.CollapseAll | src/utils/tree-builder.ts:150-155 | every node of the subtree collapsed, nothing else changed |
| TreeOps.NodeCount | src/utils/tree-builder.ts:160-166 | at least one for a non-root node; a childless node counts one, or zero for the root |
| TreeOps.ChildNodeCountRemove | src/utils/tree-builder.ts:162-164 | the sum over children takes each child once, in any order |
| TreeOps.CountNodes | src/utils/tree-builder.ts:160-166 | one per non-root node of the subtree |
| TreeOps.NodeCountIsExpandedRows | src/utils/tree-builder.ts:160-166 | countNodes is the number of rows once everything is expanded |
| TreeOps.ExpandedChildRows | src/utils/tree-builder.ts:160-166 | the rows of expanded distinct children number their nodes |
| TreeOps.NameSetDropLast | src/utils/tree-builder.ts:162 | removing the last of distinct names from their set |
| TreeOps.LeafCount | src/utils/tree-builder.ts:171-180 | a node with a truthy key counts one and no more; a childless node without one counts zero |
| TreeOps.ChildLeafCountRemove | src/utils/tree-builder.ts:176-178 | the leaf sum over children takes each child once, in any order |
| TreeOps.CountLeafNodes | src/utils/tree-builder.ts:171-180 | one for a node with a truthy key, without descending; otherwise the sum over its children |
| TreeOps.LeafCountAtMostKeys | src/utils/tree-builder.ts:171-180 | countLeafNodes never exceeds the number of keys stored in the subtree |
| TreeOps.ChildLeafCountAtMostKeys | src/utils/tree-builder.ts:176-178 | the same bound, summed over distinct children |
| TreeOps.LeafCountPositive | src/utils/tree-builder.ts:171-180 | the count is positive iff some node of the subtree stores a non-empty key |
| TreeOps.ChildLeafCountPositive | src/utils/tree-builder.ts:176-178 | the sum over children is positive iff one child's count is |
| TreeOps.LeafCountStopsAtKey | src/utils/tree-builder.ts:172-174 | for keys `a` and `a:b` the count is 1 although two keys are stored |
| TreeOps.ExampleKeys | src/utils/tree-builder.ts:53-78 | the tree of `a` and `a:b` holds both keys |
| TreeOps.ExampleTree | src/utils/tree-builder.ts:53-78 | the tree of `a` and `a:b` is one folder `a` storing key `a` with one leaf `b` storing `a:b` |
| TreeOps.LeafCountSkipsEmptyKey | src/utils/tree-builder.ts:172 | the key `""` is stored but not counted, being falsy |
| TreeOps.ExampleDelimiter | src/utils/tree-builder.ts:26-36 | `a` and `a:b` detect `:` |
| TreeOps.SplitExamples | src/utils/tree-builder.ts:54 | `""` splits into `[""]`, `a` into `[a]`, `a:b` into `[a, b]` |
| TreeOps.KeysUnder | src/ui/components/tree-key-list.ts:89 | the node's own key comes first; a childless node yields its key alone, or nothing; KeysUnderFolder states the membership |
| TreeOps.KeyAtIsUnder | src/ui/components/tree-key-list.ts:89 | every key stored in a subtree is collected by the keys-under-a-node traversal |
| TreeOps.ChildKeysHas | src/ui/components/tree-key-list.ts:89 | a key under one child is among the children's keys |
| TreeOps.UnderIsKeyAt | src/ui/components/tree-key-list.ts:89 | every collected key is stored at some path of the subtree |
| TreeOps.UnderChildKeys | src/ui/components/tree-key-list.ts:89 | every key among the children's keys is stored below the node |
| TreeOps.WellFormedKeyAt | src/utils/tree-builder.ts:53-78 | in a built tree a stored key is an input key that splits into its path |
| TreeOps.WellFormedNodeAt | src/utils/tree-builder.ts:53-78 | every subtree of a well-formed tree is well-formed at its path |
| TreeOps.KeysUnderFolder | src/ui/components/tree-key-list.ts:89 | the keys under the node at path p are exactly the loaded keys whose segments start with p |
| TreeOps.ChildKeysFrom | src/ui/components/tree-key-list.ts:89 | a key among the children's keys comes from one of the children |
| TreeOps.KeysUnderDistinct | src/ui/components/tree-key-list.ts:89 | the collected keys of a built tree hold no duplicates |
| TreeOps.ChildKeysDistinct | src/ui/components/tree-key-list.ts:89 | nor do the keys collected from distinct children |
| TreeOps.KeyUnderSplits | src/ui/components/tree-key-list.ts:89 | a collected key is loaded and its segments start with the node's path |
| TreeOps.KeyBelowChild | src/ui/components/tree-key-list.ts:89 | a key below a child has that child's name as its next segment |
| TreeOps.DistinctCard | src/ui/components/tree-key-list.ts:89-90 | a list without duplicates is as long as its set |
| TreeOps.FolderKeyCount | src/ui/components/tree-key-list.ts:89-90 | the number of keys under a folder is the number of distinct loaded keys whose segments start with its path |
| KeyManagement.FirstTerminal | src/redis/key-manager.ts:25-32 | the reply that ends the loop: the first one that fails or returns cursor 0 |
| KeyManagement.Scan | src/redis/key-manager.ts:22-32 | first call at cursor 0, each next call at the returned cursor, MATCH pattern and COUNT 100 on every call, stop exactly at the first cursor 0; on success the batches' keys in order |
| KeyManagement.InsertSorted | src/redis/key-manager.ts:34 | inserting into a sorted list keeps it sorted and adds exactly that key |
| KeyManagement.SortedCons | src/redis/key-manager.ts:34 | a key not above any in a sorted list can go in front |
| KeyManagement.SortKeys | src/redis/key-manager.ts:34 | `sort()` gives an ascending permutation of the keys, duplicates kept |
| KeyManagement.Matches | src/redis/key-manager.ts:59-61 | case-insensitive `includes`; an empty term matches every key |
| KeyManagement.FilterMatching | src/redis/key-manager.ts:57-61 | every key matching case-insensitively is kept with its multiplicity and no other key |
| KeyManagement.FilterKeepsOrder | src/redis/key-manager.ts:59-61 | the kept keys are a subsequence of the loaded keys, in their order, and all match |
| KeyManagement.FilterEmptyTerm | src/redis/key-manager.ts:55-56 | the empty-term shortcut agrees with filtering by the empty term |
| KeyManagement.FilterSorted | src/redis/key-manager.ts:59-61 | filtering sorted keys leaves them sorted |
| KeyManagement.FilterKeepsAll | src/redis/key-manager.ts:119-125 | the filter keeps the length iff it returns the keys unchanged iff every key matches |
| KeyManagement.LowerCharIdempotent | src/redis/key-manager.ts:58-60 | lower-casing a character twice is lower-casing it once |
| KeyManagement.LowerIdempotent | src/redis/key-manager.ts:58-60 | lower-casing a string twice is lower-casing it once |
| KeyManagement.MatchesIgnoresCase | src/redis/key-manager.ts:58-60 | a match is not changed by lower-casing the key or the term |
| KeyManagement.FilterIgnoresTermCase | src/redis/key-manager.ts:58-61 | a term and its lower-cased form keep the same keys |
| KeyManagement.Visible | src/redis/key-manager.ts:55-61 | all keys for an empty term; otherwise a key is shown exactly when it is loaded and matches |
| KeyManagement.VisibleSpec | src/redis/key-manager.ts:52-65 | the shown keys are sorted and are exactly the matching loaded keys, with multiplicities |
| KeyManagement.KeyManager.constructor | src/redis/key-manager.ts:7-12 | no keys, pattern `*`, empty search term |
| KeyManagement.KeyManager.LoadKeys | src/redis/key-manager.ts:20-44 | pattern recorded first; the SCAN requests start at cursor 0, each carries MATCH pattern and COUNT 100, each later one sends the cursor the previous reply returned, and they stop at the first failed or cursor-0 reply; on a failed SCAN the key lists are untouched; on success the keys are the sorted permutation of the scanned batches and the shown keys are refiltered by the kept term and returned |
| KeyManagement.KeyManager.FilterKeys | src/redis/key-manager.ts:52-65 | the term is recorded and the shown keys are all keys for the empty term, else the matching ones; nothing else changes |
| KeyManagement.KeyManager.ClearFilter | src/redis/key-manager.ts:72-76 | empty term, every key shown, the same state as filtering by the empty term |
| KeyManagement.KeyManager.GetAllKeys | src/redis/key-manager.ts:83-85 | the loaded keys, sorted |
| KeyManagement.KeyManager.GetFilteredKeys | src/redis/key-manager.ts:92-94 | the shown keys, sorted, exactly the matching loaded keys |
| KeyManagement.KeyManager.GetCurrentPattern | src/redis/key-manager.ts:101-103 | the recorded pattern |
| KeyManagement.KeyManager.GetCurrentSearchTerm | src/redis/key-manager.ts:110-112 | the recorded term |
| KeyManagement.KeyManager.GetCounts | src/redis/key-manager.ts:119-125 | the two lengths, filtered at most total, `isFiltered` iff they differ iff some loaded key does not match |
| TreeKeyList.SameShapeTransitive | src/utils/tree-builder.ts:133-135 | toggles one after another keep the built tree's shape |
| TreeKeyList.KeysUnderSameShape | src/ui/components/tree-key-list.ts:89 | the keys under a node do not depend on expanded flags |
| TreeKeyList.ChildKeysSameShape | src/ui/components/tree-key-list.ts:89 | nor do the keys under its children |
| TreeKeyList.NonRootHasKeys | src/ui/components/tree-key-list.ts:84-94 | every node below the root of a built tree has at least one key under it |
| TreeKeyList.RowIsBuiltNode | src/ui/components/tree-key-list.ts:65-102 | every row of the view is the row of a node of the tree its path reaches; its key is the key stored there and `isParent` says whether that node has children |
| TreeKeyList.PrefixKeyMatchesPath | src/ui/components/tree-key-list.ts:73-82 | a key whose segments start with a folder's path is the joined path or starts with it and the delimiter |
| TreeKeyList.PathMatchesPrefixKey | src/ui/components/tree-key-list.ts:73-82 | conversely, for a one-character delimiter and separator-free segments |
| TreeKeyList.PathSegmentsFree | src/utils/tree-builder.ts:54 | the segments of a built tree's paths never contain the one-character delimiter |
| TreeKeyList.FolderPathSelectsKeys | src/ui/components/tree-key-list.ts:73-94 | the keys under a folder are exactly the loaded keys equal to its joined path or starting with it and the delimiter |
| TreeKeyList.DetectedIsOneChar | src/utils/tree-builder.ts:27 | the detected delimiter is one character |
| TreeKeyList.FolderRowExample | src/ui/components/tree-key-list.ts:73-82 | for keys `a` and `a:b` the only row is the folder `a` |
| TreeKeyList.FreshConsistent | src/ui/components/tree-key-list.ts:53-63 | a freshly built tree and its rows satisfy the view invariant, and the rows are the top-level nodes |
| TreeKeyList.ToggleConsistent | src/ui/components/tree-key-list.ts:116-127 | toggling the selected node and re-flattening keeps the view invariant, flips that node and keeps the rows up to and including the selected one in place |
| TreeKeyList.ToggleKeepsSelection | src/ui/components/tree-key-list.ts:122-127 | after re-flattening, the same index still selects the toggled node and the rows above it are unchanged |
| TreeKeyList.TreeKeyListWidget.constructor | src/ui/components/tree-key-list.ts:50-51 | no tree, no rows |
| TreeKeyList.TreeKeyListWidget.UpdateItems | src/ui/components/tree-key-list.ts:53-63 | the tree is rebuilt from the keys with the detected delimiter and the rows are exactly its top-level nodes |
| TreeKeyList.TreeKeyListWidget.GetSelectedKey | src/ui/components/tree-key-list.ts:65-71 | out of range: nothing; otherwise the key stored at the selected node, folder or not, a loaded key splitting into the row's path |
| TreeKeyList.TreeKeyListWidget.IsSelectedItemFolder | src/ui/components/tree-key-list.ts:96-102 | true iff the index is in range and the selected node has children |
| TreeKeyList.TreeKeyListWidget.GetSelectedFolderKeyCount | src/ui/components/tree-key-list.ts:84-94 | on a folder row the number of distinct loaded keys under its path, at least one; otherwise 0 |
| TreeKeyList.TreeKeyListWidget.GetSelectedFolderPathAsWritten | src/ui/components/tree-key-list.ts:73-82 | the code as written: nothing for every selection, a folder row included |
| TreeKeyList.TreeKeyListWidget.GetSelectedFolderPath | src/ui/components/tree-key-list.ts:73-82 | on a folder row, and only there, the row's path segments joined with the delimiter, a string that selects exactly the keys under the folder; otherwise nothing |
| TreeKeyList.TreeKeyListWidget.GetDelimiter | src/ui/components/tree-key-list.ts:104-109 | `:` before any tree; afterwards the delimiter the tree was built with; always a candidate |
| TreeKeyList.TreeKeyListWidget.ToggleCurrentNode | src/ui/components/tree-key-list.ts:111-132 | on a folder row: that node flipped, rows re-flattened, the same index on the same node; on a leaf row or out of range: nothing changes |
| TreeKeyList.TreeKeyListWidget.ExpandCurrentNode | src/ui/components/tree-key-list.ts:145-153 | right arrow: a folder row ends expanded; a collapsed one is toggled (the tree is the old tree toggled at the row's path, the rows are its flattening, the rows before the selection and the selected node stay in place); an already expanded one is left alone |
| TreeKeyList.TreeKeyListWidget.CollapseCurrentNode | src/ui/components/tree-key-list.ts:156-164 | left arrow: a folder row ends collapsed; an expanded one is toggled (the tree is the old tree toggled at the row's path, the rows are its flattening, the rows before the selection and the selected node stay in place); an already collapsed one is left alone |
| Formatters.IntToString | src/utils/formatters.ts:42 | a template literal's number: non-empty, begins with a minus sign exactly for a negative number, digits only otherwise |
| Formatters.NatToString | src/utils/formatters.ts:42 | the decimal digits of a number, at least one, no leading zero |
| Formatters.NatToStringValue | src/utils/formatters.ts:42 | the digits read back as the number |
| Formatters.JsRem | src/utils/formatters.ts:38-39 | JavaScript `%` (truncated): below the divisor in size, with the sign of the dividend, and it differs from the dividend by a multiple of the divisor |
| Formatters.Hours | src/utils/formatters.ts:37 | `Math.floor(ttl / 3600)`: the whole hours, hours·3600 ≤ ttl < (hours + 1)·3600 |
| Formatters.Minutes | src/utils/formatters.ts:38 | `Math.floor((ttl % 3600) / 60)`: between -60 and 59, not negative for a TTL of zero or more |
| Formatters.Seconds | src/utils/formatters.ts:39 | `ttl % 60`: strictly between -60 and 60, with the sign of the TTL |
| Formatters.FormatTtl | src/utils/formatters.ts:21-47 | raw TTL kept; -1 is "No expiration" (key exists, no expiry), -2 is "Key does not exist"; any other value has an expiry; an expiry implies the key exists |
| Formatters.TtlDecomposition | src/utils/formatters.ts:37-39 | for a TTL of zero or more: hours·3600 + minutes·60 + seconds is the TTL, minutes and seconds below 60 |
| Formatters.ModSixtyUnique | src/utils/formatters.ts:39 | `ttl % 60` is the seconds left after whole minutes |
| Formatters.ParseUnitOf | src/utils/formatters.ts:42 | a number followed by its unit letter reads back as the number |
| Formatters.SplitDisplay | src/utils/formatters.ts:42 | the display splits at its two spaces into hours, minutes and seconds |
| Formatters.DisplayRoundTrip | src/utils/formatters.ts:37-42 | the display of a TTL of zero or more reads back as that TTL |
| Formatters.FormatTtlDetails | src/utils/formatters.ts:55-67 | the display alone for a missing key or no expiry; otherwise "<ttl> seconds", a line break and the display in parentheses |
| Formatters.SplitDetails | src/utils/formatters.ts:66 | the details split at their one line break |
| Formatters.DetailsLines | src/utils/formatters.ts:55-67 | for a TTL of zero or more, two lines: the seconds count, which reads back as the TTL, and the parenthesised display, which does too |

## Left out

- `localeCompare` (sibling names) and the default `sort()` (loaded keys)
  are both modelled as lexicographic order on characters; locale
  collation is not modelled.
- Strings.StrLt: compares Unicode code points, while JavaScript's default
  `sort()` compares UTF-16 code units, so keys holding characters above
  U+FFFF can sort differently than in JavaScript.
- `toLowerCase` is modelled on ASCII letters only.
- KeyManagement.KeyManager.LoadKeys: the default argument of
  `loadKeys(pattern = '*')` is not modelled; every caller passes the
  pattern.
- `Map` insertion order is not modelled: the children are a map, the
  flattening sorts them, the counts are sums over the set of children, and
  the keys under a folder are collected in sorted sibling order (only their
  membership and number are used).
- In-place mutation through object references is modelled on values: a
  row's `nodeRef` is the path of its node and `toggleNode` rebuilds the
  tree along that path (`TreeOps.ToggleAt`); the per-key cursor walk of
  `buildTree` is the recursive function `TreeBuilder.InsertPath` inside
  the loop over keys; `expandAll`/`collapseAll` return the updated tree.
  Aliasing between `allKeys` and `filteredKeys` (the same array after an
  empty-term filter) is not modelled; both are values.
- `getAllKeysUnderNode` and `getTreeDelimiter`, imported by
  `src/ui/components/tree-key-list.ts:2`, are not defined in
  `src/utils/tree-builder.ts` and are not part of this model: the first is
  modelled as the collection of every stored key of the subtree
  (`TreeOps.KeysUnder`), the second as the delimiter the tree was built
  with, kept beside the root.
- The blessed widget (rendering, `setItems`, `select`, `screen.render`,
  key bindings other than the arrow guards) is left out; the selection
  index is a parameter of each query.
- The network: SCAN replies are an input sequence, one reply per call, and
  some reply must end the loop (a real store's cursor returns to 0); an
  exception from a SCAN call is a `Failed` reply that ends `LoadKeys`
  with a failure. `parseInt` of the cursor string is not modelled (the
  cursor is a number). `async`/`await` is sequential.
- Numbers are unbounded integers; TTLs are integers, as the store reports
  them. `Formatters.FormatTtl` computes hours, minutes and seconds of a
  negative TTL other than -1 and -2 with JavaScript's rounding and
  remainder, but the decomposition and read-back properties are stated
  for TTLs of zero or more only.
- `Formatters.DisplayRoundTrip`, `Formatters.DetailsLines`: stated for TTLs
  of zero or more only; below zero the display has a minus sign and the
  parts do not add up in general.
- The code does not remove duplicate keys returned by SCAN and there is no
  local key removal; the model follows the code.

## Findings

| source | as written | input that shows it | evidently intended | confidence | as-written member | corrected member |
|---|---|---|---|---|---|---|
| src/ui/components/tree-key-list.ts:78 | returns `item.fullPath`, a field display rows never have, so every folder row gives `undefined` | keys `a` and `a:b`, selection 0 (the folder `a`, see `TreeKeyList.FolderRowExample`) | the folder's path joined with the delimiter (`a`), the prefix that selects the keys under the folder | not executed | TreeKeyList.TreeKeyListWidget.GetSelectedFolderPathAsWritten | TreeKeyList.TreeKeyListWidget.GetSelectedFolderPath |
