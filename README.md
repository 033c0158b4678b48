# org.zlzh.ds in Dafny

This project models the core of the `org.zlzh.ds` Java library and proves properties of that model:

- **`ExtendibleArray`** (module `ExtendibleArrays`, `extendible_array.dfy`): a list with worst-case O(1) append.
  - It keeps two buffers: `newArr` and the previous, half-sized `oldArr`.
  - Two cursors, `shadow` and `end`, mark its contents.
  - Each append migrates exactly one element from the old buffer to the new one.
  - Slot 0 of each buffer is a sentinel.
  - The class has a ghost list `elems` and a `Valid()` invariant. Every public operation is proved against that list.
  - The invariant covers several facts:
    - the buffer length is a power of two;
    - `shadow + end == newArr.Length - 1`;
    - `-1 <= shadow < end <= newArr.Length`;
    - the old buffer is half the new one.
  - From these, the lemma `NewRegionEven` derives that the new-buffer region holds an even number of slots.
- **`Escaper`** (module `Escaping`, `escaper.dfy`): a table-driven string rewriter. It scans left to right; the first mapping whose source matches wins, its dest is emitted and its whole source is skipped.
  - `applyMappings` is a method. It is proved equal to the specification function `Apply`.
  - For the table that `Tree` uses, two properties are proved:
    - `unescape(escape(s)) == s`;
    - escaped text contains no delimiter.
  - Every mapping source must be non-empty. This is the `SourcesNonEmpty` precondition. Once an empty source is the first match at some position, the scan stops advancing there and the loop never ends (`Escaping.EmptySourceStalls`).
- **`Tree`**: the n-ary tree.
  - Its downward recursive queries live in module `Trees` (`trees.dfy`) and run over an immutable snapshot `Node(data, children)`: `treesAtDepth`, `maxDepth`, `gatherLeaves`, `getPaths` and `toString(Escaper)`.
  - Its mutable side is the class `TreeNodes.TreeNode` (`tree_nodes.dfy`). It has the fields `data`, `children` (null until the first child) and `parent`, and carries `addChild`, `prune`, `pruneChildren` and `clear`.
  - The parent walks are methods on the class: `depth`, `depth(ancestor)`, `getRoot`, `isAncestor`, `isDescendant`, `getPath` and `getDeepestCommonAncestor`. Each takes a ghost `chain` of ancestors, which stands for the finiteness of the parent chain that the source relies on.
- **Tree iterators** (module `TreeIterators`, `tree_iterators.dfy`): breadth-first, depth-first and reverse depth-first.
  - Each is a class with a pending list and `lastNode`.
  - A full run is proved to be the level order (`TreesAtDepth(t, 0) + TreesAtDepth(t, 1) + ...`), the preorder, or the reversed preorder.
  - `skip()` right after `next()` removes exactly the children that `next` added.
- **`BinaryTree`** (module `BinaryTrees`, `binary_trees.dfy`):
  - `find`: the first preorder match;
  - the stack-based `preorder` and `inorder` loops, proved equal to the recursive orders;
  - the recursive `postorder`;
  - the preorder iterator `PreItr`;
  - the stub in-order and post-order iterators.

Java exceptions become results: `Result`/`Outcome` values carrying `IndexOutOfBounds`, `NoSuchElement` or `EmptyStack`. A Java `null` becomes `Option.None`, `Nil` or a nullable reference.

## Model

| member | source | states |
|---|---|---|
| ExtendibleArrays.ExtendibleArray.constructor | src/main/java/org/zlzh/ds/ExtendibleArray.java:116-141 | A new array is empty and valid: one sentinel slot, no old buffer, `shadow == -1`, `end == 1`. |
| ExtendibleArrays.ExtendibleArray.Bounds | src/main/java/org/zlzh/ds/ExtendibleArray.java:140-141 | Under `Valid()`: `shadow == -1` exactly when `end == newArr.Length`; a used old buffer has room for `shadow + 2` slots; `shadow >= 1` leaves two spare slots past `end`. These facts keep the final copy of `remove` in bounds. |
| ExtendibleArrays.ExtendibleArray.NewRegionEven | src/main/java/org/zlzh/ds/ExtendibleArray.java:267-270 | Once the buffer has two or more slots, the new-buffer region `end - shadow - 1` is even and at least 2. |
| ExtendibleArrays.ExtendibleArray.Size | src/main/java/org/zlzh/ds/ExtendibleArray.java:216-222 | `size()` is the length of the represented list and is never negative. |
| ExtendibleArrays.ExtendibleArray.Get | src/main/java/org/zlzh/ds/ExtendibleArray.java:195-208 | Fails with IndexOutOfBounds exactly when `index < 0 \|\| index >= size()`; otherwise returns element `index`. The old buffer is read exactly when `index + 1 <= shadow` (through `Valid`). |
| ExtendibleArrays.ExtendibleArray.Set | src/main/java/org/zlzh/ds/ExtendibleArray.java:235-249 | Returns the previous `get(index)`, including its failure. On success, the list is the old list with position `index` replaced and every other position unchanged; no buffer or cursor changes. |
| ExtendibleArrays.ExtendibleArray.Add | src/main/java/org/zlzh/ds/ExtendibleArray.java:152-183 | Returns true and appends the element, so `size()` grows by one. It reallocates (new buffer twice as long, the current one becoming the old one) exactly when `end == newArr.Length`, and otherwise keeps both buffers. `Valid()` is preserved. |
| ExtendibleArrays.ExtendibleArray.Promote | src/main/java/org/zlzh/ds/ExtendibleArray.java:156-168 | The doubling step: the current buffer becomes the old one, a fresh buffer twice as long and still a power of two becomes current, `shadow == end - 1`, and every element is then read from the old buffer. |
| ExtendibleArrays.ExtendibleArray.Demote | src/main/java/org/zlzh/ds/ExtendibleArray.java:346-356 | The halving step, once the new region is empty: the old buffer becomes current, `shadow == -1`, `end == newArr.Length`, the list is unchanged and `Valid()` holds again. |
| ExtendibleArrays.ExtendibleArray.RemoveFromNew | src/main/java/org/zlzh/ds/ExtendibleArray.java:288-305 | The new-buffer branch of `remove` deletes position `index` from the list, moves one element back to the old buffer, and advances `shadow` and retreats `end` by one. |
| ExtendibleArrays.ExtendibleArray.RemoveFromOld | src/main/java/org/zlzh/ds/ExtendibleArray.java:306-341 | The old-buffer branch of `remove`, including its two-slot copy loop, deletes position `index` from the list with the same cursor changes. |
| ExtendibleArrays.ExtendibleArray.Remove | src/main/java/org/zlzh/ds/ExtendibleArray.java:261-359 | Returns the former `get(index)`, including its failure, before any write. On success, the list is the old one with position `index` deleted. It demotes exactly when `end == shadow + 3` before the call, leaving `shadow == -1` and `end == newArr.Length`. `Valid()` is preserved. |
| ExtendibleArrays.ArrayCopy | src/main/java/org/zlzh/ds/ExtendibleArray.java:392-405 | `System.arraycopy` within one array: the destination range receives the old contents of the source range, as if copied through a temporary buffer, and nothing else changes. |
| ExtendibleArrays.Inserted | src/main/java/org/zlzh/ds/ExtendibleArray.java:362-368 | The documented contract of `add(index, elem)`: one longer, `elem` at `index`, earlier positions kept, later ones shifted up by one. |
| ExtendibleArrays.Removed | src/main/java/org/zlzh/ds/ExtendibleArray.java:251-258 | The documented contract of `remove(index)`: one shorter, earlier positions kept, later ones shifted down by one. |
| ExtendibleArrays.ShiftedAfterAppend | src/main/java/org/zlzh/ds/ExtendibleArray.java:392-408 | After the append, shifting with length `size - index` gives the documented insertion. The source's length, one shorter, gives `InsertedAsWritten`. |
| ExtendibleArrays.InsertedAsWritten | src/main/java/org/zlzh/ds/ExtendibleArray.java:392-400 | What the source's copy lengths produce: the intended insertion on the first `size` positions, but the last position holds `elem` instead of the old last element. |
| ExtendibleArrays.AsWrittenInsertAgrees | src/main/java/org/zlzh/ds/ExtendibleArray.java:392-400 | The as-written insertion equals the documented one exactly when the old last element already equals `elem`. |
| ExtendibleArrays.AsWrittenInsertExample | src/main/java/org/zlzh/ds/ExtendibleArray.java:370-415 | On `[1,2,4,5]`, `add(2,3)` as written yields `[1,2,3,4,3]`; the documented result is `[1,2,3,4,5]`. |
| ExtendibleArrays.ExtendibleArray.AddAt | src/main/java/org/zlzh/ds/ExtendibleArray.java:370-416 | `add(index, elem)` as written. It rejects indices outside `0..size()` before any write. For `index < size()` it succeeds with `InsertedAsWritten`. For `index == size()` the element has already been appended when the copy of length -1 fails. |
| ExtendibleArrays.ExtendibleArray.ShiftAsWritten | src/main/java/org/zlzh/ds/ExtendibleArray.java:389-414 | The shifts after the append, with the source's lengths: they fail for `index == size` and otherwise give `InsertedAsWritten`. |
| ExtendibleArrays.ExtendibleArray.InsertAt | src/main/java/org/zlzh/ds/ExtendibleArray.java:362-416 | `add(index, elem)` with the copy lengths one longer: it succeeds exactly for `0 <= index <= size()` and then yields `Inserted` (the documented contract), and fails without change otherwise. |
| ExtendibleArrays.WorkedExample | src/main/java/org/zlzh/ds/ExtendibleArray.java:370-416 | Four appends then `add(2, 3)`: `get(4)` then returns 3, not 5. |
| Escaping.NewEscaper | src/main/java/org/zlzh/util/Escaper.java:33-50 | Succeeds exactly when `0 <= normalSetIndex <= mappings.length`. On success, every pair is stored forward, the first `normalSetIndex` pairs are stored flipped as the special back mappings, and the rest are stored flipped as the normal ones, all in order. |
| Escaping.FirstMatch | src/main/java/org/zlzh/util/Escaper.java:74-93 | The index of the first mapping whose source matches at the front, and that none before it matches, or that none matches at all. |
| Escaping.MatchesAtIndexwise | src/main/java/org/zlzh/util/Escaper.java:78-85 | A source matches when every character it shares with the rest of the input agrees, so a source running past the end can still match. |
| Escaping.Advance | src/main/java/org/zlzh/util/Escaper.java:87-97 | With non-empty sources, one scan step consumes between 1 and the remaining number of characters, and exactly one when nothing matches. |
| Escaping.EmptySourceStalls | src/main/java/org/zlzh/util/Escaper.java:79-92 | A first-matching empty source consumes nothing, so the scan would never end. |
| Escaping.ApplyMappings | src/main/java/org/zlzh/util/Escaper.java:67-102 | A null input gives the empty string; otherwise the output is `Apply`: at each position the dest of the first matching mapping, or the character itself. |
| Escaping.ApplyInventsNothing | src/main/java/org/zlzh/util/Escaper.java:67-102 | About `Apply`, the specification of the scan against which `applyMappings` is proved: the rewriter invents no characters, so every output character comes from the input or from the dest of some mapping. |
| Escaping.ScanStep | src/main/java/org/zlzh/util/Escaper.java:74-97 | One pass of the mapping loop emits what `Emitted` says and advances by `Advance`. |
| Escaping.FindMapping | src/main/java/org/zlzh/util/Escaper.java:75-93 | The mapping loop stops at `FirstMatch`. |
| Escaping.SourceMatches | src/main/java/org/zlzh/util/Escaper.java:78-85 | The character loop decides `MatchesAt`. |
| Escaping.ApplySingleChar | src/main/java/org/zlzh/util/Escaper.java:67-102 | With one-character sources, applying the mappings replaces each character by its code independently. |
| Escaping.CopyThrough | src/main/java/org/zlzh/util/Escaper.java:95-97 | A stretch where no source matches is copied unchanged. |
| Escaping.MatchStep | src/main/java/org/zlzh/util/Escaper.java:87-91 | A full-length first match emits its dest and resumes right after it. |
| Escaping.BuildTreeEscaper | src/main/java/org/zlzh/ds/tree/Tree.java:687-699 | Constructing `Tree`'s table with split index 2 succeeds and gives `TreeEscaper`. |
| Escaping.TreeEscape | src/main/java/org/zlzh/util/Escaper.java:55-57 | With `Tree`'s table, escaping replaces each character by its code: `&amp;`, `&sc;`, `&space;`, `&dq;`, `&lp;`, `&rp;`, `&lsb;`, `&rsb;`, or itself. |
| Escaping.Escape | src/main/java/org/zlzh/util/Escaper.java:55-57 | `escape` applies the forward mappings: every output character comes from the input or from a forward dest. |
| Escaping.Unescape | src/main/java/org/zlzh/util/Escaper.java:62-65 | `unescape` applies the normal back mappings, then the special ones: every output character comes from the input or from a dest of either back table. |
| Escaping.NormalPass | src/main/java/org/zlzh/util/Escaper.java:62-63 | The normal back mappings turn the escaped text into an intermediate form where only `&amp;` and `&sc;` remain escaped. |
| Escaping.SpecialPass | src/main/java/org/zlzh/util/Escaper.java:62-64 | The special back mappings then restore the original text. |
| Escaping.TreeRoundTrip | src/main/java/org/zlzh/util/Escaper.java:62-65 | For `Tree`'s table, `unescape(escape(s)) == s` for every string. |
| Escaping.TreeEscapeHasNoDelimiter | src/main/java/org/zlzh/ds/tree/Tree.java:579-599 | With `Tree`'s table, escaped text contains no space, double quote, parenthesis or square bracket. |
| Escaping.TruncatedExampleSpecial | src/main/java/org/zlzh/util/Escaper.java:79-90 | The prefix `&a` at the end of the input matches `&amp;`, so the special back pass turns `x&a` into `x&`. |
| Escaping.TruncatedMatchExample | src/main/java/org/zlzh/util/Escaper.java:62-65 | With `Tree`'s table, `unescape("x&a") == "x&"`. |
| Trees.CollectTreesAtDepth | src/main/java/org/zlzh/ds/tree/Tree.java:270-282 | The loop computes `TreesAtDepth`: `[t]` at depth 0, nothing at a negative depth, and the children's results one level up, concatenated left to right. |
| Trees.EmptyLevel | src/main/java/org/zlzh/ds/tree/Tree.java:270-302 | Level `d` is empty exactly when `d < 0` or `d >= maxDepth()`. |
| Trees.ComputeMaxDepth | src/main/java/org/zlzh/ds/tree/Tree.java:289-302 | The loop computes `MaxDepth`: 1 plus the largest child depth. |
| Trees.ForestHeightIsMax | src/main/java/org/zlzh/ds/tree/Tree.java:292-299 | The children's height bounds every child's depth and is attained by one of them; it is 0 with no children. |
| Trees.MaxDepthPositive | src/main/java/org/zlzh/ds/tree/Tree.java:284-302 | `maxDepth() >= 1`, and it is 1 for a leaf. |
| Trees.GatherLeavesInto | src/main/java/org/zlzh/ds/tree/Tree.java:500-514 | `_gatherLeaves` appends `GatherLeaves(t)`, the leaves from left to right, to the accumulated list. |
| Trees.LeavesAreLeaves | src/main/java/org/zlzh/ds/tree/Tree.java:500-514 | Every gathered node is a leaf, and there is at least one. |
| Trees.ComputePathsAux | src/main/java/org/zlzh/ds/tree/Tree.java:553-568 | The loop computes `PathsAux`. |
| Trees.PathsMatchLeaves | src/main/java/org/zlzh/ds/tree/Tree.java:553-568 | There is one path per leaf. Each path extends the base path with this node's data and ends with the data of the corresponding leaf. |
| Trees.GetPathsMatchLeaves | src/main/java/org/zlzh/ds/tree/Tree.java:350-352 | `getPaths()` has one path per gathered leaf, in the same order. Each path starts with the root's data and ends with its leaf's data. |
| Trees.Print | src/main/java/org/zlzh/ds/tree/Tree.java:579-599 | The loop builds `ToString`: a leaf prints its escaped label; an inner node prints `(`, its escaped label, a space and child string for each child, and `)`. |
| Trees.PrintedBalanced | src/main/java/org/zlzh/ds/tree/Tree.java:579-599 | With `Tree`'s table, the printed form has as many `(` as `)`. |
| Trees.LeafPrintsOneToken | src/main/java/org/zlzh/ds/tree/Tree.java:579-588 | With `Tree`'s table, a leaf prints without any delimiter. |
| Trees.Reverse | src/main/java/org/zlzh/ds/tree/Tree.java:338-348 | A reversed list has the same length, with position `i` holding position `len - 1 - i`. |
| TreeNodes.TreeNode.constructor | src/main/java/org/zlzh/ds/tree/Tree.java:52-56 | A new node has its data, no children list and no parent. |
| TreeNodes.TreeNode.HasChildrenIffList | src/main/java/org/zlzh/ds/tree/Tree.java:74-80 | Under the children invariant, `hasChildren()` holds exactly when the list is non-null, and `numChildren()` counts it. |
| TreeNodes.TreeNode.AddChild | src/main/java/org/zlzh/ds/tree/Tree.java:327-333 | Creates the list on demand and appends the child last. The child's parent becomes this node, `numChildren()` rises by one, and nothing else changes. |
| TreeNodes.TreeNode.AddChildData | src/main/java/org/zlzh/ds/tree/Tree.java:321-325 | A fresh node for the data becomes the last child. |
| TreeNodes.TreeNode.Prune | src/main/java/org/zlzh/ds/tree/Tree.java:442-444 | Only the parent pointer is cleared. |
| TreeNodes.TreeNode.PruneFrom | src/main/java/org/zlzh/ds/tree/Tree.java:449-457 | Optionally removes the first occurrence of this node from the parent's list and nulls a list that becomes empty; optionally clears the parent. The parent's list stays null or non-empty. |
| TreeNodes.TreeNode.PruneChildren | src/main/java/org/zlzh/ds/tree/Tree.java:479-485 | Returns the old list and nulls it. |
| TreeNodes.TreeNode.Clear | src/main/java/org/zlzh/ds/tree/Tree.java:490-495 | Leaves the list null. |
| TreeNodes.TreeNode.Depth | src/main/java/org/zlzh/ds/tree/Tree.java:105-113 | The number of parent hops to the root; it is 0 exactly for a root. |
| TreeNodes.TreeNode.DepthFrom | src/main/java/org/zlzh/ds/tree/Tree.java:118-126 | The number of hops until the ancestor, or to the root when the ancestor is not on the chain. |
| TreeNodes.TreeNode.GetRoot | src/main/java/org/zlzh/ds/tree/Tree.java:228-234 | The last node of the parent chain, or the node itself; it has no parent. |
| TreeNodes.TreeNode.IsAncestor | src/main/java/org/zlzh/ds/tree/Tree.java:243-251 | True exactly when this node is on the other node's parent chain; never for the node itself. |
| TreeNodes.TreeNode.IsDescendant | src/main/java/org/zlzh/ds/tree/Tree.java:260-262 | True exactly when the other node is on this node's parent chain; never for the node itself. |
| TreeNodes.NotOwnAncestor | src/main/java/org/zlzh/ds/tree/Tree.java:236-251 | No node occurs on its own parent chain. |
| TreeNodes.ParentChainUnique | src/main/java/org/zlzh/ds/tree/Tree.java:105-113 | The parent pointers determine the chain. |
| TreeNodes.TreeNode.GetPath | src/main/java/org/zlzh/ds/tree/Tree.java:338-348 | The nodes from the root down to this one: the chain reversed, ending with this node. |
| TreeNodes.TreeNode.DeepestCommonAncestor | src/main/java/org/zlzh/ds/tree/Tree.java:517-536 | Null for a null argument; otherwise the last node of the longest common prefix of the two root paths, null when the roots differ. |
| TreeNodes.WalkPaths | src/main/java/org/zlzh/ds/tree/Tree.java:524-533 | The lock-step loop over both paths keeps the last node on which they agree. |
| TreeNodes.CommonPrefix | src/main/java/org/zlzh/ds/tree/Tree.java:524-533 | The common prefix of two paths: the lists agree up to it and differ at it, when both go on. |
| TreeNodes.CommonPrefixUnique | src/main/java/org/zlzh/ds/tree/Tree.java:524-533 | Any length at which the paths stop agreeing is the common prefix. |
| TreeNodes.RemoveFirst | src/main/java/org/zlzh/ds/tree/Tree.java:451 | Removing a present element drops exactly one copy of it; removing an absent one changes nothing. |
| TreeNodes.AddChildThenDepth | src/main/java/org/zlzh/ds/tree/Tree.java:105-113 | After `addChild`, the child's chain is the parent followed by the parent's chain, so the child's depth is one more than the parent's. |
| TreeIterators.BreadthFirstIterator.constructor | src/main/java/org/zlzh/ds/tree/BreadthFirstIterator.java:25-29 | The queue holds just the start node and there is no last node. |
| TreeIterators.BreadthFirstIterator.HasNext | src/main/java/org/zlzh/ds/tree/BreadthFirstIterator.java:31-33 | `hasNext()` holds exactly when the rest of the breadth-first run still has a node. |
| TreeIterators.BreadthFirstIterator.Next | src/main/java/org/zlzh/ds/tree/BreadthFirstIterator.java:35-44 | On an empty queue it fails with NoSuchElement and changes nothing. Otherwise it returns the front, appends the front's children in order at the back, records the front as the last node, and leaves the rest of the run unchanged. |
| TreeIterators.BreadthFirstIterator.Skip | src/main/java/org/zlzh/ds/tree/BreadthFirstIterator.java:59-69 | Before any `next()` it changes nothing. Otherwise it removes as many nodes from the back as the last node has children, failing once the queue runs out. |
| TreeIterators.BreadthFirstNextThenSkip | src/main/java/org/zlzh/ds/tree/BreadthFirstIterator.java:35-69 | `skip()` right after `next()` leaves the queue as it was minus the returned node, so none of its descendants follow. |
| TreeIterators.BreadthFirstIsLevelOrder | src/main/java/org/zlzh/ds/tree/BreadthFirstIterator.java:25-44 | The full run from `t` is `treesAtDepth(0) + ... + treesAtDepth(maxDepth - 1)`, and every deeper level is empty. |
| TreeIterators.BfsRunSplit | src/main/java/org/zlzh/ds/tree/BreadthFirstIterator.java:38-43 | Running a queue yields the queue itself followed by the run of what remains plus all of its children. |
| TreeIterators.BreadthFirstTraversal | src/main/java/org/zlzh/ds/tree/BreadthFirstIterator.java:25-44 | Calling `next()` until `hasNext()` fails yields the level order. |
| TreeIterators.DepthFirstIterator.constructor | src/main/java/org/zlzh/ds/tree/DepthFirstIterator.java:23-26 | The queue holds just the start node and there is no last node. |
| TreeIterators.DepthFirstIterator.HasNext | src/main/java/org/zlzh/ds/tree/DepthFirstIterator.java:28-30 | `hasNext()` holds exactly when the rest of the depth-first run still has a node. |
| TreeIterators.DepthFirstIterator.Next | src/main/java/org/zlzh/ds/tree/DepthFirstIterator.java:32-41 | On an empty queue it fails with NoSuchElement. Otherwise it returns the front, puts the front's children in order at the front, and records the last node. |
| TreeIterators.DepthFirstIterator.Skip | src/main/java/org/zlzh/ds/tree/DepthFirstIterator.java:56-66 | Before any `next()` it changes nothing. Otherwise it removes as many nodes from the front as the last node has children, failing once the queue runs out. |
| TreeIterators.DepthFirstNextThenSkip | src/main/java/org/zlzh/ds/tree/DepthFirstIterator.java:32-66 | `skip()` right after `next()` removes exactly the children just put at the front. |
| TreeIterators.DepthFirstIsPreorder | src/main/java/org/zlzh/ds/tree/DepthFirstIterator.java:23-41 | The full run from `t` is its preorder: node, then each child's subtree left to right. |
| TreeIterators.DfsRunSplit | src/main/java/org/zlzh/ds/tree/DepthFirstIterator.java:35-41 | Running `ts + rest` yields the preorder of `ts`, then the run of `rest`. |
| TreeIterators.PreorderLeaves | src/main/java/org/zlzh/ds/tree/Tree.java:500-514 | The leaves of the preorder, in order, are `gatherLeaves()`. |
| TreeIterators.DepthFirstTraversal | src/main/java/org/zlzh/ds/tree/DepthFirstIterator.java:23-41 | Calling `next()` until `hasNext()` fails yields the preorder, whose leaves are `gatherLeaves()`. |
| TreeIterators.ReverseDepthFirstIterator.constructor | src/main/java/org/zlzh/ds/tree/ReverseDepthFirstIterator.java:21-29 | Draining a depth-first iterator with `addFirst` leaves the preorder reversed on the stack, with no last node. |
| TreeIterators.ReverseDepthFirstIterator.Next | src/main/java/org/zlzh/ds/tree/ReverseDepthFirstIterator.java:35-43 | On an empty stack it fails with NoSuchElement. Otherwise it removes and returns the front and records it as the last node. |
| TreeIterators.ReverseDepthFirstIterator.Skip | src/main/java/org/zlzh/ds/tree/ReverseDepthFirstIterator.java:59-64 | Drops exactly one pending node, whatever the last node is; fails on an empty stack. |
| TreeIterators.ReverseDepthFirstTraversal | src/main/java/org/zlzh/ds/tree/ReverseDepthFirstIterator.java:21-43 | Calling `next()` until `hasNext()` (`ReverseDepthFirstIterator.HasNext`, a non-empty stack) fails yields the preorder reversed. |
| BinaryTrees.IsEmpty | src/main/java/org/zlzh/ds/tree/BinaryTree.java:70-72 | `isEmpty()` holds exactly when the tree has no nodes. |
| BinaryTrees.EmptyHasNothingToVisit | src/main/java/org/zlzh/ds/tree/BinaryTree.java:70-72 | `isEmpty()` holds exactly when there is nothing to visit: the preorder is empty. |
| BinaryTrees.Find | src/main/java/org/zlzh/ds/tree/BinaryTree.java:89-101 | `find` returns the first node in preorder holding `e`, and null when there is none; a non-null result holds `e`. |
| BinaryTrees.FirstHit | src/main/java/org/zlzh/ds/tree/BinaryTree.java:89-101 | Null exactly when no node of the sequence holds `e`. |
| BinaryTrees.Preorder | src/main/java/org/zlzh/ds/tree/BinaryTree.java:110-122 | The stack loop visits the nodes in recursive root-left-right order. |
| BinaryTrees.Inorder | src/main/java/org/zlzh/ds/tree/BinaryTree.java:132-144 | The stack loop visits the nodes in left-node-right order. |
| BinaryTrees.PreCountsNodes | src/main/java/org/zlzh/ds/tree/BinaryTree.java:110-122 | The preorder visits every non-null node once and nothing else. |
| BinaryTrees.OrdersArePermutations | src/main/java/org/zlzh/ds/tree/BinaryTree.java:110-160 | Inorder and postorder (left-right-node) visit the same nodes as preorder. |
| BinaryTrees.Post | src/main/java/org/zlzh/ds/tree/BinaryTree.java:154-160 | `postorder` visits every non-null node once, `Size` nodes in all, and visits the root last. |
| BinaryTrees.PreItr.constructor | src/main/java/org/zlzh/ds/tree/BinaryTree.java:212-217 | The stack starts with the root when there is one and is empty for an empty tree; what it will yield is the preorder data. |
| BinaryTrees.PreItr.HasNext | src/main/java/org/zlzh/ds/tree/BinaryTree.java:219-221 | On a valid stack, `hasNext()` holds exactly when the rest of the run still has an element. |
| BinaryTrees.PreItr.Next | src/main/java/org/zlzh/ds/tree/BinaryTree.java:222-229 | Fails on an empty stack. Otherwise it pops the top, returns its data, and pushes the non-null right child and then the left. The rest of the run is unchanged and shrinks. |
| BinaryTrees.ItrRunPush | src/main/java/org/zlzh/ds/tree/BinaryTree.java:222-229 | Pushing a subtree puts its preorder data in front of what the stack would yield. |
| BinaryTrees.PreIteration | src/main/java/org/zlzh/ds/tree/BinaryTree.java:210-229 | Calling `next()` until `hasNext()` fails yields each node's data exactly once, in preorder. |
| BinaryTrees.UnimplementedIterator.HasNext | src/main/java/org/zlzh/ds/tree/BinaryTree.java:237-274 | The in-order and post-order iterators never have a next element. |
| BinaryTrees.UnimplementedIterator.Next | src/main/java/org/zlzh/ds/tree/BinaryTree.java:237-274 | Their `next()` returns null. |

## Left out

- The `java.util.AbstractList` machinery that `ExtendibleArray` inherits: iterator, `equals`, `hashCode` and `modCount`. It is not part of this model.
- The writes of `null` in `ExtendibleArray` that only help the garbage collector. They are modelled as arbitrary values outside the logical range.
- Java `int` overflow everywhere: sizes, depths and buffer lengths are unbounded integers.
- A `Tree` whose `children` is a non-null empty list. The snapshot `Node(data, [])` stands for both a null and an empty list. `toString` treats the two alike, but `gatherLeaves` and `getPaths` would not. The class's own mutators never leave an empty list behind (`TreeNodes.TreeNode.PruneFrom`, `Clear`, `PruneChildren`, `AddChild`).
- The tie between `TreeNodes.TreeNode` and the `Trees` snapshot: the model does not define a function from a heap node to its snapshot. The recursive queries are proved on snapshots only. A snapshot cannot be cyclic either. A `Tree` whose children lists form a cycle makes the source's recursive queries and iterators run forever; that behaviour is outside the model.
- `Tree.numLeaves`. Its test is inverted: it walks a null list for a leaf and returns 1 for an inner node. It is not modelled, and nothing equates it with the number of gathered leaves.
- `Tree.iterator` with `REVERSE_BREADTH_FIRST`. It needs a class that is not part of this model.
- The cache `_path` of `getPath`. `TreeNodes.TreeNode.GetPath` always recomputes; the cache can go stale after structural edits.
- `Tree.clone`, `Tree.hashCode`, the `Serializable` fields, `Tree.adapter`, the sibling queries, `findNodes`/`findFirst` and the visitors of `Tree`.
- The iterators' `remove()`, which prunes the live tree during iteration.
- The iterators over `Tree` hold immutable snapshots, so aliasing with a tree edited during iteration is not captured.
- TreeNodes.TreeNode.PruneFrom: removes the first occurrence of this very node. The source's `List.remove(Object)` compares with `Tree.equals` (same data and equal children lists, Tree.java:603-625), so an earlier sibling that is structurally equal would be removed in its place. Structural equality over the heap is not modelled.
- TreeNodes.TreeNode.Clear: does not model that `clear()` also empties the old list object, which a caller of an earlier `pruneChildren()` or `getChildren()` may still hold.
- Trees.ToString: the text of a node's data (`data.toString()`) comes from a parameter `show`, with `None` standing for null data.
- The parent-walk methods take the ancestor chain as a ghost argument: a cyclic parent chain, on which the source loops forever, is outside the model.
- TreeNodes.TreeNode.IsAncestor, TreeNodes.TreeNode.IsDescendant: the argument is a non-null node; a null argument makes the source throw NullPointerException (`other.parent` at Tree.java:244, `other.isAncestor` at Tree.java:261), which is not modelled.
- BinaryTrees.Find: a null `e` makes the source throw NullPointerException; data are compared with `==` instead of `equals`.
- The visitor callbacks `IBTreeVisit` and `IObjectVisit`, and the NullPointerException when no visitor is set. Each traversal returns the sequence of nodes handed to the visitor instead.
- `BTNode`'s setters and parent pointer. A `BTNode` is the immutable value `BNode(data, left, right)`. A value cannot be cyclic. In the source, a `BTNode` graph with a cycle (such as `n.setLeft(n)`) makes `find` and `postorder` overflow the stack and makes `preorder` and `inorder` loop forever; that behaviour is outside the model.
- `BinaryTree.iterator()`/`preIterator()` only construct `PreItr`; `inIterator()`/`postIterator()` only construct the stubs.
- Escaping.ApplyMappings: `applyMappings(null)` returning `""` is stated; `escape(null)` and `unescape(null)` go through it and are not stated separately. When a source runs past the end of the input, the source moves its index beyond the end and the loop stops; the model stops at the end, with the same output.
- Java `char` is a UTF-16 code unit, while a Dafny `char` is a Unicode scalar value. Strings with lone surrogates, and the code-unit indexing of characters outside the Basic Multilingual Plane, are outside the `Escaping` model.
- Escaping.ApplyMappings: a table with an empty source that an earlier mapping shadows at every position ends in the source, but `SourcesNonEmpty` excludes it. `Apply`, `ApplyMappings`, `Escape` and `Unescape` say nothing about such tables.
- No concurrency, I/O or floating point occurs in the modelled code.

## Findings

| source | as written | input that shows it | evidently intended | confidence | as-written member | corrected member |
|---|---|---|---|---|---|---|
| src/main/java/org/zlzh/ds/ExtendibleArray.java:392-400 | `add(index, elem)` shifts `(end-2)-(index+1)` elements, one too few. For `index == size()` the length is -1, so the copy throws after the element was appended. | `[1,2,4,5]` with `add(2, 3)` gives `[1,2,3,4,3]`; `add(size(), x)` appends `x` and then throws | insert before `index`: `[1,2,3,4,5]`; `add(size(), x)` appends without error | not executed | ExtendibleArrays.ExtendibleArray.AddAt | ExtendibleArrays.ExtendibleArray.InsertAt |
