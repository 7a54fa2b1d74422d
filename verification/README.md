# A verified model of an adaptive radix tree map

This project models `blart`, an ordered map from byte strings to values kept in an
adaptive radix tree (V. Leis, A. Kemper and T. Neumann, "The adaptive radix tree:
ARTful indexing for main-memory databases", ICDE 2013), and proves in Dafny that it is
what it claims to be: a map in byte order.

Inner nodes come in four layouts, for up to 4, 16, 48 and 256 children, and carry the
bytes that all keys below them share (path compression). A node header stores only the
first `PREFIX_LEN` bytes of such a prefix; the rest is read back from the least leaf
below the node. `PREFIX_LEN` is an arbitrary natural number throughout.

## How the model is built

The nodes are objects on the heap, with the arrays and fields of the source: `Header`
(`header.dfy`), `InnerNodeCompressed`, `InnerNode48`, `InnerNode256` (`layouts.dfy`) and
`LeafNode` (`nodes.dfy`). `NodePtr` is the tagged pointer to any of them. Each layout
refines a map from key bytes to children.

What the nodes stand for is a logical tree (`trie.dfy`): a map from the path of each node
to its kind, the depth at which it begins, its value or its edges. Its invariant `WF` is
local: every node begins within its path, inner nodes have at least two children, and
edges and parents agree. `Shape` (`shape.dfy`) links the tree to the objects: it says
where each node is stored, that no two nodes share objects, that the layout fits the
number of children (2-4, 5-16, 17-48, 49-256), and that a header stands for exactly the
prefix of its node.

* `surgery.dfy` proves what inserting and removing a leaf does to the logical tree.
  `insert_search.dfy`, `insert.dfy`, `split.dfy` and `insert_apply.dfy` carry it out on
  the heap, `delete_search.dfy` and `delete.dfy` undo it. An operation changes nodes
  first and writes the edge from above last; `EdgePending` (`pending.dfy`) is the state in
  between.
* `map.dfy` and `entry.dfy` are the map itself. `TreeMap.Valid` holds before and after
  every method, so every property of a valid map holds on every run. `NodeHeap`
  (`heap.dfy`) keeps the set of live nodes as ghost state: allocating a live node or
  freeing one that is not live is not allowed, and a valid map has exactly the nodes of its
  tree live. It also logs every node that, when it is freed, can still be reached from the
  root of the map by following the pointers of live nodes; `reachability.dfy` and
  `early_free.dfy` are about that.
* `canonical.dfy` proves history independence: equal entries give equal nodes. `runs.dfy`
  compares whole runs of a map, its searches and its entries with a plain map.
* `leaves.dfy` lists the leaves of a tree in key order; `tree_iterator.dfy`,
  `prefix_iterator.dfy`, `fuzzy_iterator.dfy` and `into_iter.dfy` prove that the iterators
  return such listings, or the wanted part of them, from either end; `collect.dfy` runs
  them to their end.
  `levenshtein.dfy` defines the edit distance and shows that it is the least cost of any
  edits; `edit_rows.dfy` computes rows of its matrix.
* `well_formed.dfy` is the well-formedness check on any finite graph of nodes, shared or
  cyclic ones included; `well_formed_trees.dfy` says which trees of a map it accepts.
* `tree_stats.dfy` counts nodes, and `tree_totals.dfy` says what the counts are in terms of
  the sets of nodes; `deallocate.dfy` frees a tree, `encodings.dfy` covers the encodings
  that make byte order the order of numbers, sequences and tuples.

Every assumption that the source states to the compiler (`assume!`, unchecked indexing and
unwrapping), and every `panic!` in the modelled code, is a proof obligation here.

Keys are shorter than 2^32 bytes, because the source keeps prefix lengths in 32 bits.
Keys are the byte strings that `AsBytes` gives; two keys with the same bytes are one key.

Three points where the model follows the code and not what one might expect of it:

* The documentation of the well-formedness check promises to accept well-formed trees, but
  the range of children that it allows for a `Node256` ends before 256, and that of a
  `Node4` begins at 1. `AcceptsTree` gives the exact condition under which the tree of a
  map is accepted, `RejectsFullNode` a tree that is not, and `FillBytes` a map that has it.
* The entry that inserting through a vacant entry returns carries the edges from before
  the insertion. `InsertEntry` promises the leaf always, and shows that the edges are right
  if and only if the map was empty.
* That a node is no longer reachable when it is freed is not true of the code: a replaced
  node is freed before the edge to it is rewritten, and the map's own `root` field keeps its
  old value until the operation has returned. The exact condition, for every operation:
  an insertion frees a node that is still reached if and only if the way to the key ends at
  an inner node without an edge for it that has 4, 16 or 48 children, and then it is that
  node (`InsertApply.FreedEarly`). A removal does so if and only if the leaf is the root, and
  then it is the leaf, or the parent of the leaf has 2, 5, 17 or 49 children, and then it is
  the parent (`Delete.FreedEarly`). `clear` does so for the root alone. These conditions
  speak of the tree before the call, which the entries determine. A replaced node is reached
  over an edge if it was not the root (`Reachability.StaleLinked`), and by the `root` field
  if it was. `EarlyFrees.GrowBelowRoot` shows an input: the keys `[0,0]` to `[0,3]` and `[1]`,
  then `[0,4]`. At the end of every operation the live nodes are exactly those that the root
  leads to (`Maps.LiveNodes`).

## Main results

* Every run: the map, its searches and its entries return what a plain map returns, stored
  keys stay prefix-free, and runs end with the same nodes if and only if they end with the
  same entries (`Runs.RunActions`, `Runs.RunPrefixFree`, `Runs.RunsConverge`).
* Insertion and removal keep the whole invariant and change exactly one entry, in every
  case of splitting, growing, merging and shrinking, for any `PREFIX_LEN`
  (`InsertApply.Apply`, `Delete.Apply`); insertion fails exactly on keys that clash with a
  stored key (`Maps.TreeMap.TryInsert`).
* Well-formed trees with the same entries are equal, and so are the nodes of maps with the
  same entries (`Canonical.Unique`, `Canonical.HistoryIndependent`); inserting a new key and
  removing it restores every node (`Canonical.InsertThenRemove`).
* Live nodes are exactly the nodes that the root leads to after every operation
  (`Maps.LiveNodes`), no node is freed twice, and freeing a tree frees each of its nodes once
  (`Deallocation.DeallocateTree`). Exactly when a node is still reached when it is freed is
  part of `InsertApply.Apply`, `Delete.Apply`, `Maps.TreeMap.TryInsert`,
  `Maps.TreeMap.RemoveEntry` and `Maps.TreeMap.Clear`.
* The iterators return exactly the wanted entries, each once and in order, under any
  interleaving of both ends (`TreeIterators.TreeIterator.Next`,
  `PrefixIterators.Prefix.Next`, `FuzzyIterators.Fuzzy.Next`); the edit distance is the
  least cost of any edits (`Levenshtein.DistanceLeast`, `Levenshtein.DistanceReached`), so
  a fuzzy search lists exactly the keys that edits reach at no more than the given cost
  (`Collecting.CollectFuzzy`).
* The well-formedness check decides well-formedness of any finite graph, and its error
  tells where the graph fails (`WellFormedness.CheckTree`). It accepts the tree of a map if
  and only if no node has 256 children (`WellFormedTrees.AcceptsTree`,
  `WellFormedTrees.GraphRead`).
* The collected statistics are the sums and maxima over the nodes of the tree, for each
  layout and for all (`TreeTotals.LayoutTotals`, `TreeTotals.AllTotals`).
* Encodings decode to what they encode and embed its order (`Encodings.SeqOrdered`,
  `Encodings.TupleOrdered`).

## Model

| member | source | states |
|---|---|---|
| `Tries.Relate` | src/nodes/operations/lookup.rs:11-56 | of any two nodes of a compressed tree, one is above the other along the edge its path names, or they branch before either begins; every search below rests on it |
| `Surgery.AddLeafWF` | src/nodes/operations/insert.rs:80-154 | a leaf added at a free edge of an inner node keeps the whole tree invariant |
| `Surgery.SplitWF` | src/nodes/operations/insert.rs:209-350 | a new inner node put above a node whose prefix the key leaves, or above a leaf with another key, keeps the tree invariant |
| `Surgery.DropLeafWF` | src/nodes/operations/delete.rs:34-36 | taking a leaf away from a node that keeps two children keeps the tree invariant |
| `Surgery.MergeWF` | src/nodes/operations/delete.rs:38-81 | merging a node into its only child, which then begins where the node began, keeps the tree invariant |
| `Headers.Header.constructor` | src/nodes/representation/header.rs:30-40 | a new header stores the first min(length, PREFIX_LEN) bytes of the prefix it stands for |
| `Headers.Header.ReadPrefix` | src/nodes/representation/header.rs:54-56 | reads exactly the stored part of the whole prefix |
| `Headers.Header.LtrimBy` | src/nodes/representation/header.rs:82-100 | drops the first bytes of the whole prefix, for a prefix that is stored whole |
| `Headers.Header.LtrimByWithLeaf` | src/nodes/representation/header.rs:136-167 | drops the first bytes of the whole prefix, of any length, with the bytes that are not stored taken from a leaf |
| `Headers.Header.ClearPrefix` | src/nodes/representation/header.rs:105-111 | leaves the empty prefix and returns the old length and the stored bytes |
| `Headers.Header.PushPrefix` | src/nodes/representation/header.rs:115-121 | appends a whole prefix, given only the bytes of it that still fit |
| `Delete.PrependPrefix` | src/nodes/operations/delete.rs:55-75 | clear, then three pushes: the whole prefix of the child becomes parent prefix, edge byte, child prefix, although only truncated parts are at hand |
| `Lookup.ReadFullPrefix` | src/nodes/representation/header.rs:170-216 | the full-prefix read returns the whole prefix of the node for any PREFIX_LEN, and a leaf exactly if it had to be consulted |
| `Layouts.ListsUnique` | src/nodes/representation.rs:687 | there is only one listing of a byte-to-child map in key order, so all four layouts iterate alike |
| `Layouts.InnerNodeCompressed.LookupChild` | src/nodes/representation/inner_node_compressed.rs:105-120 | Node4 and Node16 look up what the byte-to-child map holds |
| `Layouts.InnerNodeCompressed.FindWritePoint` | src/nodes/representation/inner_node_compressed.rs:394-408 | finds the sorted position of a byte, and whether it is there |
| `Layouts.InnerNodeCompressed.WriteChild` | src/nodes/representation/inner_node_compressed.rs:128-172 | overwrites, appends or shifts: the map is updated at the byte and the keys stay strictly sorted |
| `Layouts.InnerNodeCompressed.WriteChildUnchecked` | src/nodes/representation/inner_node_compressed.rs:179-187 | appends a child whose byte is greater than all others |
| `Layouts.InnerNodeCompressed.RemoveChild` | src/nodes/representation/inner_node_compressed.rs:211-228 | removes the byte from the map, returns its child, and keeps the keys sorted |
| `Layouts.InnerNodeCompressed.ChangeBlockSize` | src/nodes/representation/inner_node_compressed.rs:231-275 | Node4 to Node16 and back keep the map and the header |
| `Layouts.InnerNodeCompressed.GrowNode48` | src/nodes/representation/inner_node_compressed.rs:278-319 | Node16 to Node48 keeps the map and the header |
| `Layouts.InnerNodeCompressed.Iter` | src/nodes/representation/inner_node_compressed.rs:322-325 | lists the map in key order |
| `Layouts.InnerNode48.LookupChild` | src/nodes/representation/inner_node_48.rs:185-202 | looks up what the map holds, through the index indirection |
| `Layouts.InnerNode48.WriteChild` | src/nodes/representation/inner_node_48.rs:204-235 | updates the map at the byte and keeps the indices a bijection onto the used pointers |
| `Layouts.InnerNode48.RemoveChild` | src/nodes/representation/inner_node_48.rs:237-277 | removes the byte from the map; shifting pointers down and lowering larger indices keeps the bijection |
| `Layouts.InnerNode48.Grow` | src/nodes/representation/inner_node_48.rs:279-305 | Node48 to Node256 keeps the map and the header |
| `Layouts.InnerNode48.Shrink` | src/nodes/representation/inner_node_48.rs:307-349 | Node48 to Node16 keeps the map and the header, with sorted keys |
| `Layouts.InnerNode48.Iter` | src/nodes/representation/inner_node_48.rs:351-374 | lists the map in key order |
| `Layouts.InnerNode48.Min` | src/nodes/representation/inner_node_48.rs:461-470 | the child with the least byte |
| `Layouts.InnerNode48.Max` | src/nodes/representation/inner_node_48.rs:524-533 | the child with the greatest byte |
| `Layouts.InnerNode256.WriteChild` | src/nodes/representation/inner_node_256.rs:74-81 | updates the map at the byte and counts a child only if it is new |
| `Layouts.InnerNode256.RemoveChild` | src/nodes/representation/inner_node_256.rs:83-91 | removes the byte from the map and returns its child |
| `Layouts.InnerNode256.Shrink` | src/nodes/representation/inner_node_256.rs:97-123 | Node256 to Node48 keeps the map and the header |
| `Layouts.InnerNode256.Iter` | src/nodes/representation/inner_node_256.rs:125-140 | lists the map in key order |
| `Layouts.InnerNode256.Min` | src/nodes/representation/inner_node_256.rs:208-216 | the child with the least byte |
| `Layouts.InnerNode256.Max` | src/nodes/representation/inner_node_256.rs:265-273 | the child with the greatest byte |
| `Nodes.NodePtr.Grow` | src/nodes/representation.rs:670 | a node of any layout but Node256 grows to the next layout with the same children and prefix |
| `Nodes.NodePtr.Shrink` | src/nodes/representation.rs:678 | a node that should shrink shrinks to the next smaller layout with the same children and prefix |
| `Nodes.NodePtr.WriteChild` | src/nodes/representation.rs:653 | every layout refines the same update of the byte-to-child map |
| `Nodes.NodePtr.RemoveChild` | src/nodes/representation.rs:663 | every layout refines the same removal from the byte-to-child map |
| `Lookup.Minimum` | src/nodes/operations/minmax.rs:10-26 | descends to the leaf whose key comes before all other keys below the node |
| `Lookup.Maximum` | src/nodes/operations/minmax.rs:35-51 | descends to the leaf whose key comes after all other keys below the node |
| `Lookup.MatchPrefix` | src/nodes/representation.rs:703-738 | compares the whole prefix with the key, reports the first difference, its byte, and the leaf that was needed |
| `Lookup.CheckPrefixLookupChild` | src/nodes/operations/lookup.rs:67-108 | finds the child that the key leads to, exactly if there is one |
| `Lookup.Search` | src/nodes/operations/lookup.rs:11-56 | finds the leaf of a key if and only if the key is stored |
| `InsertSearch.TestPrefix` | src/nodes/operations/insert.rs:449-487 | what the key meets at an inner node: it ends there, it leaves the prefix, or it reaches the edges |
| `InsertSearch.SearchForInsertPoint` | src/nodes/operations/insert.rs:442-630 | returns the prefix error if and only if a stored key is a proper prefix of the key or the reverse; otherwise the insert point and the two edges above it |
| `InsertSearch.NoClashStored` | src/nodes/operations/insert.rs:442-630 | stored keys are prefix-free |
| `Insert.WriteOrGrow` | src/nodes/operations/insert.rs:92-132 | writes the child, or into a larger copy exactly if the node is full; the layout fits the number of children again |
| `Insert.FitsOneMore` | src/nodes/operations/insert.rs:111-131 | a full node has a larger layout: a Node256 never has to grow, because a byte without a child is left |
| `Insert.WriteIntoExisting` | src/nodes/operations/insert.rs:80-154 | the heap is the updated tree, up to the edge to the written node; a replaced node is freed exactly if the node has 4, 16 or 48 children, and then the root still leads to it |
| `Insert.WriteParent` | src/nodes/operations/insert.rs:157-198 | writing the pending edge, or returning the new root, makes the heap represent the tree |
| `Pending.PendingParent` | src/nodes/operations/insert.rs:175-198 | the parent of the written node has the edge, so rewriting it needs no room |
| `Reachability.StaleReached` | src/nodes/operations/insert.rs:111-131 | while the edge to a replaced node is not rewritten, the old root leads to that node through live nodes |
| `Reachability.StaleLinked` | src/nodes/operations/delete.rs:76-97 | some node of the tree has an edge to the replaced node if and only if that was not the root |
| `Reachability.NotReached` | src/nodes/operations/delete.rs:170-176 | a leaf that was taken out is not reached when it is freed |
| `InsertApply.EndsOnce` | src/nodes/operations/insert.rs:498-630 | the way to a key ends at no more than one inner node without an edge for it |
| `InsertApply.WhereItEnds` | src/nodes/operations/insert.rs:80-154 | the tree and the key alone tell which node an insertion frees: the inner node where the way ends, if it is full, and none in the three other cases |
| `SplitNode.SplitPrefixNodes` | src/nodes/operations/insert.rs:209-276 | a new Node4 with the matched part of the prefix, its two children in order of key byte, and the trimmed old node |
| `SplitNode.SplitLeafNodes` | src/nodes/operations/insert.rs:293-350 | a new Node4 above the old and the new leaf, which branch where the keys do |
| `InsertApply.SetValueWF` | src/nodes/operations/insert.rs:277-292 | replacing a leaf of the same key keeps the tree invariant |
| `InsertApply.ReplaceExact` | src/nodes/operations/insert.rs:277-292 | the leaf of a stored key is replaced in place; the replaced entry is returned |
| `InsertApply.PlaceAbove` | src/nodes/operations/insert.rs:360-385 | the new node takes the place of the split node |
| `InsertApply.Apply` | src/nodes/operations/insert.rs:75-385 | in all four cases the heap afterwards represents a well-formed tree whose entries are the old ones updated at the key; the replaced entry and the new root are right; live nodes are the nodes of the tree; a node is freed while it is reached exactly if the way to the key ends at a full node |
| `DeleteSearch.SearchForDeletePoint` | src/nodes/operations/delete.rs:295-358 | finds the leaf and the two edges above it if and only if the key is stored |
| `DeleteSearch.FindMinimumToDelete` | src/nodes/operations/delete.rs:368-396 | finds the leaf with the least key and the two edges above it |
| `DeleteSearch.FindMaximumToDelete` | src/nodes/operations/delete.rs:406-434 | finds the leaf with the greatest key and the two edges above it |
| `DeleteSearch.SearchesAgree` | src/nodes/operations/insert.rs:498-630 | for a stored key the insert search ends at Exact, with the leaf and the edges of the delete search |
| `Delete.FitsOneLess` | src/nodes/representation.rs:69-77 | growing and shrinking thresholds never overlap: after a removal the layout fits, or the next smaller one does |
| `Delete.MergePrefix` | src/nodes/operations/delete.rs:44-75 | the only child takes over the whole prefix of its parent |
| `Delete.MergeIntoChild` | src/nodes/operations/delete.rs:38-75 | the child that is left is the only other child, and now begins where its parent began |
| `Delete.Compress` | src/nodes/operations/delete.rs:38-81 | a parent left with one child gives its place to it and is freed, while it is still reached |
| `Delete.KeepOrShrink` | src/nodes/operations/delete.rs:82-97 | a parent is replaced by a smaller copy, and freed while it is still reached, exactly if it had 5, 17 or 49 children |
| `Delete.RemoveChildAndCompress` | src/nodes/operations/delete.rs:18-98 | removing the leaf merges, shrinks or keeps the parent; the heap is the new tree up to the edge to write, the live nodes are those of the new tree and the removed leaf, and the parent gives way exactly if it had 2, 5, 17 or 49 children |
| `Delete.DeleteNonRoot` | src/nodes/operations/delete.rs:111-190 | the grandparent is rewritten or the root replaced: the heap represents the tree without the key |
| `Delete.Apply` | src/nodes/operations/delete.rs:243-282 | removes exactly the found key, returns its leaf unchanged, empties the tree with its last leaf, and frees exactly the nodes that left the tree; the leaf is still reached when it is freed exactly if it is the root, and its parent exactly if it gives way |
| `Deallocation.DeallocateTree` | src/nodes/operations.rs:24-70 | frees every node of the tree, each exactly once, reads the children of live nodes only, and ends; only the root is still reached when it is freed |
| `Maps.TreeMap.Clear` | src/collections/map.rs:85-97 | empties the map and frees all its nodes; only the root is still reached when it is freed |
| `Maps.LiveNodes` | src/collections/map.rs:530-572 | between operations the live nodes are exactly those that the root leads to |
| `Maps.TreeMap.GetKeyValue` | src/collections/map.rs:131-152 | returns the entry of the key, if there is one |
| `Maps.TreeMap.Get` | src/collections/map.rs:111-117 | returns the value of the key, if there is one |
| `Maps.TreeMap.FirstKeyValue` | src/collections/map.rs:412-430 | returns the entry with the least key in byte order |
| `Maps.TreeMap.LastKeyValue` | src/collections/map.rs:479-497 | returns the entry with the greatest key in byte order |
| `Maps.TreeMap.InitTree` | src/collections/map.rs:530-535 | a map of one entry |
| `Maps.TreeMap.ApplyInsertPoint` | src/collections/map.rs:537-557 | updates the map at the key and counts the entry only if it is new |
| `Maps.TreeMap.ApplyDeletePoint` | src/collections/map.rs:559-572 | removes the entry of the found leaf and counts it down |
| `Maps.TreeMap.TryInsert` | src/collections/map.rs:633-649 | an error, and no change, if and only if some other stored key is a prefix of the key or the reverse; otherwise the map updated at the key, with the value that was stored there; a node is freed while it is reached exactly if the way to the key ends at an inner node with 4, 16 or 48 children |
| `Maps.TreeMap.Insert` | src/collections/map.rs:599-605 | never fails on keys from a set in which no key is a prefix of another; returns the value that was stored |
| `Maps.TreeMap.RemoveEntry` | src/collections/map.rs:666-682 | removes exactly the entry of the key and returns it; a node is freed while it is reached exactly if the leaf is the root, or its parent has 2, 5, 17 or 49 children |
| `Maps.TreeMap.PopFirst` | src/collections/map.rs:448-460 | removes and returns exactly the entry with the least key, with the same account of freed nodes |
| `Maps.TreeMap.PopLast` | src/collections/map.rs:516-528 | removes and returns exactly the entry with the greatest key, with the same account of freed nodes |
| `EarlyFrees.FullBelowRoot` | src/nodes/operations/insert.rs:111-131 | an input: however they were stored, the keys [0,0] to [0,3] and [1] make a full Node4 below the root, where the way to [0,4] ends |
| `EarlyFrees.FillNode` | src/collections/map.rs:633-649 | some map has these keys |
| `EarlyFrees.GrowBelowRoot` | src/nodes/operations/insert.rs:111-131 | inserting [0,4] into such a map frees that node while it is still reached |
| `Entries.TryEntry` | src/collections/map.rs:1266-1299 | an error if and only if the key clashes; occupied, with the right edges, if and only if the key is stored |
| `Entries.OccupiedEntry.Insert` | src/collections/map/entry.rs:43-48 | replaces the value, returns the old one, and leaves the entry usable |
| `Entries.OccupiedEntry.RemoveEntry` | src/collections/map/entry.rs:70-79 | removing through an entry that was found occupied removes what removing by key removes |
| `Entries.VacantEntry.InsertEntry` | src/collections/map/entry.rs:113-134 | inserts what inserting by key inserts; the returned entry leads to the new leaf, and its edges are right if and only if the map was empty |
| `Entries.InsertByEntry` | src/collections/map/entry.rs:183-191 | inserting through the entry of a key does what TreeMap.TryInsert does |
| `Entries.RemoveByEntry` | fuzz/fuzz_targets/fuzz_tree_map_api.rs:150-155 | removing through the entry of a key fails if and only if the key clashes, and otherwise does what TreeMap.RemoveEntry does |
| `Canonical.BranchIsInner` | src/nodes/operations/insert.rs:442-630 | where two stored keys branch there is an inner node |
| `Canonical.InnerBranches` | src/nodes/operations/delete.rs:34-97 | where there is an inner node two stored keys branch: compression is maximal |
| `Canonical.Unique` | src/nodes/representation.rs:69-77 | two well-formed trees with the same entries are the same tree |
| `Canonical.InsertThenRemove` | src/nodes/operations/delete.rs:34-97 | TryInsert of a new key and then RemoveEntry of it give back the very same nodes, leaf by leaf and header by header |
| `Canonical.HistoryIndependent` | src/nodes/representation.rs:69-77 | two maps have the same entries if and only if they have the same nodes; then layouts, key bytes, child counts, prefix lengths, stored prefix bytes and leaves agree node by node, whatever was done before |
| `Canonical.SummaryFixed` | src/nodes/representation.rs:69-77 | the logical tree alone determines layout, header and key bytes of every node |
| `Canonical.NodeFixed` | src/nodes/representation.rs:69-77 | the same, said of the fields of the node itself |
| `Runs.RunActions` | fuzz/fuzz_targets/fuzz_tree_map_api.rs:48-128 | on every run from the empty map of clear, len, get, first, last, iteration, prefix and fuzzy search, pops, remove, try_insert, and inserting and removing through entries, each action returns what a plain map from keys to values returns, and the entries at the end are those of the plain map |
| `Runs.RunUnique` | fuzz/fuzz_targets/fuzz_tree_map_api.rs:48-128 | the plain map leaves no choice: the actions determine every result and every state |
| `Runs.RunPrefixFree` | src/collections/map.rs:599-649 | stored keys are prefix-free at every point of every run |
| `Runs.RunsConverge` | src/nodes/representation.rs:69-77 | performs two runs, and they end with the same nodes if and only if they end with the same entries |
| `Listings.AllLeaves` | src/collections/map/iterators/iterator.rs:57-72 | the leaves listed in edge order are the stored keys in byte order, each once |
| `Listings.ListingUnique` | src/collections/map/iterators/iterator.rs:57-72 | there is only one such listing |
| `TreeIterators.TreeIterator.constructor` | src/collections/map/iterators/iterator.rs:16-22 | all keys are left, and size counts them |
| `TreeIterators.TreeIterator.Next` | src/collections/map/iterators/iterator.rs:57-72 | returns the first key that is left with its value; front results, keys left and back results make up all keys in order, and size counts those left |
| `TreeIterators.TreeIterator.NextBack` | src/collections/map/iterators/iterator.rs:89-104 | returns the last key that is left with its value, likewise |
| `TreeIterators.TreeIterator.SizeHint` | src/collections/map/iterators/iterator.rs:74-76 | both bounds are exactly the number of keys left |
| `TreeIterators.TreeIterator.PushBackRevIter` | src/collections/map/iterators/iterator.rs:24-37 | puts the children at the back, the least last |
| `TreeIterators.TreeIterator.PushFront` | src/collections/map/iterators/iterator.rs:39-51 | puts the children at the front, the greatest first |
| `PrefixIterators.IsPrefixOf` | src/collections/map/iterators/prefix.rs:110-115 | succeeds if and only if one of the strings is a prefix of the other |
| `PrefixIterators.HandleLeaf` | src/collections/map/iterators/prefix.rs:117-146 | tells whether the key starts with the prefix, from a depth that may only be a lower bound |
| `PrefixIterators.Children` | src/collections/map/iterators/prefix.rs:6-61 | what an inner node gives way to: no matching key is lost, none is found twice, and there is less to search |
| `PrefixIterators.Prefix.constructor` | src/collections/map/iterators/prefix.rs:82-89 | all keys that start with the prefix are left |
| `PrefixIterators.Prefix.Next` | src/collections/map/iterators/prefix.rs:154-169 | returns the first matching key that is left with its value; front results, keys left and back results make up all matches in order |
| `PrefixIterators.Prefix.NextBack` | src/collections/map/iterators/prefix.rs:186-209 | returns the last matching key that is left with its value, likewise |
| `PrefixIterators.Prefix.SizeHint` | src/collections/map/iterators/prefix.rs:171-173 | is at least the number of matches left, and at most the number of entries minus the matches returned |
| `Levenshtein.DistanceLeast` | src/collections/map/iterators/fuzzy.rs:94-141 | no edits turn one string into the other at less cost than the distance |
| `Levenshtein.DistanceReached` | src/collections/map/iterators/fuzzy.rs:94-141 | some edits reach it |
| `Levenshtein.DistanceAdjacent` | src/collections/map/iterators/fuzzy.rs:108-137 | adjacent cells of the matrix differ by at most one |
| `Levenshtein.DistanceEqualBytes` | src/collections/map/iterators/fuzzy.rs:108-137 | the equal-byte shortcut is the three-way minimum |
| `Levenshtein.RowNext` | src/collections/map/iterators/fuzzy.rs:104-140 | the row minimum never decreases |
| `Levenshtein.PruneSound` | src/collections/map/iterators/fuzzy.rs:210-217 | a row without an entry within the bound leads to no match |
| `EditRows.EditDist` | src/collections/map/iterators/fuzzy.rs:94-141 | computes the next row of the matrix for keys of any length, and whether an entry is within the bound |
| `EditRows.StackArena.Push` | src/collections/map/iterators/fuzzy.rs:25-32 | makes room for one row and keeps the rows below |
| `EditRows.StackArena.PopCopy` | src/collections/map/iterators/fuzzy.rs:38-80 | copies out the last row; the length is a multiple of the row length |
| `FuzzyIterators.SearchPrefix` | src/collections/map/iterators/fuzzy.rs:165-189 | takes the row past the whole prefix, and keeps the node unless the last row is beyond the bound |
| `FuzzyIterators.SearchLeaf` | src/collections/map/iterators/fuzzy.rs:279-303 | decides whether the edit distance between the query and the key of the leaf is at most the bound |
| `FuzzyIterators.SearchInner` | src/collections/map/iterators/fuzzy.rs:197-219 | pushes exactly the children worth searching, each with its row; pruning drops no match, and the two stacks stay in lockstep |
| `FuzzyIterators.Fuzzy.constructor` | src/collections/map/iterators/fuzzy.rs:322-342 | all stored keys within the distance are left, those at exactly the bound included, and the root has the first row |
| `FuzzyIterators.Fuzzy.Next` | src/collections/map/iterators/fuzzy.rs:351-433 | returns the last near key that is left with its value: exactly the keys within the distance, each once, in descending order |
| `FuzzyIterators.Fuzzy.SizeHint` | src/collections/map/iterators/fuzzy.rs:435-437 | is at least the number of matches left, and at most the number of entries minus the matches returned |
| `IntoIters.IntoIter.Next` | src/collections/map/iterators/into_iter.rs:21-25 | drains the first entry that is left |
| `IntoIters.IntoIter.NextBack` | src/collections/map/iterators/into_iter.rs:33-35 | drains the last entry that is left; both ends together drain all entries in order |
| `Collecting.CollectAll` | src/collections/map/iterators/iterator.rs:57-72 | collecting the iterator lists all entries, each once, in byte order |
| `Collecting.CollectPrefix` | src/collections/map/iterators/prefix.rs:154-169 | collecting a prefix search lists exactly the entries whose keys start with the prefix, each once, in byte order |
| `Collecting.CollectFuzzy` | src/collections/map/iterators/fuzzy.rs:351-433 | collecting a fuzzy search lists exactly the entries whose keys some edits of the query reach at no more than the given cost, each once, in descending order |
| `WellFormedness.WellFormedChecker.VisitInnerNode` | src/nodes/visitor/well_formed.rs:266-333 | for prefixes that fit in the header: the node has 1 to 4, 5 to 16, 17 to 48 or 49 to 255 children by its layout and everything below it has been seen for the first time and is fine, or the graph is not well formed and the error tells where |
| `WellFormedness.WellFormedChecker.VisitLeaf` | src/nodes/visitor/well_formed.rs:369-379 | counts the leaf if and only if its key starts with the bytes on the way to it |
| `WellFormedness.CheckTree` | src/nodes/visitor/well_formed.rs:252-264 | on any finite graph whose prefixes fit in the header the check ends; it accepts if and only if no two walks meet, leaf keys start with the bytes on the way, and child counts are in the coded ranges, and then it counts the reachable nodes; a loop error names a node with the bytes of the earlier and then of the later walk to it, and the other errors name a place, with the bytes on the way to it, where the rule fails |
| `WellFormedTrees.AcceptsTree` | src/nodes/representation.rs:80-91 | the check accepts the graph of a tree if and only if no node has all 256 children, and it reaches all nodes |
| `WellFormedTrees.GraphRead` | src/nodes/visitor/well_formed.rs:266-379 | the graph of a tree is what the check reads from the nodes on the heap: key, layout, prefix, and the children in the order of iteration |
| `WellFormedTrees.RejectsFullNode` | src/nodes/representation.rs:80-91 | the tree of all one-byte keys is rejected, because the range of Node256 ends before 256 |
| `WellFormedTrees.FillBytes` | src/collections/map.rs:633-649 | some map has exactly the one-byte keys |
| `WellFormedTrees.FullMapRejected` | src/nodes/representation.rs:80-91 | every such map holds that tree, so the check rejects it |
| `TreeStats.SlotsUsed` | src/nodes/visitor/tree_stats.rs:94-108 | used slots are inner nodes plus leaves minus one, and inner nodes are fewer than leaves |
| `TreeStats.TreeCounts` | src/collections/map.rs:537-572 | in every map that is not empty len is the leaf count, with the same two relations; the sums over the four layouts are those of the tree, and used slots and stored prefix bytes never exceed what there is |
| `TreeStats.TreeStatsCollector.Visit` | src/nodes/visitor/tree_stats.rs:240-268 | the collected counts, slots and prefix lengths, for each layout and for the tree, and the leaves and key bytes, are those of the tree |
| `TreeTotals.LayoutTotals` | src/nodes/visitor/tree_stats.rs:94-108 | for each layout the collected numbers are the number of inner nodes of that layout, their slots, used slots and header bytes, the sums of their prefix lengths and stored prefix lengths, and the longest of these prefixes |
| `TreeTotals.AllTotals` | src/nodes/visitor/tree_stats.rs:240-268 | the same for all inner nodes, and the number of leaves and the sum of their key lengths |
| `TreeTotals.Collect` | src/nodes/visitor/tree_stats.rs:17-31 | collects nothing for an empty map, and otherwise the counts of its tree |
| `Encodings.BeRoundTrip` | src/bytes/mapped.rs:209-224 | big endian bytes decode to the number |
| `Encodings.BeOrder` | src/bytes/mapped.rs:226-235 | byte order of big endian strings of one length is the order of the numbers |
| `Encodings.BeCode` | src/bytes/mapped.rs:209-224 | every byte string is the big endian code of the number it decodes to |
| `Encodings.Codec.RoundTrip` | src/bytes/mapped.rs:213-245 | unsigned and sign-flipped signed integers of any width decode to themselves |
| `Encodings.Codec.Ordered` | src/bytes/mapped.rs:226-258 | byte order of the codes is the order of the integers, and no code is a prefix of another |
| `Encodings.SeqOrdered` | src/bytes/mapped.rs:320-370 | byte order of encoded arrays and vectors is element-wise order, for any, even unequal, lengths; codes of arrays of one length are never prefixes of one another |
| `Encodings.ToBytes` | src/bytes/mapped.rs:337-346 | the loop concatenates the codes of the elements |
| `Encodings.FromBytes` | src/bytes/mapped.rs:351-363 | takes off the whole chunks of any byte string, one after the other |
| `Encodings.SeqRoundTrip` | src/bytes/mapped.rs:337-363 | an encoded array or vector decodes to itself |
| `Encodings.SeqCode` | src/bytes/mapped.rs:351-363 | any byte string decodes to a vector whose code is that string without a rest shorter than an element |
| `Encodings.IntegersLawful` | src/bytes/mapped.rs:209-258 | the integer encodings have fixed length, decode to what they encode and embed its order, as tuples ask of their elements |
| `Encodings.TupleOrdered` | src/bytes/mapped.rs:680-703 | for elements of any types with fixed-length order-embedding encodings, byte order of encoded tuples is lexicographic order of the elements, and no code is a prefix of another |
| `Encodings.FromTupleBytes` | src/bytes/mapped.rs:586-604 | an encoded tuple decodes to itself, and no bytes remain |

## Left out

- Tagged pointer bits, alignment, uninitialised memory and lifetimes: node pointers are typed references, and unused slots hold no child.
- The vector-instruction variants of lookup, minimum and maximum: the scalar forms are modelled.
- Ranges over the children of a node: no operation of the map uses them.
- Keys that are not byte strings: a key is modelled by its `AsBytes` view, so replacing a key by an equal one is not visible.
- The size of `usize`: counts and depths are unbounded, except prefix lengths and child counts, which are 32 and 16 bits wide.
- Cloning a map and its nodes (`deep_clone`): it builds the same nodes again and adds no new invariant.
- The mutable, key-only and value-only variants of the iterators: they are generated from the same code as the ones modelled.
- The copy of the entry interface for borrowed keys (`src/collections/map/entry_ref.rs`), and the entry methods that only combine the ones modelled.
- Removing through the entry that inserting through a vacant entry returns: it carries the edges from before the insertion.
- The printers, statistics in floating point, memory sizes, hashing, comparison of maps, examples, benches and fuzz targets.
- Native-endian integer keys, non-zero integers, IP addresses, `Path` and `OsStr` as keys: only the order-embedding encodings of integers, arrays, vectors and tuples are modelled.
- WellFormedness.CheckTree: prefixes that do not fit in the header are not modelled; for them the check reads a leaf below the node, which a graph need not have.
- WellFormedness.WellFormedChecker.VisitInnerNode: likewise for prefixes that fit in the header only.
- TreeStats.TreeStatsCollector.Visit: memory sizes are left out.
- Runs.RunActions: cloning, hashing, changing values in place and the other entry methods of the fuzz target are not among the actions; its extend is a run of insertions.
- Heaps.NodeHeap.Allocate: stands for `allocate_node_ptr`. A node that was built and not yet allocated is a local value, so dropping one is not a leak.
