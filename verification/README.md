# libcp containers in Dafny

libcp is a C library of containers. This project models the ones whose correctness rests on an
invariant under changes in place, and proves for each that every operation keeps the invariant
and does to the container what the library promises, on all inputs and in every reachable state.

| files | what they model |
|---|---|
| RedBlackTree, RedBlackSteps, TreeLinks, TreeOrder, TreeMap | src/treemap.c, the red-black map on linked nodes |
| RadixForest, RadixSteps, RadixCanonical, RadixLinks, RadixMap | src/radixmap.c, the compressed radix map |
| HashTable, HashMap | src/hashmap.c, open addressing with tombstones |
| UnionFindForest, UnionFind | src/unionfind.c |
| BitreeSums, Bitree | src/bitree.c, the Fenwick tree |
| SegmentFold, SegmentTree | src/segtree.c |
| SdsLaws, Sds | splitting, joining, replacing and trimming in src/sds.c |
| HeapOrder, Heap | src/heap.c |
| GraphEdges, Graph | src/graph.c |
| BitsetBytes, BitsetPacking, Bitset | src/bitset.c |
| Deque | src/deque.c |
| BinaryArithmetic, Options, Allocation | powers of two and bitwise and, an optional result, steps that may fail |

`dafny verify dfyconfig.toml` checks everything.

## How the models are built

Each container is a class with the fields of the C struct and methods with the loops and branches
of the C functions. A ghost field `contents` (`values` for the two range trees, `unions` for
union-find) is the abstract value, and `Valid()` ties the real fields to it. Operations are proved
against that value; what is true of the value and of the representation is proved in lemmas about
sequences, maps and trees beside the class.

The two linked structures work on real nodes. A snapshot of the node fields, a map from nodes to
cells, represents a tree value. A tree with a hole stands for the place that a loop or a recursion
has reached, so each pointer change is one lemma about a snapshot and one about trees. The trees
themselves are only ghost state.

Assumptions, each of them what the library asks of its callers or an abstraction of its platform:

- The comparator of the tree map is a total order, that of the heap a total preorder.
- The merge of the segment tree is total and associative, with an identity on both sides
  (src/segtree.h:17-20).
- The hash is any function from keys to natural numbers; nothing depends on which.
- Sizes and capacities stay below the range of size_t, and sums below that of int64_t. Where
  machine words matter (the lowest bit of src/bitree.c, the mask of src/hashmap.c, the bytes of
  src/bitset.c) the bits are modelled.
- Operations that allocate or copy elements take a flag `plenty`. With plenty of memory every such
  step succeeds, and the contracts say that the operation then does. Without, each step may fail or
  not, and the contracts say what a failure leaves behind. A failed copy into a deque slot may leave
  anything there.
- Freed nodes leave the ghost set `nodes`. That set is exactly the nodes of the tree, so nothing is
  lost and nothing freed is still linked.
- NUL-terminated keys are sequences of characters; the end of the sequence is the terminator.

Branches of the C code that mirror each other, left and right, are one branch with a `Side`
parameter. A `radixmap_node **` link is the node that holds it and the name of the field. A long C
function is several methods: its loops and cases have contracts of their own.

## Model

| member | source | states |
|---|---|---|
| `RedBlackTree.BalancedMeans` | src/treemap.c:180-320 | The balance both fixup loops restore is the textbook one: no red node has a red child, and every way down to a NULL leaf passes the same number of black nodes. |
| `RedBlackTree.PlugRedBlack` | src/treemap.c:180-320 | A whole tree is red-black exactly when the subtree at the place a fixup has reached is balanced and its surroundings accept a subtree of that black height and colour. |
| `RedBlackSteps.InsertGrandparent` | src/treemap.c:181-183 | While the insert loop runs, the grandparent it dereferences exists and is black. |
| `RedBlackSteps.InsertRedUncle` | src/treemap.c:185-189 | Recolouring under a red uncle leaves at most one red-red violation, two levels further up. |
| `RedBlackSteps.InsertInner` | src/treemap.c:191-194 | Rotating an inner grandchild turns its case into the outer one, with the same violation and no other. |
| `RedBlackSteps.InsertOuter` | src/treemap.c:195-197 | Recolouring and rotating the grandparent removes the violation. |
| `RedBlackSteps.DeleteSibling` | src/treemap.c:239-257 | A node that is one black short, NULL or not, has a sibling; a red one has two black children. |
| `RedBlackSteps.DeleteRedSibling` | src/treemap.c:247-253 | After the red-sibling rotation the same node is still one black short and its sibling is black. |
| `RedBlackSteps.DeleteBlackNephews` | src/treemap.c:257-261 | With black nephews, reddening the sibling moves the shortage to the parent. |
| `RedBlackSteps.DeleteNearNephew` | src/treemap.c:263-272 | A red near nephew is turned into a red far one, with the shortage unchanged. |
| `RedBlackSteps.DeleteFarNephew` | src/treemap.c:274-279 | With a red far nephew the last rotation gives a red-black tree. |
| `RedBlackSteps.SuccessorPending` | src/treemap.c:524-542 | When a node with two children is replaced by its successor, the tree is red-black again or one black short exactly where the successor hung, by the colour of the successor. |
| `TreeLinks.RotationRepresents` | src/treemap.c:138-178 | A rotation of the pointers, parent links and the root pointer included, turns the tree they represent into the rotated one and touches nothing else. |
| `TreeLinks.RemoveRepresents` | src/treemap.c:222-235 | Transplanting the only child over a node represents the tree without that node. |
| `TreeLinks.SubstituteRepresents` | src/treemap.c:222-235 | Moving a detached node into the place of one with two children represents the same tree with the one node for the other. |
| `TreeMaps.TreeMap.LeftRotate` | src/treemap.c:138-157 | The six pointer writes make exactly the links of a left rotation. |
| `TreeMaps.TreeMap.RightRotate` | src/treemap.c:159-178 | The six pointer writes make exactly the links of a right rotation. |
| `TreeMaps.TreeMap.Transplant` | src/treemap.c:222-235 | The parent, or the map, points to the new node instead of the old one, on the side where the old one was; the new node, if any, points back; no other link changes. |
| `TreeMaps.TreeMap.InsertFixup` | src/treemap.c:180-220 | From a tree whose only fault is a red parent of the new red node, the loop ends with a red-black tree of the same nodes in the same order, after at most two rotations and half as many rounds as that node is deep. |
| `TreeMaps.TreeMap.DeleteFixup` | src/treemap.c:237-320 | From a tree that is one black short at a possibly NULL node, the loop ends with a red-black tree of the same nodes in the same order, after at most three rotations and as many rounds as that node is deep. |
| `TreeMaps.TreeMap.DeleteStep` | src/treemap.c:239-317 | Each iteration keeps the pending shortage and the order, and moves strictly up or ends at a red node; comparing the node with the left child of its parent finds its side even when it is NULL. Only an iteration that ends the loop rotates. |
| `TreeMaps.TreeMap.FindNode` | src/treemap.c:100-115 | Finds the node of a key if and only if there is one, comparing at most 2 log2(size + 1) nodes. |
| `TreeMaps.TreeMap.Descend` | src/treemap.c:457-478 | Comes to the node of the key, or else to the NULL link where it belongs and the side of it, comparing at most 2 log2(size + 1) nodes. |
| `TreeOrder.HeightBound` | src/treemap.c:100-136 | A red-black tree of n nodes is at most 2 log2(n + 1) nodes deep. |
| `TreeMaps.TreeMap.Set` | src/treemap.c:449-494 | Keeps the red-black, order and link invariants; maps the key to the value and leaves every other key; a failure, possible only when memory runs out, or an existing key, changes no node. |
| `TreeMaps.TreeMap.Insert` | src/treemap.c:479-492 | A new node, linked red where the search ended, leaves an ordered red-black tree with exactly that node and its entry more. |
| `TreeMaps.TreeMap.Unlink` | src/treemap.c:513-543 | Splicing out a node, whichever of the three cases applies, leaves the other nodes in order and names the place where a fixup has to start, if one is needed. |
| `TreeMaps.TreeMap.Delete` | src/treemap.c:501-555 | Keeps all invariants; succeeds exactly when the key is there, frees exactly its node, and removes exactly that key. |
| `TreeMaps.TreeMap.FindBound` | src/treemap.c:117-136 | Returns the least key that is not less than the argument, or greater than it when strict, or nothing when every key is less, or not greater, said in terms of the comparator alone; compares at most 2 log2(size + 1) nodes. |
| `TreeMaps.TreeMap.Minimum` | src/treemap.c:68-73 | The first node of a subtree, in fewer steps than the subtree is high. |
| `TreeMaps.TreeMap.Maximum` | src/treemap.c:75-80 | The last node of a subtree, in fewer steps than the subtree is high. |
| `TreeMaps.TreeMap.First` | src/treemap.c:583-586 | The node of the least key, at most 2 log2(size + 1) steps from the root. |
| `TreeMaps.TreeMap.Next` | src/treemap.c:619-629 | The node that follows in key order, or NULL after the last, at most 2 log2(size + 1) links away. |
| `TreeMaps.TreeMap.Prev` | src/treemap.c:635-645 | The node that precedes in key order, or NULL before the first, at most 2 log2(size + 1) links away. |
| `TreeMaps.TreeMap.ListKeys` | src/treemap.c:420-421 | A walk from first by next yields as many keys as the size, in strictly increasing order, and they are exactly the keys of the map. |
| `TreeMaps.TreeMap.NextKey` | src/treemap.c:619-629 | The node that follows has the least of all keys greater than the node's: it is the upper bound of that key, and there is none only after the greatest. |
| `TreeMaps.TreeMap.PrevKey` | src/treemap.c:635-645 | The node that precedes has the greatest of all keys less than the node's. |
| `TreeMaps.TreeMap.EndKeys` | src/treemap.c:583-601 | The first node has the least key of all, and the last node the greatest. |
| `RedBlackTree.PredecessorInvertsSuccessor` | src/treemap.c:619-645 | Stepping back undoes stepping on, and the other way round. |
| `TreeMaps.TreeMap.OrderedNodes` | src/treemap.c:583-629 | The order that first and next walk holds every node exactly once. |
| `TreeOrder.SortedUnique` | src/treemap.c:100-136 | In a sorted tree different nodes have different keys. |
| `TreeMaps.TreeMap.CopyFrom` | src/treemap.c:410-431 | Whatever the map held before, it equals the source afterwards, in new nodes and with the comparator of the source; a failure leaves it empty. |
| `TreeMaps.TreeMap.Clone` | src/treemap.c:433-447 | An equal map in new nodes; a failure, possible only when memory runs out, gives NULL. |
| `TreeMaps.TreeMap.SizeIsCardinality` | src/treemap.c:449-555 | The size field is the number of keys. |
| `TreeMaps.TreeMap.Lookup` | src/treemap.c:565-572 | Finds the value slot of a key exactly when the key is in the map. |
| `RadixForest.NoFirst` | src/radixmap.c:60-69 | No key is stored under a first character that no sibling starts with. |
| `RadixForest.Enter` | src/radixmap.c:153-170 | A key is stored exactly where the one sibling with its first character leads, and only if the whole segment matches. |
| `RadixForest.Sample` | src/radixmap.c:235-285 | Every subtree of a compressed tree stores some key, which starts with its segment. |
| `RadixForest.EnterPrefix` | src/radixmap.c:443-463 | How a prefix that ends inside a segment, beyond it, or apart from it decides whether a key below starts with it. |
| `RadixForest.PlugUpdated` | src/radixmap.c:371-406 | A change of what is stored below one link changes what the whole tree stores for that key only. |
| `RadixSteps.SplitChanged` | src/radixmap.c:97-151 | Splitting an edge stores the new key and keeps all others, one value more, and both the compressed and the canonical form. |
| `RadixSteps.LeafChanged` | src/radixmap.c:383-395 | A leaf appended at the end of the siblings stores the new key and keeps all others and both forms. |
| `RadixSteps.ChildEmptied` | src/radixmap.c:248-272 | Deleting below a child, and cutting it off when it is bare, removes exactly that key. |
| `RadixSteps.MergedDeleted` | src/radixmap.c:209-233 | Merging a valueless node with its only child stores the same keys and restores the canonical form. |
| `RadixSteps.SkippedDeleted` | src/radixmap.c:209-215 | When memory for the merge runs out, the tree still stores the right keys and every subtree still holds a value. |
| `RadixLinks.Graft` | src/radixmap.c:97-285 | Changing one link and the nodes below it represents the tree with that part exchanged. |
| `RadixLinks.SplitRepresents` | src/radixmap.c:135-149 | The links written by a split represent the split tree, with a leaf before the old node or a value at the new one. |
| `RadixLinks.MergeRepresents` | src/radixmap.c:221-232 | The fields written by a merge represent the merged tree without the child. |
| `RadixMaps.RadixMap.CommonPrefixLen` | src/radixmap.c:52-58 | The number of characters on which a segment and a key agree, and they differ after that. |
| `RadixMaps.RadixMap.MatchChild` | src/radixmap.c:157-165 | Returns the child whose whole segment starts the key, with what is stored below it, or reports rightly that the key is not stored. |
| `RadixMaps.RadixMap.At` | src/radixmap.c:436-441 | Returns the value of exactly the stored keys. |
| `RadixMaps.RadixMap.HasPrefix` | src/radixmap.c:443-463 | True exactly when some stored key starts with the prefix, even one that ends inside a segment. |
| `RadixMaps.RadixMap.Set` | src/radixmap.c:371-406 | Maps the key to the value and leaves every other key; keeps the compressed form, and the canonical form if it held; a failure, possible only when memory runs out, changes nothing. |
| `RadixMaps.RadixMap.DeleteNode` | src/radixmap.c:235-285 | The recursion removes exactly the rest of the key below a node, reports whether it was there, and tells the caller when the node is bare. |
| `RadixMaps.RadixMap.Delete` | src/radixmap.c:412-417 | Removes exactly the key and reports whether it was there; keeps the compressed form always, and the canonical form unless memory for a merge ran out. |
| `RadixMaps.RadixMap.FewNodes` | src/radixmap.c:97-151 | A canonical map has at most 2 size + 1 allocated nodes. |
| `RadixCanonical.CanonicalNodes` | src/radixmap.c:97-151 | A canonical run of siblings has fewer than twice as many nodes as values. |
| `RadixCanonical.KeysFixShape` | src/radixmap.c:97-285 | Two canonical trees that store the same keys are the same up to the order of siblings, whatever the values; if they store the same map, so are the values. |
| `RadixCanonical.ShapeFixesKeys` | src/radixmap.c:153-170 | Trees that are the same up to the order of siblings store the same keys, and with the same values the same map. |
| `RadixMaps.RadixMap.KeysFixShape` | src/radixmap.c:97-285 | Two canonical radix maps have the same keys exactly when their trees are the same up to the order of siblings, whatever the values. |
| `RadixMaps.RadixMap.ContentsFixShape` | src/radixmap.c:97-285 | They have the same contents exactly when the values at the nodes are the same as well. |
| `RadixMaps.RadixMap.CloneChain` | src/radixmap.c:179-203 | The copy of a chain is equal to it, node for node, in new nodes only. |
| `RadixMaps.RadixMap.CopyFrom` | src/radixmap.c:330-357 | Makes the map equal to the source in new nodes, canonical if the source is; a failure leaves it as it was. |
| `RadixMaps.RadixMap.Clear` | src/radixmap.c:419-430 | Leaves the root alone and an empty map. |
| `UnionFindForest.ConnectedLeast` | src/unionfind.c:135-153 | The relation that the list of unions generates is contained in every equivalence that relates the united pairs. |
| `UnionFindForest.ConnectedReflexive` | src/unionfind.c:135-153 | That relation is reflexive. |
| `UnionFindForest.ConnectedSymmetric` | src/unionfind.c:135-153 | That relation is symmetric. |
| `UnionFindForest.ConnectedTransitive` | src/unionfind.c:135-153 | That relation is transitive, and so it is the equivalence closure of the unions. |
| `UnionFindForest.ConnectedContains` | src/unionfind.c:135-153 | Every united pair is related. |
| `UnionFindForest.PathLeast` | src/unionfind.c:112-120 | What a find rewrites is the least set that holds x and, with every element, its parent. |
| `UnionFindForest.CompressedState` | src/unionfind.c:108-123 | Moving links to roots changes no root, increases no depth, and keeps the whole state. |
| `UnionFindForest.DepthBound` | src/unionfind.c:108-153 | 2 to the power of an element's depth is at most the size stored at its root. |
| `UnionFindForest.LinkedState` | src/unionfind.c:145-152 | Linking the smaller root below the larger one keeps the depth bound, the class sizes, the number of roots and the closure of the unions. |
| `UnionFindForest.ClassConnected` | src/unionfind.c:163-168 | The size stored at a root is the number of elements connected to it. |
| `UnionFinds.UnionFind.Find` | src/unionfind.c:108-123 | Returns the root, each of the two loops taking at most log2 of the set size rounds; hangs exactly the elements on the way below the root, moves no element to another set and none deeper. |
| `UnionFinds.UnionFind.FindConst` | src/unionfind.c:125-133 | Returns the same root within the same number of steps, and changes nothing. |
| `UnionFinds.UnionFind.Union` | src/unionfind.c:135-153 | 1 exactly when two different sets became one, which lowers the set count by one, and then the root of the larger set, of a in a tie, is the root of all their elements; 0 when the elements were connected already; -1 on invalid input; no other element gets another root. |
| `UnionFinds.UnionFind.Same` | src/unionfind.c:155-161 | 1 exactly when the unions so far connect the two elements. |
| `UnionFinds.UnionFind.SetSize` | src/unionfind.c:163-168 | The number of elements the unions so far connect to x. |
| `UnionFinds.UnionFind.Reset` | src/unionfind.c:97-106 | Every element is alone again. |
| `HashTable.ProbeEnd` | src/hashmap.c:134-159 | A probe that meets an empty bucket has passed every bucket where the key could be, and the bucket it returns, tombstone or empty, is the first one on the path that is not occupied. |
| `HashTable.SomeEmpty` | src/hashmap.c:196-207 | A table that its load does not fill has an empty bucket, so every probe ends. |
| `HashTable.LoadedInsert` | src/hashmap.c:366-373 | Storing an absent key there keeps keys unique and reachable, both counters, the load limit and the map. |
| `HashTable.LoadedDelete` | src/hashmap.c:397-401 | A tombstone keeps every other key reachable and removes exactly one entry. |
| `HashTable.LoadedSize` | src/hashmap.c:366-406 | The size field is the number of keys. |
| `HashTable.MovedStep` | src/hashmap.c:172-183 | Moving one more entry keeps the new table free of tombstones and equal to the part of the old one already moved. |
| `HashTable.MovedDone` | src/hashmap.c:161-194 | The new table stands for the old map and has no tombstone. |
| `HashTable.PosCyclic` | src/hashmap.c:112-118 | A probe path goes round the table from the home bucket, one bucket a step. |
| `HashTable.MaskStep` | src/hashmap.c:112-118 | Masking the incremented index with capacity - 1 is the next bucket on the cyclic path. |
| `BinaryArithmetic.AndMask` | src/hashmap.c:136-137 | The bitwise and with a power of two less one is the remainder. |
| `HashMaps.HashMap.BucketCapacityForEntries` | src/hashmap.c:96-104 | The least of the doubled bucket counts that the entries do not overload. |
| `HashMaps.HashMap.FindSlot` | src/hashmap.c:134-159 | Terminates; finds the key exactly when it is stored, and otherwise the first bucket on its path that is not occupied, empty or a tombstone. |
| `HashMaps.HashMap.Rehash` | src/hashmap.c:161-194 | Keeps the map and drops every tombstone; a failure, possible only when memory runs out, changes nothing. |
| `HashMaps.HashMap.Reserve` | src/hashmap.c:313-321 | Keeps the map; afterwards there is no tombstone and n entries fit without another rehash, in no larger a table than that takes. |
| `HashMaps.HashMap.Set` | src/hashmap.c:323-378 | Maps the key to the value and leaves every other key; a failure, possible only when memory runs out, changes no entry; a new key goes to the first bucket on its path that was not occupied; the table doubles exactly when the load limit would be passed, never while a reserve lasts. |
| `HashMaps.HashMap.Delete` | src/hashmap.c:389-409 | Removes exactly the key, reports whether it was there, leaves one tombstone more, and drops them all with the last entry. |
| `HashMaps.HashMap.At` | src/hashmap.c:440-451 | Returns the value of exactly the stored keys. |
| `HashMaps.HashMap.FindOccupiedFrom` | src/hashmap.c:124-132 | The least occupied bucket from start on. |
| `HashMaps.HashMap.EachEntryOnce` | src/hashmap.c:124-132 | The buckets listed in order, as first and next visit them, are as many as the size and hold each entry exactly once. |
| `HashMaps.HashMap.CopyFrom` | src/hashmap.c:272-297 | Makes the map equal to the source by visiting exactly its occupied buckets, in ascending order; a failure leaves it empty. |
| `BitreeSums.LowBitMask` | src/bitree.c:7-10 | On machine words, i & (~i + 1) is the lowest set bit. |
| `BitreeSums.NextCover` | src/bitree.c:97 | After node i, the next node whose range covers a position is i plus its lowest bit. |
| `BitreeSums.TreeAdd` | src/bitree.c:94-102 | When exactly the nodes that cover a position grow by d, the tree stands for the values with that one grown by d. |
| `BitreeSums.PopCountStep` | src/bitree.c:15-18 | Taking off the lowest bit leaves one bit less. |
| `Bitrees.Bitree.PrefixSum` | src/bitree.c:12-21 | The sum of the first count values, in as many steps as count has bits set. |
| `Bitrees.Bitree.Add` | src/bitree.c:94-102 | Adds to one value and no other, visiting exactly the nodes that cover it, at most log2(size) + 1 of them. |
| `Bitrees.Bitree.Range` | src/bitree.c:121-126 | The sum of the values from begin to end. |
| `Bitrees.Bitree.Get` | src/bitree.c:111-113 | The value at an index, which is what set put there. |
| `Bitrees.Bitree.Set` | src/bitree.c:104-109 | Overwrites one value and no other. |
| `Bitrees.Bitree.CopyFrom` | src/bitree.c:63-72 | Takes over all values; an allocation that fails leaves a tree that holds no values and is not valid. |
| `SegmentFold.FoldLevel` | src/segtree.c:247-248 | A run of inner nodes folds to the same value as the run of their children. |
| `SegmentFold.FoldFirst` | src/segtree.c:226-236 | A left-to-right fold can take its first value off on the left, for any associative merge. |
| `SegmentFold.QueryLeft` | src/segtree.c:227-236 | Merging an odd left node into the left accumulator keeps the result still to be found. |
| `SegmentFold.QueryRight` | src/segtree.c:237-246 | Merging an odd right node into the right accumulator keeps the result still to be found. |
| `SegmentTrees.SegmentTree.NextCapacity` | src/segtree.c:19-29 | The least power of two that is not below the size. |
| `SegmentTrees.SegmentTree.Build` | src/segtree.c:155-173 | Loads the values and makes every inner node the merge of its children, also when the size is no power of two. |
| `SegmentTrees.SegmentTree.Set` | src/segtree.c:175-189 | Overwrites one value, and every inner node is again the merge of its children. |
| `SegmentTrees.SegmentTree.Query` | src/segtree.c:198-262 | The values from begin to end merged from left to right, for any associative merge with an identity; every node read is in bounds; it fails only on a bad range or when memory runs out. |
| `SegmentTrees.SegmentTree.Reset` | src/segtree.c:145-153 | Every value is the identity again. |
| `SdsLaws.FirstLeftmost` | src/sds.c:45-58 | The search finds an occurrence unless there is none, and no occurrence starts before it. |
| `SdsLaws.JoinSplit` | src/sds.c:310-352 | Joining what was split gives the text back. |
| `SdsLaws.SplitJoin` | src/sds.c:268-352 | For every list of parts: splitting the joined text gives the parts back exactly when there is a part at all and no part, with the separator behind it, shows the separator earlier. |
| `SdsLaws.CleanByte` | src/sds.c:310-352 | For a separator of one byte this means that there is a part and that none contains the byte. |
| `SdsLaws.SplitUnique` | src/sds.c:310-352 | Split returns the only such list of parts that joins to the text. |
| `SdsLaws.SplitAt` | src/sds.c:310-352 | Every part ends at the first separator behind its start, and the last part holds none. |
| `SdsLaws.JoinOneMore` | src/sds.c:268-303 | Joining writes the parts in order with the separator between each two; no parts give the empty text. |
| `SdsLaws.ReplaceIsSplitJoin` | src/sds.c:207-261 | Replacing is splitting by the one text and joining with the other. |
| `SdsLaws.ReplaceLength` | src/sds.c:228-232 | The length that replacing computes from the number of occurrences. |
| `SdsStrings.FindBytes` | src/sds.c:45-58 | Returns the leftmost occurrence of a needle; an empty needle is never found. |
| `SdsStrings.CountMatches` | src/sds.c:219-226 | Counts the leftmost occurrences that do not overlap. |
| `SdsStrings.SplitText` | src/sds.c:310-352 | Fills an array of exactly as many slots as there are parts; an empty separator fails. |
| `SdsStrings.JoinParts` | src/sds.c:268-303 | The parts with the separator between them; the length added up first is the number of bytes written. |
| `SdsStrings.ReplaceAll` | src/sds.c:207-261 | Every leftmost occurrence replaced; the length computed first is the number of bytes written; without an occurrence the string itself. The old string is freed exactly when a new one is returned. |
| `SdsStrings.Trim` | src/sds.c:182-197 | Keeps, in place, the bytes from the first to the last that is neither in the set nor zero; every byte cut off is one or the other. |
| `HeapOrder.UpStep` | src/heap.c:144-151 | Moving the new element above a smaller parent leaves it the only one that may be out of order. |
| `HeapOrder.DownStep` | src/heap.c:167-182 | Moving an element below its larger child leaves it the only one that may be out of order. |
| `HeapOrder.TopIsMax` | src/heap.c:199-202 | No element compares greater than the first one. |
| `HeapOrder.Drain` | src/heap.c:158-185 | Every complete run of pops yields a permutation of the elements in which none compares less than a later one. |
| `Heaps.Heap.Push` | src/heap.c:129-156 | Keeps heap order and adds exactly one element, which rises from the end past just those parents that compare less; no element then compares greater than the first; a failure, possible only when memory runs out, changes no element. |
| `Heaps.Heap.Pop` | src/heap.c:158-185 | Keeps heap order and removes exactly the first element, than which none compares greater; the last one takes its place and sinks below each greater child. |
| `Heaps.Heap.PopAll` | README.md:169-172 | A loop of top and pop empties the heap and yields all its elements, none comparing less than a later one. |
| `Heaps.Heap.CopyFrom` | src/heap.c:82-101 | Reproduces the array of the source exactly; a failure leaves the heap empty. |
| `GraphEdges.AddSound` | src/graph.c:120-131 | Adding an edge keeps both directions equally often stored, loops in pairs, and the degree sum twice the edge count (once when directed). |
| `GraphEdges.DeleteSound` | src/graph.c:133-162 | Deleting a stored edge keeps the same. |
| `GraphEdges.ReverseStored` | src/graph.c:148-150 | The search for the other direction, or for the second half of a loop, cannot fail. |
| `GraphEdges.AddDelete` | src/graph.c:120-162 | Deleting an edge just added restores every adjacency list as a multiset. |
| `Graphs.Graph.AddEdge` | src/graph.c:120-131 | Stores exactly one logical edge, at the end of its list, and without direction also at the end of the other; when the second half cannot be stored, the first is taken back and every list is as before. |
| `Graphs.Graph.DeleteEdge` | src/graph.c:133-162 | 1 exactly when the edge is stored, and then the first entry that matches is gone, without direction its first reverse as well, and all other entries keep their order; otherwise every list is as before. |
| `Graphs.Graph.AddThenDelete` | src/graph.c:120-162 | Deleting the edge just added succeeds and leaves the same edges and the same edge count as before. |
| `Graphs.Graph.HasEdge` | src/graph.c:164-174 | True exactly when an edge of any weight leads from the one vertex to the other. |
| `Graphs.Graph.CopyFrom` | src/graph.c:84-105 | Takes over every adjacency list, entry by entry in order, in new storage; a failure changes nothing. |
| `BitsetPacking.PacksUnique` | src/bitset.c:197-203 | Byte-wise equality is equality of the bit sequences, because the tail bits are zero. |
| `BitsetPacking.TailCleared` | src/bitset.c:27-32 | Clearing the tail makes storage canonical, whatever the unused bits were. |
| `BitsetPacking.ParseShow` | src/bitset.c:302-331 | Reading back what was written gives the bits back. |
| `BitsetPacking.ShowParse` | src/bitset.c:302-331 | Writing what was read gives the text back, for every text of digits 0 and 1. |
| `BitsetBytes.DropLowest` | src/bitset.c:34-43 | b & (b - 1) has one bit less than b. |
| `Bitsets.Bitset.Resize` | src/bitset.c:45-66 | Keeps the old bits there is room for and adds only zeros; a failure, which a resize to zero bits cannot have, changes nothing. |
| `Bitsets.Bitset.Set` | src/bitset.c:113-121 | Writes one bit and no other. |
| `Bitsets.Bitset.Flip` | src/bitset.c:148-152 | Negates one bit and no other. |
| `Bitsets.Bitset.FlipAll` | src/bitset.c:154-165 | Negates every bit and leaves the tail zero. |
| `Bitsets.Bitset.Combine` | src/bitset.c:167-195 | Conjunction, disjunction or inequality of the two sets position by position, with the tail still zero. |
| `Bitsets.Bitset.Equal` | src/bitset.c:197-203 | True exactly when the two sets have the same bits. |
| `Bitsets.Bitset.CountSet` | src/bitset.c:262-278 | The number of positions whose bit is set. |
| `Bitsets.Bitset.AllSet` | src/bitset.c:231-243 | True exactly when every bit is set. |
| `Bitsets.Bitset.AnySet` | src/bitset.c:245-256 | True exactly when some bit is set. |
| `Bitsets.Bitset.FromString` | src/bitset.c:312-331 | Accepts exactly the texts of size digits 0 and 1, sets just the positions that show 1, counted from the end of the text, and any other text changes nothing. |
| `Bitsets.Bitset.ToString` | src/bitset.c:302-310 | Character size - 1 - j of the text is 1 or 0 as bit j is set or not. |
| `Deques.SlotsDistinct` | src/deque.c:21-23 | Different elements have different slots. |
| `Deques.RingPushFront` | src/deque.c:146-149 | An element put into the slot before the head comes first, and all others keep their places. |
| `Deques.Deque.Reserve` | src/deque.c:102-121 | A buffer of just the capacity asked for, if it is larger, holds the same elements in the same order. |
| `Deques.Deque.PushBack` | src/deque.c:123-136 | Appends exactly one element, in a buffer that doubles only when it is full; a failed copy changes no element. |
| `Deques.Deque.PushFront` | src/deque.c:138-158 | Prepends exactly one element; a failed copy changes no element, and moves the head back. |
| `Deques.Deque.PopBack` | src/deque.c:160-168 | Removes exactly the last element. |
| `Deques.Deque.PopFront` | src/deque.c:170-181 | Removes exactly the first element. |
| `Deques.Deque.Set` | src/deque.c:183-199 | Overwrites one element and no other. |
| `Deques.Deque.CopyFrom` | src/deque.c:69-87 | Holds the elements of the source in order; a failure leaves the deque empty. |

## Left out

- src/hashset.c, src/treeset.c, src/radix.c: they delegate to the maps line by line.
- src/vector.c and src/list.c: only what src/graph.c needs of a vector appears, as a sequence.
- src/legacy: macro versions of the same containers.
- sdscmp, sdsncat, sdscat, sdsnewfmt, sdsdup and the header in front of the bytes in src/sds.c: easy beside split, join and replace, or not about the bytes. A part that sdssplitlen allocates is its sequence of bytes.
- Destroy callbacks, element sizes in bytes, NULL-argument guards, and the new/free/init/destroy wrappers beyond the initial state.
- Concrete hash functions (src/hashmap.c:13-28) and string keys that are copied: keys are values.
- unionfind_copy and unionfind_clone (src/unionfind.c:71-95): plain copies of the two arrays.
- Overflow: SIZE_MAX checks (src/segtree.c:23-46) and the growth of capacities past the range of size_t.
- TreeMaps.TreeMap.Set: key validity and string-key copies are not modelled.
- RadixMaps.RadixMap.CloneChain: a node is allocated after its children and siblings have been copied, where src/radixmap.c:182 allocates it before; only the order of allocations differs.
- HashMaps.HashMap.At: returns the value instead of a pointer to its slot, so writes through the pointer are not modelled; the same holds for Deques.Deque.At, Heaps.Heap.Top and the radix map.
- Bitrees.Bitree.CopyFrom: a tree whose copy failed, whose nodes src/bitree.c leaves NULL, is not valid and promises only that it holds no values.
- SegmentTrees.SegmentTree.CopyFrom: a tree whose copy failed is not valid and promises only that it holds no values.
