# BeeGame trees in Dafny

A verified model of the data-structure core of BeeGame:

- **bst.py**: a binary search tree (`BinarySearchTree`) whose nodes store their subtree size. It has lookup, insert, delete with successor copy, `get_minimal`, `get_successor`, `is_leaf` and the rank query `kth_smallest`.
- **ratio.py**: `Percentiles`, a store of values in such a tree. Its `ratio(x, y)` computes two rank thresholds from the percentages, looks up the values at those ranks, and collects every stored value between them with the pruned in-order walk `aux_ratio`.
- **threedeebeetree.py**: the 3-D octant tree `ThreeDeeBeeTree` of `BeeNode`s. Each child sits in one of eight slots chosen by `get_octant_idx_for_point`.
- **balancing.py**: `make_ordering`, which puts the points' x-coordinates into a `Percentiles` store, takes the first value of a percentile band as pivot, and sorts the points by their x-distance to it.

Modules follow the files: `Outcomes` (the exceptions the code raises, as `Result`/`Outcome` values), `Bst`, `Ratio`, `ThreeDeeBee` and `Balancing`.

Tree nodes are datatypes, and each one carries the `subtree_size` the code stores. The size invariant is therefore a property the operations are proved to keep, not a definition. The objects whose fields the code reassigns are classes:

- `BinarySearchTree` has `root` and `length`.
- `Percentiles` has `items`.
- `ThreeDeeBeeTree` has `root` and `length`.

Each object method states its whole new state in terms of the pure operation on the old one.

Every operation is tied to an abstract view:

- `Keys`, `Items`, `Count` and `InOrder` of a tree;
- `Points`, `Size` and `Lookup` of a 3-D tree;
- `RankBand`, the rank window a percentile query selects from the ascending values;
- `SortByDistance`, a reference stable sort by distance.

Lemmas prove the source's promises about these views: ordering, sizes, exact key and item changes, rank lookup, the window that `ratio` returns, stability and permutation of the sort, and the pivot being the least x.

## Model

| member | source | states |
|---|---|---|
| Bst.GetTreeNodeByKeyAux | bst.py:72-80 | On an ordered tree the lookup succeeds exactly when the key is stored, and returns the node with that key and its stored item. Otherwise it raises KeyError. |
| Bst.InsertAux | bst.py:85-103 | On a size-augmented BST: ValueError exactly when the key is already present. Otherwise the result is still a size-augmented BST, with keys old + {key}, items old[key := item] and one more node. |
| Bst.StoredSizeIsCount | bst.py:100-101 | Where every node keeps subtree_size = 1 + left + right (absent child 0), the stored size is the number of nodes. |
| Bst.Leftmost | bst.py:188-194 | Following left children from a non-empty subtree reaches a node without left child. On an ordered tree it holds the least key, with that key's item. |
| Bst.GetMinimal | bst.py:170-194 | The loop returns None exactly for an empty subtree. Otherwise it returns the node with the smallest key and its item. |
| Bst.GetSuccessor | bst.py:141-167 | Some exactly when the node has a right child. The result is then the least key of the right subtree, above the node's key and at most every larger key. |
| Bst.IsLeaf | bst.py:197-200 | A node is a leaf exactly when its subtree has one node. |
| Bst.DeleteAux | bst.py:108-138 | On an ordered tree deletion succeeds exactly when the key is stored. Otherwise it raises ValueError. |
| Bst.DeleteAuxCorrect | bst.py:108-138 | Deleting a stored key, including the two-child successor copy, gives a size-augmented BST with keys old - {key}, items old - {key} and one node fewer. |
| Bst.KeysCount | bst.py:43-46 | In an ordered tree the number of distinct keys equals the number of nodes, so the length counter counts keys. |
| Bst.InOrderFacts | bst.py:222-253 | The in-order sequence has one entry per node and holds exactly the keys. On an ordered tree it is strictly ascending, the order in which ranks are counted. |
| Bst.KthSmallest | bst.py:222-253 | With correct stored sizes: Some exactly when 1 <= k <= size, and then the node holds the k-th key of the in-order sequence. On a BST the node's item is that key's item. |
| Bst.InOrderDeterminedByKeys | ratio.py:117-123 | Two BSTs with the same keys have the same in-order sequence, so the order in which points were added does not affect ranks. |
| Bst.BinarySearchTree.constructor | bst.py:27-34 | A new tree is empty with length 0. |
| Bst.BinarySearchTree.IsEmpty | bst.py:36-41 | is_empty holds exactly when no key is stored, which on a valid tree is when len is 0. |
| Bst.BinarySearchTree.Len | bst.py:43-46 | On a valid tree len is the number of nodes and the number of keys. |
| Bst.BinarySearchTree.GetItem | bst.py:60-70 | On a valid tree `tree[key]` succeeds exactly when the key is stored and returns its item. Otherwise it raises KeyError. |
| Bst.BinarySearchTree.Contains | bst.py:48-58 | `key in tree` holds exactly when the key is stored. |
| Bst.BinarySearchTree.SetItem | bst.py:82-103 | It fails exactly when the key is present, with ValueError, leaving root and length unchanged. Otherwise the item is added and length rises by 1. The tree stays valid. |
| Bst.BinarySearchTree.DelItem | bst.py:105-138 | It fails exactly when the key is absent, with ValueError, leaving root and length unchanged. Otherwise the key is removed and length drops by 1. The tree stays valid. |
| Bst.ScenarioBuild | bst.py:82-103 | Inserting 5, 3, 8, 1, 4, 7, 9 in turn builds the tree with root 5 and stored sizes 7, 3, 3, 1. |
| Bst.ScenarioRankBefore | bst.py:222-253 | In that tree kth_smallest(4) is the root, key 5. |
| Bst.ScenarioDelete | bst.py:108-138 | Deleting 5 copies its successor 7 into the root and removes 7 from the right subtree. |
| Bst.ScenarioRankAfter | bst.py:222-253 | After that deletion kth_smallest(4) is key 7. |
| Ratio.CeilPercent | ratio.py:69-70 | The exact ceiling of a/100: 100c - 100 < a <= 100c. |
| Ratio.RankBand | ratio.py:69-84 | The band selected from the ascending values has at most as many entries as there are values, each of them stored. |
| Ratio.InRangeWindow | ratio.py:85-97 | In an ascending sequence, the values between the elements of ranks lo and hi are exactly ranks lo..hi, or nothing when lo > hi. |
| Ratio.AuxRatio | ratio.py:88-97 | On a BST the walk appends to `lst` exactly the in-order keys lying in [x, y]. |
| Ratio.InRangeAtNode | ratio.py:89-96 | At a BST node, the keys in [x, y] are the left subtree's ones when x <= key, then the key if it is in range, then the right subtree's ones when key < y. This is what justifies the pruning. |
| Ratio.WalkKeys | ratio.py:88-97 | What the walk appends is strictly ascending and holds exactly the stored keys v with x <= v <= y. |
| Ratio.Percentiles.constructor | ratio.py:12-22 | A new store owns a fresh empty tree. |
| Ratio.Percentiles.AddPoint | ratio.py:24-37 | The value becomes both key and item: the tree becomes insert_aux of the old one and the count rises by 1. Adding a stored value raises ValueError and changes nothing. |
| Ratio.Percentiles.RemovePoint | ratio.py:39-52 | The value is removed: the tree becomes delete_aux of the old one and the count drops by 1. Removing an absent value raises ValueError and changes nothing. |
| Ratio.Percentiles.Ratio | ratio.py:55-86 | ratio(x, y) returns exactly the rank band of the ascending stored values, from rank ceil(x·n/100)+1 to rank n - ceil(y·n/100). |
| Ratio.LowerRank | ratio.py:69-77 | The rank passed for x is ceil(x·n/100) + 1: the least r with x·n/100 <= r - 1. |
| Ratio.UpperRank | ratio.py:70-78 | The rank passed for y is n - ceil(y·n/100): the largest r with y·n/100 <= n - r. |
| Ratio.RatioLookups | ratio.py:69-84 | If either threshold lookup finds nothing, the band is empty. Otherwise the values found bound exactly the band. |
| Ratio.RankLookups | ratio.py:77-84 | Both rank lookups succeed exactly when both ranks lie in 1..n. The values they return then bound exactly ranks lo..hi. |
| Ratio.RatioWhole | ratio.py:69-85 | ratio(0, 0) selects every stored value, ascending. |
| Ratio.RatioOfEmpty | ratio.py:77-84 | An empty store gives [] for any percentages. |
| Ratio.RatioExample | ratio.py:117-125 | Any BST holding 4, 9, 14, 15, 16, 82, 87, 91, 92, 99 gives [4, 9, 14, 15, 16] for ratio(0, 42), whatever the insertion order. |
| Ratio.ExampleBand | ratio.py:124 | The band of ratio(0, 42) over those ten ascending values is [4, 9, 14, 15, 16]. |
| ThreeDeeBee.GetOctantIdxForPoint | threedeebeetree.py:26-39 | The octant index is 4·[x >= key.x] + 2·[y >= key.y] + [z >= key.z], in 0..7. |
| ThreeDeeBee.SameOctant | threedeebeetree.py:35-39 | Two points share an octant exactly when they lie on the same side of the node in each coordinate. |
| ThreeDeeBee.GetChildForKey | threedeebeetree.py:15-24 | The result is the child in the query's octant slot, and None exactly when that slot is empty. In a well-formed tree, a stored point other than the node's own lies under the returned child exactly when it shares the query's octant; the child's points are the node's, without the node's own. |
| ThreeDeeBee.KeysBelow | threedeebeetree.py:149-155 | In a well-formed tree every stored point other than a node's own is under the child in its octant slot. |
| ThreeDeeBee.IsLeaf | threedeebeetree.py:160-168 | In a well-formed tree a node is a leaf exactly when its subtree has one node. |
| ThreeDeeBee.LeafAlone | threedeebeetree.py:168 | A well-formed node has no children exactly when its subtree counts one node. |
| ThreeDeeBee.Find | threedeebeetree.py:109-120 | The node the octant chain reaches for p has key p. |
| ThreeDeeBee.FindComplete | threedeebeetree.py:109-120 | In a well-formed tree the octant chain finds p exactly when p is stored. |
| ThreeDeeBee.Get | threedeebeetree.py:87-97 | In a well-formed tree the lookup yields an item exactly when the point is stored. |
| ThreeDeeBee.InsertAux | threedeebeetree.py:133-158 | The node keeps its key, and its stored size is 1 + the sum of its children's stored sizes. |
| ThreeDeeBee.InsertGet | threedeebeetree.py:145-158 | After insert, p maps to the new item and every other point keeps its item, or stays absent. |
| ThreeDeeBee.InsertKeys | threedeebeetree.py:145-155 | Insert adds exactly the point p to the stored points. |
| ThreeDeeBee.InsertSize | threedeebeetree.py:157 | On a well-formed tree insert raises the root's stored size by 1 for a new point and leaves it unchanged for a stored one. |
| ThreeDeeBee.SizeIsCount | threedeebeetree.py:12 | In a well-formed tree the stored subtree_size is the number of nodes. |
| ThreeDeeBee.InsertWellFormed | threedeebeetree.py:149-157 | Insert keeps the tree well formed: slots 0..7, every point in its parent's octant, each point stored once, sizes consistent. |
| ThreeDeeBee.ReinsertSameShape | threedeebeetree.py:150-151 | Re-inserting a stored point keeps every key, every child slot and every stored size. Only items may change. |
| ThreeDeeBee.InsertNewLeaf | threedeebeetree.py:149-155 | Inserting an absent point places it as a fresh leaf at the end of its octant chain. |
| ThreeDeeBee.InsertCount | threedeebeetree.py:145-157 | On a well-formed tree insert raises the node count by 1 for a new point and leaves it unchanged for a stored one. |
| ThreeDeeBee.NewBeeNodeFacts | threedeebeetree.py:8-13 | A new BeeNode is a well-formed single node, size 1, holding only its point and item. |
| ThreeDeeBee.NewBeeNode | threedeebeetree.py:8-13 | A new node carries the given key and item with the dataclass defaults: subtree size 1 and no children. |
| ThreeDeeBee.ThreeDeeBeeTree.constructor | threedeebeetree.py:45-50 | A new tree stores no point and has length 0. |
| ThreeDeeBee.ThreeDeeBeeTree.IsEmpty | threedeebeetree.py:52-60 | is_empty holds exactly when there is no root and no point. |
| ThreeDeeBee.ThreeDeeBeeTree.Len | threedeebeetree.py:62-70 | As the counter is kept, len is 0 for an empty tree and 1 as soon as any point is stored. |
| ThreeDeeBee.ThreeDeeBeeTree.GetTreeNodeByKey | threedeebeetree.py:99-120 | The loop returns the node the octant chain reaches for key. It raises KeyError on an empty tree or empty slot. On a valid tree it succeeds exactly for stored points. |
| ThreeDeeBee.ThreeDeeBeeTree.GetItem | threedeebeetree.py:87-97 | `tree[key]` returns the stored item, or raises KeyError exactly when key is not stored. |
| ThreeDeeBee.ThreeDeeBeeTree.Contains | threedeebeetree.py:72-85 | `key in tree` holds exactly when key is stored. |
| ThreeDeeBee.ThreeDeeBeeTree.SetItem | threedeebeetree.py:122-158 | The root becomes insert_aux of the old root, holding points old + {key}. key maps to item and all other lookups are unchanged. The node count rises by one for a new point. length rises only when the root is created. |
| ThreeDeeBee.ThreeDeeBeeTree.SetItemCounted | threedeebeetree.py:122-158 | Same update of the root, with length raised for every new point. A counter equal to the number of nodes stays equal. |
| ThreeDeeBee.ExampleChildSize | threedeebeetree.py:170-176 | After inserting (3,3,3), (1,5,2), (4,3,1), (5,4,0), the child for (4,3,1) is that node with (5,4,0) below it, of size 2. The root's size is 4. |
| ThreeDeeBee.ExampleBuild | threedeebeetree.py:171-175 | Four assignments on a new tree leave the nested insert_aux result as root and length 1. |
| ThreeDeeBee.Example | threedeebeetree.py:170-176 | The example prints 2 for the child's size. The same tree answers len 1 while it holds 4 nodes. |
| Balancing.Xs | balancing.py:25 | The list of x-coordinates, one per point in order. |
| Balancing.Min | balancing.py:36-40 | The least element of a non-empty list, which occurs in it. |
| Balancing.Distance | balancing.py:43 | The sort key abs(x - pivot): either x - pivot or pivot - x, never negative, and 0 exactly when x equals the pivot. |
| Balancing.InsertByDistance | balancing.py:43 | Inserting one point into a list gives one more element: exactly the point and the old elements. |
| Balancing.SortByDistance | balancing.py:43 | The sorted list has the input's length and exactly its elements. |
| Balancing.SortByDistanceCorrect | balancing.py:43 | The sort by abs(x - pivot) is a permutation, non-decreasing in distance and stable: the points at each distance keep their input order. |
| Balancing.SortPermutes | balancing.py:43 | The sorted list has the same multiset of points. |
| Balancing.SortSorted | balancing.py:43 | The sorted list is non-decreasing in distance from the pivot. |
| Balancing.SortStable | balancing.py:43 | For every distance, the points at that distance appear in their input order. |
| Balancing.BandNonEmpty | balancing.py:36-38 | For n >= 1, ratio(0, n) has lower rank 1, and its upper rank lies in 1..n exactly when 2 <= n <= 98. |
| Balancing.PivotIsMin | balancing.py:36-40 | For n distinct values, ratio(0, n) is non-empty exactly when 2 <= n <= 98, and then its first element is the least value. |
| Balancing.AddAll | balancing.py:28-30 | Adding the x-coordinates raises ValueError exactly when two coincide. Otherwise the store holds exactly those n values. |
| Balancing.MakeOrdering | balancing.py:6-45 | As written: [] for an empty list; ValueError on a repeated x; AttributeError for every other input. |
| Balancing.MakeOrderingFixed | balancing.py:6-45 | Reading the store through `items`: [] for an empty list; ValueError on a repeated x. Otherwise the points sorted stably by distance from the least x when 2 <= n <= 98, and [] for other n. |
| Balancing.PivotOfStore | balancing.py:33-40 | A store of n distinct values has length n; its band ratio(0, n) is non-empty exactly when 2 <= n <= 98 and then starts with the least value. |
| Balancing.ExampleXs | balancing.py:25 | The example points have distinct x-coordinates, least 1. |
| Balancing.ExampleSorted | balancing.py:43 | Sorted by distance from x = 1 the example points come out as (1,5,2), (3,3,3), (4,3,1), (5,4,0). |
| Balancing.ExampleOrdering | balancing.py:21-45 | On those points make_ordering as written raises AttributeError. The corrected version returns that sorted list. |

## Left out

- `draw`, `draw_aux` and the printing in the demo blocks are not modelled: they only write to the console.
- beehive.py is not part of this model. It wraps a heap module that is not available here.
- node.py is not part of this model. `TreeNode` is modelled from the fields bst.py uses: key, item, left, right, subtree_size.
- Nodes are values, not shared mutable objects. The in-place updates of `left`, `right`, `children`, `item`, `key` and `subtree_size` become rebuilt nodes that the tree object stores in its `root`. Aliasing of a node reachable from two places is not modelled; the source never creates such aliasing.
- Bst.BinarySearchTree.SetItem and Bst.BinarySearchTree.DelItem update `length` once by the net amount. The source instead changes `length` inside the recursion at the point where the node is created or removed. The result is the same, because an insert or delete that raises does so before reaching that point.
- Ratio.Percentiles.Ratio: the thresholds use the exact ceiling of x·n/100 (CeilPercent). The source computes `ceil((x/100)*n)` in floating point, which can land one rank higher. For example, x = 7 and n = 100 gives 7.000000000000001 and hence 8.
- Ratio.Percentiles.Ratio: percentages are integers. Fractional percentages, which Python would accept, are not modelled.
- Ratio.AuxRatio: the accumulator list that the source appends to in place and returns is modelled as a sequence passed in and returned. Aliasing of `lst` is not modelled.
- Ratio.Percentiles: values are `int`. The source's generic `T` only needs an order; the generic `K` of bst.py is likewise `int`.
- Ratio.RatioExample: the random shuffle of the demonstration is not modelled. The lemma holds for every BST with those keys, so for every insertion order.
- ThreeDeeBee.InsertAux: the sum over `children.values()` is taken over the slots 0..7 in index order. Dictionary iteration order does not affect a sum.
- Balancing.SortByDistance: Python's Timsort is replaced by a reference stable insertion sort. Its permutation, order and stability are proved; the algorithm itself is not modelled.
- Python exceptions are values of `Outcomes.Error`. Their message strings are not modelled.

## Findings

| source | as written | input that shows it | evidently intended | confidence | as-written member | corrected member |
|---|---|---|---|---|---|---|
| balancing.py:33 | `len(percentiles.store)` reads an attribute that `Percentiles` does not define; it only has `items` (ratio.py:22). | Any non-empty list with distinct x-coordinates, e.g. (3,3,3), (1,5,2), (4,3,1), (5,4,0): AttributeError. | Read the store as `percentiles.items`, so the points come back sorted stably by distance from the least x. The corrected version still returns [] for n = 1 and for n >= 99, where ratio(0, n) is empty. | not executed | Balancing.MakeOrdering, Balancing.ExampleOrdering | Balancing.MakeOrderingFixed |
| threedeebeetree.py:145-155 | `length` is raised only when `insert_aux` is called on an empty root. Slots filled at line 155 and recursive inserts never raise it, so `__len__` (lines 62-70) is 1 for any non-empty tree. | Inserting (3,3,3), (1,5,2), (4,3,1), (5,4,0): len is 1 while the tree holds 4 nodes. | `length` counts the nodes, as the docstring of `__len__` says, so it rises by one for every new point. | not executed | ThreeDeeBee.ThreeDeeBeeTree.SetItem, ThreeDeeBee.Example | ThreeDeeBee.ThreeDeeBeeTree.SetItemCounted |
