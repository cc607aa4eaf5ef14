# LearnDataStructures in Dafny

A verified model of the textbook data structures of LearnDataStructures, a Swift
library. It covers:

- the growable array `ArrayList`;
- the binary search tree;
- the binary `Heap` and the `PriorityQueue` over it;
- the `SegmentTree`;
- the `Trie`;
- `UnionFind`;
- the singly linked `LinkedList` with a tail pointer;
- the maps, queues, stacks and sets built on these: `LinkedListMap`,
  `BinarySearchTreeMap`, `ArrayQueue`, `LazyQueue`, `LinkedListQueue`,
  `ArrayStack`, `LinkedListStack`, `LinkedListSet` and `BinarySearchTreeSet`.

There is one module per Swift source file. Shared pieces live in `Wrappers`
(`Option`) and `Sequences`, which holds sequence insertion, removal, filtering
and mapping with their laws.

Each structure is a class whose fields play the roles of the Swift fields, and
its methods update those fields as the Swift code does.

- Array-backed structures keep their buffer. `ArrayList` has an `array<T>`
  with the shift and copy loops. The heap, the stacks and the queues have a
  `seq` field.
- Pointer structures are held as values. The linked list is the sequence of
  its reachable values plus a tail reference and the separate counter. The
  binary trees are inductive datatypes that the recursive helper methods
  rebuild on the way back, bumping `size` as the Swift helpers do. A trie node
  is the path of characters that reaches it.
- Each operation is specified against a reference function or a model value:
  `Elements()`, `Keys(root)`, `Mapping()`, `Members()`,
  `Root(parent, dist, i)` or `Fold(merger, Elems)`. Lemmas prove what the
  library promises about those functions: last in first out, first in first
  out, the round trips of insertion and removal, the search-tree order, the
  heap order, the folds a segment tree caches, and union by size.

The defects of the Swift code are kept. The contracts state contents and
counters separately, so each defect shows in a contract:

- `LinkedList.removeAll()` does not reset `size`.
- `LinkedList.removeAll(where:)` updates neither `size` nor `tail`.
  `LinkedListSet.remove` inherits both defects.
- Both maps' `removeAll()` leave `size` as it was.
- `UnionFind.addSetWith` registers an element again without checking.
- `SegmentTree.replaceItem` does not check the index.

## Model

| member | source | states |
|---|---|---|
| Arrays.ShiftRight | LearnDataStructures/Array/ArrayList.swift:134-136 | the downward shift loop of `insert` moves slots `[from, to)` one place right and leaves every other slot as it was |
| Arrays.ShiftLeft | LearnDataStructures/Array/ArrayList.swift:158-160 | the shift loop of `remove(at:)` moves slots `(at, to)` one place left over slot `at` and leaves every other slot as it was |
| Arrays.ArrayList.WithCapacity | LearnDataStructures/Array/ArrayList.swift:41-45 | an empty list whose buffer has the requested capacity, filled with the initial value |
| Arrays.ArrayList.constructor | LearnDataStructures/Array/ArrayList.swift:48-52 | an empty list of capacity 0 |
| Arrays.ArrayList.FromArray | LearnDataStructures/Array/ArrayList.swift:56-60 | the list holds exactly the given items and is full |
| Arrays.ArrayList.Count | LearnDataStructures/Array/ArrayList.swift:63-65 | `count` is the number of live elements |
| Arrays.ArrayList.Capacity | LearnDataStructures/Array/ArrayList.swift:68-70 | the capacity is never below `count` |
| Arrays.ArrayList.IsEmpty | LearnDataStructures/Array/ArrayList.swift:73-75 | true exactly when there are no live elements |
| Arrays.ArrayList.Get | LearnDataStructures/Array/ArrayList.swift:78-95 | the subscript read needs an index below `count` and returns that element |
| Arrays.ArrayList.Set | LearnDataStructures/Array/ArrayList.swift:78-95 | the subscript write needs an index below `count` and changes only that element |
| Arrays.ArrayList.First | LearnDataStructures/Array/ArrayList.swift:98-104 | nil when empty, otherwise the element at index 0 |
| Arrays.ArrayList.Last | LearnDataStructures/Array/ArrayList.swift:107-113 | nil when empty, otherwise the element at index `count - 1` |
| Arrays.ArrayList.Resize | LearnDataStructures/Array/ArrayList.swift:192-206 | needs a capacity of at least `count`; a fresh buffer of that capacity holds the same elements in order, with the initial value in the other slots |
| Arrays.ArrayList.Insert | LearnDataStructures/Array/ArrayList.swift:119-140 | needs `0 <= i <= count`; the contents become `old[..i] + [x] + old[i..]` and `count` grows by one; a full buffer grows to 1 from 0 and doubles otherwise |
| Arrays.ArrayList.Append | LearnDataStructures/Array/ArrayList.swift:144-146 | the element goes at the end and `count` grows by one |
| Arrays.ArrayList.RemoveAt | LearnDataStructures/Array/ArrayList.swift:151-168 | needs `0 <= index < count`; returns `old[index]`, the contents become `old[..index] + old[index + 1..]` and `count` drops by one; the capacity halves exactly when `count` reaches a quarter of it and half is not 0 |
| Arrays.ArrayList.RemoveFirst | LearnDataStructures/Array/ArrayList.swift:172-174 | returns the first element and leaves the rest |
| Arrays.ArrayList.RemoveLast | LearnDataStructures/Array/ArrayList.swift:178-180 | returns the last element and leaves the others |
| Arrays.ArrayList.Contains | LearnDataStructures/Array/ArrayList.swift:235-247 | true exactly when some live element equals the argument |
| Arrays.ArrayList.FirstIndex | LearnDataStructures/Array/ArrayList.swift:251-263 | nil exactly when the element is absent, otherwise the smallest index holding it |
| Sequences.RemoveInserted | LearnDataStructures/Array/ArrayList.swift:119-168 | removing at `i` undoes inserting at `i` |
| Sequences.InsertRemoved | LearnDataStructures/Array/ArrayList.swift:119-168 | inserting the removed element back at `i` restores the sequence |
| BinarySearchTrees.SizeIsKeyCount | LearnDataStructures/BinarySearchTree/BinarySearchTree.swift:65-67 | in a search tree, the node count is the number of distinct keys |
| BinarySearchTrees.Contains | LearnDataStructures/BinarySearchTree/BinarySearchTree.swift:98-110 | the recursive search finds a key exactly when it is in an ordered tree |
| BinarySearchTrees.Minimum | LearnDataStructures/BinarySearchTree/BinarySearchTree.swift:191-197 | the leftmost key is a key, and in an ordered tree it is the smallest |
| BinarySearchTrees.Maximum | LearnDataStructures/BinarySearchTree/BinarySearchTree.swift:207-213 | the rightmost key is a key, and in an ordered tree it is the largest |
| BinarySearchTrees.PreOrderVisitsEachOnce | LearnDataStructures/BinarySearchTree/BinarySearchTree.swift:119-127 | pre-order visits every key of a search tree exactly once |
| BinarySearchTrees.InOrderAscending | LearnDataStructures/BinarySearchTree/BinarySearchTree.swift:136-144 | in-order visits exactly the keys, in strictly ascending order |
| BinarySearchTrees.PostOrderVisitsEachOnce | LearnDataStructures/BinarySearchTree/BinarySearchTree.swift:153-161 | post-order visits every key of a search tree exactly once |
| BinarySearchTrees.BfsVisitsQueue | LearnDataStructures/BinarySearchTree/BinarySearchTree.swift:165-181 | the breadth-first walk visits every non-empty tree it starts from |
| BinarySearchTrees.BfsParentFirst | LearnDataStructures/BinarySearchTree/BinarySearchTree.swift:165-181 | the breadth-first walk visits each node before its children |
| BinarySearchTrees.BfsVisitsAllValues | LearnDataStructures/BinarySearchTree/BinarySearchTree.swift:165-181 | the values visited are, as a multiset, exactly the keys of the queued trees |
| BinarySearchTrees.LevelOrderVisitsEachOnce | LearnDataStructures/BinarySearchTree/BinarySearchTree.swift:165-181 | level order from the root visits the root first, each node before its children, every key, and in a search tree each key once |
| BinarySearchTrees.SuccessorReplaces | LearnDataStructures/BinarySearchTree/BinarySearchTree.swift:290-306 | putting the right subtree's minimum in place of a node with two children keeps the order and removes exactly the node's key |
| BinarySearchTrees.BinarySearchTree.constructor | LearnDataStructures/BinarySearchTree/BinarySearchTree.swift:55-57 | an empty tree with `size` 0 |
| BinarySearchTrees.BinarySearchTree.IsEmpty | LearnDataStructures/BinarySearchTree/BinarySearchTree.swift:60-62 | true exactly when the tree has no keys |
| BinarySearchTrees.BinarySearchTree.Count | LearnDataStructures/BinarySearchTree/BinarySearchTree.swift:65-67 | `size` is the number of keys |
| BinarySearchTrees.BinarySearchTree.Insert | LearnDataStructures/BinarySearchTree/BinarySearchTree.swift:71-73 | the key is added; `size` grows exactly when the key was absent; a duplicate leaves the tree as it was |
| BinarySearchTrees.BinarySearchTree.InsertInto | LearnDataStructures/BinarySearchTree/BinarySearchTree.swift:76-89 | the returned subtree is ordered and holds the old keys plus the new one; `size` grows exactly when the key was new |
| BinarySearchTrees.BinarySearchTree.ContainsKey | LearnDataStructures/BinarySearchTree/BinarySearchTree.swift:93-95 | true exactly when the value is a key |
| BinarySearchTrees.BinarySearchTree.LevelOrder | LearnDataStructures/BinarySearchTree/BinarySearchTree.swift:165-181 | the queue loop visits the values of the breadth-first walk, in order |
| BinarySearchTrees.BinarySearchTree.MinimumKey | LearnDataStructures/BinarySearchTree/BinarySearchTree.swift:184-188 | needs a non-empty tree and returns its smallest key |
| BinarySearchTrees.BinarySearchTree.MaximumKey | LearnDataStructures/BinarySearchTree/BinarySearchTree.swift:200-204 | needs a non-empty tree and returns its largest key |
| BinarySearchTrees.BinarySearchTree.RemoveMinimum | LearnDataStructures/BinarySearchTree/BinarySearchTree.swift:217-222 | returns the smallest key, removes exactly it, and `size` drops by one |
| BinarySearchTrees.BinarySearchTree.RemoveMinimumFrom | LearnDataStructures/BinarySearchTree/BinarySearchTree.swift:225-236 | the returned subtree is ordered and lacks only the old minimum |
| BinarySearchTrees.BinarySearchTree.RemoveMaximum | LearnDataStructures/BinarySearchTree/BinarySearchTree.swift:240-245 | returns the largest key, removes exactly it, and `size` drops by one |
| BinarySearchTrees.BinarySearchTree.RemoveMaximumFrom | LearnDataStructures/BinarySearchTree/BinarySearchTree.swift:248-259 | the returned subtree is ordered and lacks only the old maximum |
| BinarySearchTrees.BinarySearchTree.Remove | LearnDataStructures/BinarySearchTree/BinarySearchTree.swift:263-265 | the key is gone and all others stay; `size` drops exactly when the key was present; an absent key changes nothing |
| BinarySearchTrees.BinarySearchTree.RemoveFrom | LearnDataStructures/BinarySearchTree/BinarySearchTree.swift:268-309 | the returned subtree is ordered and holds the old keys minus the removed one |
| Heaps.ParentIndex | LearnDataStructures/Heap/Heap.swift:85-87 | a parent index lies below its child, which is one of its two children |
| Heaps.LeftChildIndex | LearnDataStructures/Heap/Heap.swift:90-92 | the left child lies above its parent, and its parent is that node |
| Heaps.RightChildIndex | LearnDataStructures/Heap/Heap.swift:95-97 | the right child follows the left child and has the same parent |
| Heaps.RootIsFirst | LearnDataStructures/Heap/Heap.swift:23-24 | in a heap under a strict weak order, no element orders before the root |
| Heaps.Heap.constructor | LearnDataStructures/Heap/Heap.swift:51-53 | an empty heap with the given order |
| Heaps.Heap.FromArray | LearnDataStructures/Heap/Heap.swift:59-62 | the heap holds exactly the given elements and satisfies the heap order |
| Heaps.Heap.ConfigureHeap | LearnDataStructures/Heap/Heap.swift:67-72 | heapify permutes the array into heap order; an array of 0 or 1 elements is left as it is |
| Heaps.Heap.IsEmpty | LearnDataStructures/Heap/Heap.swift:75-77 | true exactly when there are no nodes |
| Heaps.Heap.Count | LearnDataStructures/Heap/Heap.swift:80-82 | the number of nodes |
| Heaps.Heap.Peek | LearnDataStructures/Heap/Heap.swift:101-103 | nil exactly when empty, otherwise the root, before which no element orders |
| Heaps.Heap.Insert | LearnDataStructures/Heap/Heap.swift:108-111 | keeps the heap order, adds exactly the value to the multiset, and `count` grows by one |
| Heaps.Heap.Replace | LearnDataStructures/Heap/Heap.swift:116-125 | nil and no change when empty; otherwise it returns the old root, keeps `count`, and the contents become old minus root plus value |
| Heaps.Heap.Remove | LearnDataStructures/Heap/Heap.swift:130-141 | nil exactly when empty; otherwise it returns the old root, removes exactly it, and `count` drops by one |
| Heaps.Heap.ShiftUp | LearnDataStructures/Heap/Heap.swift:157-169 | moving the hole up restores the heap order and only permutes the nodes |
| Heaps.Heap.ShiftDownFrom | LearnDataStructures/Heap/Heap.swift:171-186 | the recursive sift-down does to the nodes what `SiftDown` describes, and on any array it only permutes the nodes |
| Heaps.Heap.ShiftDown | LearnDataStructures/Heap/Heap.swift:188-190 | sift-down up to the end of the array; on any array it only permutes the nodes |
| Heaps.PickFirst | LearnDataStructures/Heap/Heap.swift:175-181 | the chosen index is the node itself or one of its children inside the range |
| Heaps.SiftDownPermutes | LearnDataStructures/Heap/Heap.swift:171-186 | on any array, whatever the order, sift-down keeps the multiset of nodes |
| Heaps.SiftDownRestoresHeap | LearnDataStructures/Heap/Heap.swift:171-186 | sift-down from a node whose subtrees are heaps makes its subtree a heap, permutes the nodes and leaves all indices outside that subtree alone |
| Heaps.SwapKeepsElements | LearnDataStructures/Heap/Heap.swift:184 | a swap keeps the multiset of nodes |
| Heaps.PickedChildIsFirst | LearnDataStructures/Heap/Heap.swift:175-181 | the chosen index holds an element that no child of the node orders before |
| Heaps.ShiftUpStep | LearnDataStructures/Heap/Heap.swift:162-165 | one step of the hole moving up keeps the hole invariant |
| Heaps.HoleClosed | LearnDataStructures/Heap/Heap.swift:168 | writing the moving element at the hole's final place leaves a heap |
| Heaps.MoveLastToRoot | LearnDataStructures/Heap/Heap.swift:130-141 | after moving the last node to the root, everything below the root is still in heap order |
| Heaps.ChildrenPrecedeNot | LearnDataStructures/Heap/Heap.swift:182 | sift-down stops correctly when no child orders before the node |
| Heaps.SwapUpKeepsHeap | LearnDataStructures/Heap/Heap.swift:157-169 | swapping a child with the parent it orders before moves the hole up |
| Heaps.SwapDownKeepsHeap | LearnDataStructures/Heap/Heap.swift:184-185 | swapping with the first child moves the defect down to that child |
| Heaps.PriorityQueue.constructor | LearnDataStructures/Heap/PriorityQueue.swift:21-23 | an empty queue with the given order |
| Heaps.PriorityQueue.IsEmpty | LearnDataStructures/Heap/PriorityQueue.swift:25-27 | true exactly when `count` is 0, exactly when there are no elements |
| Heaps.PriorityQueue.Count | LearnDataStructures/Heap/PriorityQueue.swift:29-31 | the number of queued elements |
| Heaps.PriorityQueue.Enqueue | LearnDataStructures/Heap/PriorityQueue.swift:33-35 | adds exactly the element, and `count` grows by one |
| Heaps.PriorityQueue.Dequeue | LearnDataStructures/Heap/PriorityQueue.swift:37-39 | nil exactly when empty; otherwise it removes and returns the element `front` reported just before, which no element of the queue orders before, and `count` drops by one |
| Heaps.PriorityQueue.Front | LearnDataStructures/Heap/PriorityQueue.swift:41-43 | nil exactly when empty; otherwise the heap's root, which is what the next `dequeue` returns and which no queued element orders before |
| SegmentTrees.Clamp | LearnDataStructures/SegmentTree/SegmentTree.swift:119-130 | the leaf an unchecked index reaches: the index itself when in range, otherwise the nearer end |
| SegmentTrees.FoldConcat | LearnDataStructures/SegmentTree/SegmentTree.swift:108-111 | for an associative merger, the fold of a concatenation merges the folds of its parts |
| SegmentTrees.SegmentTree.Leaf | LearnDataStructures/SegmentTree/SegmentTree.swift:73-74 | a leaf caches its element |
| SegmentTrees.SegmentTree.Node | LearnDataStructures/SegmentTree/SegmentTree.swift:75-80 | an internal node over two halves split at the midpoint caches the merger of their values |
| SegmentTrees.SegmentTree.Build | LearnDataStructures/SegmentTree/SegmentTree.swift:68-81 | builds a valid tree over `items[lo..hi]` with the midpoint shape |
| SegmentTrees.SegmentTree.Create | LearnDataStructures/SegmentTree/SegmentTree.swift:87-89 | needs a non-empty array; the tree covers `[0, n - 1]` and holds the whole array |
| SegmentTrees.SegmentTree.ValueIsFold | LearnDataStructures/SegmentTree/SegmentTree.swift:73-80 | for an associative merger, every cached value is the fold of its node's range |
| SegmentTrees.SegmentTree.Query | LearnDataStructures/SegmentTree/SegmentTree.swift:96-113 | a query on exactly the node's bounds yields the cached value |
| SegmentTrees.SegmentTree.QueryIsFold | LearnDataStructures/SegmentTree/SegmentTree.swift:96-113 | for an associative merger and a range within the bounds, `query` yields the fold of the elements of the range |
| SegmentTrees.SegmentTree.QueryRightIsFold | LearnDataStructures/SegmentTree/SegmentTree.swift:104-105 | a range entirely right of the midpoint is answered by the right child |
| SegmentTrees.SegmentTree.QueryLeftIsFold | LearnDataStructures/SegmentTree/SegmentTree.swift:106-107 | a range entirely left of the midpoint is answered by the left child |
| SegmentTrees.SegmentTree.QuerySplitIsFold | LearnDataStructures/SegmentTree/SegmentTree.swift:108-111 | a range across the midpoint merges the answers of both children into the fold |
| SegmentTrees.SegmentTree.Recompute | LearnDataStructures/SegmentTree/SegmentTree.swift:128 | the node takes the merger of its children's values and becomes valid again |
| SegmentTrees.SegmentTree.ReplaceItem | LearnDataStructures/SegmentTree/SegmentTree.swift:119-130 | only the element at the index (clamped to the bounds) changes, to the new item, and every cached value is consistent again |
| Tries.LowerChar | LearnDataStructures/Trie/Trie.swift:61 | folds `A` to `Z` to lower case and leaves every other character |
| Tries.Lower | LearnDataStructures/Trie/Trie.swift:61 | the word folded character by character, of the same length |
| Tries.LowerIdempotent | LearnDataStructures/Trie/Trie.swift:61-102 | folding twice is folding once, and only the empty word folds to empty |
| Tries.ContainedIsPrefix | LearnDataStructures/Trie/Trie.swift:80-109 | a terminal word is a prefix of a terminal word, so `contains` implies `isPrefix` |
| Tries.MissingNodeExtendsNothing | LearnDataStructures/Trie/Trie.swift:103-105 | a walk that falls off the trie means no stored word begins with the path |
| Tries.AddPath | LearnDataStructures/Trie/Trie.swift:60-68 | the insertion walk adds exactly the prefixes of the word as nodes and keeps the nodes prefix-closed |
| Tries.Walk | LearnDataStructures/Trie/Trie.swift:84-90 | the read-only walk gets through exactly when the word's path is a node |
| Tries.InsertKeepsShape | LearnDataStructures/Trie/Trie.swift:56-75 | inserting a non-empty word keeps the trie's shape, and the word count grows exactly when the word is new |
| Tries.NewNodesLieOnWord | LearnDataStructures/Trie/Trie.swift:61-68 | nodes are created only along inserted words |
| Tries.Trie.constructor | LearnDataStructures/Trie/Trie.swift:44-47 | a root node alone, with no words |
| Tries.Trie.Count | LearnDataStructures/Trie/Trie.swift:50-52 | the number of distinct lowercased words stored |
| Tries.Trie.Insert | LearnDataStructures/Trie/Trie.swift:56-75 | the empty word changes nothing; otherwise the lowercased word's prefixes become nodes, the word becomes terminal, and the count grows exactly when it was not terminal |
| Tries.Trie.Contains | LearnDataStructures/Trie/Trie.swift:80-92 | true exactly when the word is non-empty and its lowercased form is terminal |
| Tries.Trie.IsPrefix | LearnDataStructures/Trie/Trie.swift:97-109 | true for the empty word, otherwise exactly when the lowercased word begins a stored word |
| UnionFinds.Root | LearnDataStructures/UnionFind/UnionFind.swift:37-42 | following parents from an id reaches a root |
| UnionFinds.Compress | LearnDataStructures/UnionFind/UnionFind.swift:37-42 | path compression points the id at its root and leaves every id's root unchanged |
| UnionFinds.ReparentToRoot | LearnDataStructures/UnionFind/UnionFind.swift:39 | pointing an id straight at its root changes no id's root |
| UnionFinds.LinkRoots | LearnDataStructures/UnionFind/UnionFind.swift:55-61 | hanging root `a` under root `b` moves exactly `a`'s set under `b` |
| UnionFinds.AppendRootKeepsRoot | LearnDataStructures/UnionFind/UnionFind.swift:30-34 | adding a new singleton set changes no existing id's root |
| UnionFinds.UnionFind.Find | LearnDataStructures/UnionFind/UnionFind.swift:44-50 | an element's set is defined exactly when it is registered, and is a root id |
| UnionFinds.UnionFind.constructor | LearnDataStructures/UnionFind/UnionFind.swift:28 | no elements and no sets |
| UnionFinds.SameRootsKeepSizes | LearnDataStructures/UnionFind/UnionFind.swift:37-42 | path compression keeps every set, so each root's `size` still counts its set |
| UnionFinds.AppendRootSizes | LearnDataStructures/UnionFind/UnionFind.swift:30-34 | a new id forms a set of one with size 1, and the other roots keep their sets and sizes |
| UnionFinds.UnionSizes | LearnDataStructures/UnionFind/UnionFind.swift:55-61 | after union by size the surviving root's `size` is the number of ids in the merged set, and every other root still counts its own set |
| UnionFinds.UnionFind.AddSetWith | LearnDataStructures/UnionFind/UnionFind.swift:30-34 | maps the element to the fresh id `parent.count`, its own root with size 1, even when it was registered before |
| UnionFinds.UnionFind.SetByIndex | LearnDataStructures/UnionFind/UnionFind.swift:37-42 | returns the id's root and compresses its path |
| UnionFinds.UnionFind.SetOf | LearnDataStructures/UnionFind/UnionFind.swift:44-50 | nil for an unregistered element, otherwise its root; no id's root changes |
| UnionFinds.UnionFind.UnionSetsContaining | LearnDataStructures/UnionFind/UnionFind.swift:52-64 | a no-op on roots when either element is unregistered or both share a set; otherwise union by size; afterwards the two registered elements share a root |
| UnionFinds.UnionFind.Link | LearnDataStructures/UnionFind/UnionFind.swift:55-61 | the smaller set's root goes under the other root (the second under the first on a tie), whose size becomes the sum, and only the two sets' roots change; every root's `size` still counts its set |
| UnionFinds.UnionFind.InSameSet | LearnDataStructures/UnionFind/UnionFind.swift:66-72 | false when either element is unregistered, otherwise true exactly when both have the same root |
| UnionFinds.UnionFromEarlier | LearnDataStructures/UnionFind/UnionFind.swift:52-64 | a union after the compressions of `setOf` is a union of the state before them |
| UnionFinds.MergedRootsJoin | LearnDataStructures/UnionFind/UnionFind.swift:52-64 | after a merge, members of the two sets share a root |
| UnionFinds.SameRootsTrans | LearnDataStructures/UnionFind/UnionFind.swift:52-54 | two steps that keep every root keep every root |
| LinkedLists.FirstValue | LearnDataStructures/LinkedList/LinkedList.swift:76-78 | `first` is nil exactly when nothing is reachable, otherwise the head value |
| LinkedLists.LastValue | LearnDataStructures/LinkedList/LinkedList.swift:81-83 | on a coherent list `last` is nil when empty, otherwise the last value |
| LinkedLists.Locate | LearnDataStructures/LinkedList/LinkedList.swift:229-246 | `node(at:)` reaches a node of the chain, or the detached tail at the counted end |
| LinkedLists.Assigned | LearnDataStructures/LinkedList/LinkedList.swift:86-97 | the subscript write keeps the list well formed and `count` as it was |
| LinkedLists.Inserted | LearnDataStructures/LinkedList/LinkedList.swift:103-122 | insertion keeps the list well formed, `count` grows by one, and an insertion at the counted end becomes `last` |
| LinkedLists.Removed | LearnDataStructures/LinkedList/LinkedList.swift:139-167 | removal keeps the list well formed and `count` drops by one |
| LinkedLists.Cleared | LearnDataStructures/LinkedList/LinkedList.swift:131-134 | `removeAll()` empties the chain and the tail and keeps `size` |
| LinkedLists.Filtered | LearnDataStructures/LinkedList/LinkedList.swift:183-199 | `removeAll(where:)` keeps the list well formed and keeps `size` |
| LinkedLists.InsertCoherent | LearnDataStructures/LinkedList/LinkedList.swift:103-122 | on a coherent list, inserting at `0 <= i <= count` gives `old[..i] + [v] + old[i..]`, one more in `count`, and a coherent list |
| LinkedLists.AppendCoherent | LearnDataStructures/LinkedList/LinkedList.swift:126-128 | on a coherent list, appending adds the value at the end |
| LinkedLists.RemoveCoherent | LearnDataStructures/LinkedList/LinkedList.swift:139-167 | on a coherent list, removing at `0 <= i < count` returns `old[i]`, leaves `old` without position `i`, one less in `count`, and a coherent list |
| LinkedLists.RemoveInsertedRestores | LearnDataStructures/LinkedList/LinkedList.swift:103-167 | removing at `i` what was inserted at `i` restores the list and returns the value |
| LinkedLists.InsertRemovedRestores | LearnDataStructures/LinkedList/LinkedList.swift:103-167 | inserting the removed value back at its position restores the list |
| LinkedLists.SubscriptCoherent | LearnDataStructures/LinkedList/LinkedList.swift:86-97 | on a coherent list, the subscript reads position `i` and the write changes only position `i` |
| LinkedLists.EndsCoherent | LearnDataStructures/LinkedList/LinkedList.swift:76-83 | on a coherent non-empty list, `first` and `last` are the end values |
| LinkedLists.ClearedKeepsCount | LearnDataStructures/LinkedList/LinkedList.swift:131-134 | after `removeAll()`, `first` and `last` are nil, but the list is coherent only if it was already empty |
| LinkedLists.FilteredKeeps | LearnDataStructures/LinkedList/LinkedList.swift:183-199 | `removeAll(where:)` keeps exactly the values that fail the test, in order, and keeps `size` |
| LinkedLists.FilteredCoherent | LearnDataStructures/LinkedList/LinkedList.swift:183-199 | the list stays coherent exactly when nothing was removed |
| LinkedLists.FilteredStaleExample | LearnDataStructures/LinkedList/LinkedList.swift:183-199 | removing the 2 from `[1, 2]` leaves chain `[1]` with `count` 2 and `last` still 2 |
| LinkedLists.UnlinkMatching | LearnDataStructures/LinkedList/LinkedList.swift:183-199 | the two unlinking loops leave exactly the values that fail the test, and the tail reference the model predicts |
| LinkedLists.UnlinkMatchingHead | LearnDataStructures/LinkedList/LinkedList.swift:184-187 | the first loop drops the matching values at the head |
| LinkedLists.UnlinkMatchingSuccessors | LearnDataStructures/LinkedList/LinkedList.swift:188-198 | the second loop unlinks every later matching node |
| LinkedLists.LinkedList.constructor | LearnDataStructures/LinkedList/LinkedList.swift:59-63 | an empty coherent list |
| LinkedLists.LinkedList.IsEmpty | LearnDataStructures/LinkedList/LinkedList.swift:66-68 | true only when nothing is reachable, and exactly then on a coherent list |
| LinkedLists.LinkedList.Count | LearnDataStructures/LinkedList/LinkedList.swift:71-73 | at least the number of reachable values, and equal on a coherent list |
| LinkedLists.LinkedList.First | LearnDataStructures/LinkedList/LinkedList.swift:76-78 | the head value, or nil |
| LinkedLists.LinkedList.Last | LearnDataStructures/LinkedList/LinkedList.swift:81-83 | the tail node's value, or nil |
| LinkedLists.LinkedList.NodeAt | LearnDataStructures/LinkedList/LinkedList.swift:229-246 | the walk reaches the node `Locate` names |
| LinkedLists.LinkedList.Get | LearnDataStructures/LinkedList/LinkedList.swift:86-97 | the value of the node at the index |
| LinkedLists.LinkedList.Set | LearnDataStructures/LinkedList/LinkedList.swift:86-97 | the state becomes `Assigned` |
| LinkedLists.LinkedList.Insert | LearnDataStructures/LinkedList/LinkedList.swift:103-122 | the state becomes `Inserted` |
| LinkedLists.LinkedList.Append | LearnDataStructures/LinkedList/LinkedList.swift:126-128 | the value becomes `last`; on a coherent list it is added at the end |
| LinkedLists.LinkedList.RemoveAll | LearnDataStructures/LinkedList/LinkedList.swift:131-134 | the state becomes `Cleared`, so `size` is kept |
| LinkedLists.LinkedList.RemoveAt | LearnDataStructures/LinkedList/LinkedList.swift:139-167 | the state and the result are `Removed` |
| LinkedLists.LinkedList.RemoveFirst | LearnDataStructures/LinkedList/LinkedList.swift:171-173 | `Removed` at position 0 |
| LinkedLists.LinkedList.RemoveLast | LearnDataStructures/LinkedList/LinkedList.swift:177-179 | `Removed` at position `count - 1` |
| LinkedLists.LinkedList.RemoveAllWhere | LearnDataStructures/LinkedList/LinkedList.swift:183-199 | the state becomes `Filtered`, so `size` and `tail` are kept |
| LinkedLists.LinkedList.Map | LearnDataStructures/LinkedList/LinkedList.swift:203-211 | a fresh coherent list of the transformed values, in order |
| LinkedLists.LinkedList.Filter | LearnDataStructures/LinkedList/LinkedList.swift:215-225 | a fresh coherent list of the values that satisfy the test, in order |
| LinkedLists.LinkedList.Contains | LearnDataStructures/LinkedList/LinkedList.swift:253-264 | true exactly when some reachable value equals the argument |
| Maps.Find | LearnDataStructures/Map/Map.swift:76-87 | the position of the first entry with the key, or none when no entry has it |
| Maps.FindIsLookup | LearnDataStructures/Map/Map.swift:76-87 | the node lookup finds an entry exactly when the key is mapped, and its value is the mapped one |
| Maps.EntriesMapUpdate | LearnDataStructures/Map/Map.swift:116-117 | overwriting an entry's value updates the mapping at its key |
| Maps.EntriesMapRemove | LearnDataStructures/Map/Map.swift:126-150 | unlinking an entry of a list with distinct keys removes exactly its key from the mapping |
| Maps.EntriesMapPrepend | LearnDataStructures/Map/Map.swift:111-114 | prepending a new key keeps the keys distinct and adds that key |
| Maps.EntriesCount | LearnDataStructures/Map/Map.swift:93-95 | with distinct keys, the number of entries is the number of keys |
| Maps.LinkedListMap.constructor | LearnDataStructures/Map/Map.swift:69-71 | an empty map |
| Maps.LinkedListMap.NodeIndex | LearnDataStructures/Map/Map.swift:76-87 | the loop finds the first entry with the key |
| Maps.LinkedListMap.IsEmpty | LearnDataStructures/Map/Map.swift:89-91 | true only for the empty mapping, and exactly then while `size` is accurate |
| Maps.LinkedListMap.Count | LearnDataStructures/Map/Map.swift:93-95 | at least the number of keys; equal while `size` is accurate |
| Maps.LinkedListMap.Contains | LearnDataStructures/Map/Map.swift:97-99 | true exactly when the key is mapped |
| Maps.LinkedListMap.Get | LearnDataStructures/Map/Map.swift:101-104 | the mapped value, or nil |
| Maps.LinkedListMap.Set | LearnDataStructures/Map/Map.swift:101-123 | a value maps the key to it, overwriting an existing entry in place or prepending a new one and counting it; nil removes the key and a missing key changes nothing |
| Maps.LinkedListMap.RemoveValue | LearnDataStructures/Map/Map.swift:126-150 | returns the mapped value or nil; the key is unmapped and `size` drops exactly when it was mapped |
| Maps.LinkedListMap.RemoveAll | LearnDataStructures/Map/Map.swift:152-154 | the mapping becomes empty but `size` is kept |
| Maps.NodeCountIsKeyCount | LearnDataStructures/Map/Map.swift:217-219 | in a search tree, the node count is the number of keys |
| Maps.ContainsIn | LearnDataStructures/Map/Map.swift:225-237 | the search finds a key exactly when it is in an ordered tree |
| Maps.FindIn | LearnDataStructures/Map/Map.swift:269-279 | the search returns the value mapped to the key, or none |
| Maps.MinimumEntry | LearnDataStructures/Map/Map.swift:288-294 | the leftmost entry has the smallest key of an ordered tree, with its value |
| Maps.InsertLeft | LearnDataStructures/Map/Map.swift:256-259 | putting a smaller key into the left subtree keeps the order and updates the mapping |
| Maps.InsertRight | LearnDataStructures/Map/Map.swift:260-261 | putting a larger key into the right subtree keeps the order and updates the mapping |
| Maps.RemoveLeft | LearnDataStructures/Map/Map.swift:310-317 | removing a smaller key from the left subtree keeps the order and unmaps the key |
| Maps.RemoveRight | LearnDataStructures/Map/Map.swift:318-321 | removing a larger key from the right subtree keeps the order and unmaps the key |
| Maps.RemoveRoot | LearnDataStructures/Map/Map.swift:322-334 | a node with one empty side is replaced by the other side |
| Maps.MapSuccessorReplaces | LearnDataStructures/Map/Map.swift:336-347 | the right subtree's minimum replacing a node with two children keeps the order and unmaps exactly the node's key |
| Maps.RemoveMinimumLeft | LearnDataStructures/Map/Map.swift:296-307 | removing the minimum from the left subtree removes the whole tree's minimum |
| Maps.BinarySearchTreeMap.constructor | LearnDataStructures/Map/Map.swift:209-211 | an empty map |
| Maps.BinarySearchTreeMap.IsEmpty | LearnDataStructures/Map/Map.swift:213-215 | true only for the empty mapping, and exactly then while `size` is accurate |
| Maps.BinarySearchTreeMap.Count | LearnDataStructures/Map/Map.swift:217-219 | at least the number of keys; equal while `size` is accurate |
| Maps.BinarySearchTreeMap.Contains | LearnDataStructures/Map/Map.swift:221-223 | true exactly when the key is mapped |
| Maps.BinarySearchTreeMap.Get | LearnDataStructures/Map/Map.swift:239-250 | the mapped value, or nil |
| Maps.BinarySearchTreeMap.Set | LearnDataStructures/Map/Map.swift:239-250 | a value maps the key to it and counts a new key; nil removes the key |
| Maps.BinarySearchTreeMap.InsertInto | LearnDataStructures/Map/Map.swift:252-267 | the returned subtree is ordered and maps the key to the value; an existing key keeps the count |
| Maps.BinarySearchTreeMap.RemoveValue | LearnDataStructures/Map/Map.swift:282-286 | returns the prior value or nil; the key is gone, other keys keep their values, and `size` drops exactly when it was present |
| Maps.BinarySearchTreeMap.RemoveMinimumFrom | LearnDataStructures/Map/Map.swift:296-307 | the returned subtree is ordered and lacks only the minimum key |
| Maps.BinarySearchTreeMap.RemoveFrom | LearnDataStructures/Map/Map.swift:309-350 | the returned subtree is ordered and unmaps only the key |
| Maps.BinarySearchTreeMap.RemoveAll | LearnDataStructures/Map/Map.swift:352-354 | the mapping becomes empty but `size` is kept |
| Queues.Dequeued | LearnDataStructures/Queue/Queue.swift:65-71 | on an empty queue nothing comes out; otherwise the front comes out and the rest stays |
| Queues.EnqueueBehindFront | LearnDataStructures/Queue/Queue.swift:60-71 | enqueueing does not change what comes out of a non-empty queue first |
| Queues.FirstInFirstOut | LearnDataStructures/Queue/Queue.swift:60-71 | what was queued first comes out first, in order, leaving what followed |
| Queues.ArrayQueue.constructor | LearnDataStructures/Queue/Queue.swift:50 | an empty queue |
| Queues.ArrayQueue.IsEmpty | LearnDataStructures/Queue/Queue.swift:52-54 | true exactly when nothing is queued |
| Queues.ArrayQueue.Count | LearnDataStructures/Queue/Queue.swift:56-58 | the number of queued values |
| Queues.ArrayQueue.Enqueue | LearnDataStructures/Queue/Queue.swift:60-62 | adds the value at the back |
| Queues.ArrayQueue.Dequeue | LearnDataStructures/Queue/Queue.swift:65-71 | behaves as the reference queue, so nil and no change when empty |
| Queues.ArrayQueue.Front | LearnDataStructures/Queue/Queue.swift:73-75 | what `dequeue` would return |
| Queues.Present | LearnDataStructures/Queue/Queue.swift:99-102 | the values of a run of filled slots, one per slot |
| Queues.LazyCount | LearnDataStructures/Queue/Queue.swift:108-110 | `array.count - head` is the number of queued values |
| Queues.LazyFront | LearnDataStructures/Queue/Queue.swift:132-138 | the slot at `head` is what the reference queue would put out |
| Queues.LazyEnqueueRefines | LearnDataStructures/Queue/Queue.swift:112-114 | appending a filled slot keeps the slot layout and enqueues the value |
| Queues.LazyDequeueRefines | LearnDataStructures/Queue/Queue.swift:117-130 | vacating the head slot, with compaction, keeps the slot layout, dequeues the front, and keeps the vacated prefix bounded |
| Queues.LazyQueue.constructor | LearnDataStructures/Queue/Queue.swift:101-102 | an empty queue with `head` 0 |
| Queues.LazyQueue.IsEmpty | LearnDataStructures/Queue/Queue.swift:104-106 | true exactly when nothing is queued |
| Queues.LazyQueue.Count | LearnDataStructures/Queue/Queue.swift:108-110 | the number of queued values |
| Queues.LazyQueue.Enqueue | LearnDataStructures/Queue/Queue.swift:112-114 | appends a filled slot, which enqueues the value |
| Queues.LazyQueue.Dequeue | LearnDataStructures/Queue/Queue.swift:117-130 | nil when `head` is past the end; otherwise vacates the slot, advances `head`, compacts past 50 slots and a quarter; dequeues as the reference queue |
| Queues.LazyQueue.Front | LearnDataStructures/Queue/Queue.swift:132-138 | what `dequeue` would return |
| Queues.LinkedListQueue.constructor | LearnDataStructures/Queue/Queue.swift:161 | an empty queue over a coherent list |
| Queues.LinkedListQueue.IsEmpty | LearnDataStructures/Queue/Queue.swift:163-165 | true exactly when nothing is queued |
| Queues.LinkedListQueue.Count | LearnDataStructures/Queue/Queue.swift:167-169 | the number of queued values |
| Queues.LinkedListQueue.Enqueue | LearnDataStructures/Queue/Queue.swift:171-173 | appends at the tail, which enqueues the value |
| Queues.LinkedListQueue.Dequeue | LearnDataStructures/Queue/Queue.swift:176-182 | nil when empty, otherwise `removeFirst()`; dequeues as the reference queue |
| Queues.LinkedListQueue.Front | LearnDataStructures/Queue/Queue.swift:184-186 | what `dequeue` would return |
| Stacks.Popped | LearnDataStructures/Stack/Stack.swift:77-80 | on an empty stack nothing comes out; otherwise the top comes out and the rest stays |
| Stacks.PopUndoesPush | LearnDataStructures/Stack/Stack.swift:72-80 | popping undoes a push and returns the pushed value |
| Stacks.LastInFirstOut | LearnDataStructures/Stack/Stack.swift:72-80 | after pushes, as many pops return the values in reverse and restore the stack |
| Stacks.ReversedSnoc | LearnDataStructures/Stack/Stack.swift:117-128 | a list read from its end, with a value added at its far end |
| Stacks.ReversedHead | LearnDataStructures/Stack/Stack.swift:130-132 | the head of a list is the top of the stack it represents |
| Stacks.ArrayStack.constructor | LearnDataStructures/Stack/Stack.swift:62 | an empty stack |
| Stacks.ArrayStack.IsEmpty | LearnDataStructures/Stack/Stack.swift:64-66 | true exactly when nothing is stacked |
| Stacks.ArrayStack.Count | LearnDataStructures/Stack/Stack.swift:68-70 | the number of stacked values |
| Stacks.ArrayStack.Push | LearnDataStructures/Stack/Stack.swift:72-74 | puts the value on top |
| Stacks.ArrayStack.Pop | LearnDataStructures/Stack/Stack.swift:77-80 | behaves as the reference stack, so nil when empty |
| Stacks.ArrayStack.Top | LearnDataStructures/Stack/Stack.swift:82-84 | what `pop` would return |
| Stacks.LinkedListStack.constructor | LearnDataStructures/Stack/Stack.swift:107 | an empty stack over a coherent list |
| Stacks.LinkedListStack.IsEmpty | LearnDataStructures/Stack/Stack.swift:109-111 | true exactly when nothing is stacked |
| Stacks.LinkedListStack.Count | LearnDataStructures/Stack/Stack.swift:113-115 | the number of stacked values |
| Stacks.LinkedListStack.Push | LearnDataStructures/Stack/Stack.swift:117-119 | inserts at the head, which pushes the value |
| Stacks.LinkedListStack.Pop | LearnDataStructures/Stack/Stack.swift:122-128 | nil when empty, otherwise `removeFirst()`, which pops as the reference stack |
| Stacks.LinkedListStack.Top | LearnDataStructures/Stack/Stack.swift:130-132 | what `pop` would return |
| Sets.NoDuplicatesCons | LearnDataStructures/Set/Set.swift:52-56 | a list has no duplicates exactly when its head is not in its rest and its rest has none |
| Sets.FilterNoDuplicates | LearnDataStructures/Set/Set.swift:58-60 | removing matching values keeps a list free of duplicates |
| Sets.DistinctCardinality | LearnDataStructures/Set/Set.swift:48-50 | without duplicates the length is the number of members |
| Sets.RemoveLeavesCountHigh | LearnDataStructures/Set/Set.swift:58-60 | removing a present member unlinks it but leaves `count` one above the length |
| Sets.RemoveLastMemberExample | LearnDataStructures/Set/Set.swift:58-60 | `{1}` after `remove(1)` has no members but a `count` of 1 |
| Sets.LinkedListSet.constructor | LearnDataStructures/Set/Set.swift:42 | an empty set |
| Sets.LinkedListSet.IsEmpty | LearnDataStructures/Set/Set.swift:44-46 | true only for no members, and exactly then while the list is coherent |
| Sets.LinkedListSet.Count | LearnDataStructures/Set/Set.swift:48-50 | at least the number of members; equal while the list is coherent |
| Sets.LinkedListSet.Insert | LearnDataStructures/Set/Set.swift:52-56 | adds the member at the front unless present, so no duplicates ever arise |
| Sets.LinkedListSet.Remove | LearnDataStructures/Set/Set.swift:58-60 | the member is gone and the others stay, but the counter is left as it was |
| Sets.LinkedListSet.Contains | LearnDataStructures/Set/Set.swift:62-64 | true exactly for members |
| Sets.BinarySearchTreeSet.constructor | LearnDataStructures/Set/Set.swift:86 | an empty set |
| Sets.BinarySearchTreeSet.IsEmpty | LearnDataStructures/Set/Set.swift:88-90 | true exactly for no members |
| Sets.BinarySearchTreeSet.Count | LearnDataStructures/Set/Set.swift:92-94 | the number of distinct members |
| Sets.BinarySearchTreeSet.Insert | LearnDataStructures/Set/Set.swift:96-98 | adds the member |
| Sets.BinarySearchTreeSet.Remove | LearnDataStructures/Set/Set.swift:100-102 | the member is gone and the others stay |
| Sets.BinarySearchTreeSet.Contains | LearnDataStructures/Set/Set.swift:104-106 | true exactly for members |

## Left out

- Printing and timing: the demonstration programs, the `description` texts, and the
  complexity and amortisation remarks in the comments. They say nothing about
  behaviour that a contract can state.
- Closures: the heap's `orderCriteria`, the segment tree's `function`, and the
  `map`, `filter` and `removeAll(where:)` closures are Dafny function values.
  The traversals' `process` callbacks are left out; each traversal is
  modelled as the sequence of values it visits. The heap needs the order to be
  a strict weak order, and the fold results assume an associative merger.
- Tries.Lower: Swift's `lowercased()` is Unicode case mapping. The model
  folds only `A` to `Z`. It keeps what the contracts use: the length is kept,
  folding is idempotent, and every operation walks the folded word.
- Generic `Comparable` keys: the binary search tree, `BinarySearchTreeSet`
  and `BinarySearchTreeMap` are modelled over `int` keys, ordered by `<`.
- Object identity: the list nodes, tree nodes and trie nodes are values, not
  objects. The linked list is its chain of values plus a tail reference. A
  tree is an inductive datatype. A trie node is the path that leads to it.
  So reference sharing, ARC and deinitialisation are not modelled.
- Queues.LazyQueue.Dequeue: the Swift test compares the `Double` ratio
  `head / array.count` with 0.25. The model uses the exact integer test
  `4 * head > array.count`, which is the same comparison without rounding.
- SegmentTrees.SegmentTree.ReplaceItem: the Swift code checks no index. An
  index outside the node's range follows the comparisons down to the first or
  the last leaf and replaces that element. The model states exactly this
  (`Clamp`) instead of demanding an index in range. An index in range is the
  case where `Clamp` is the identity.
- SegmentTrees.SegmentTree.Query: an out-of-range query reaches a leaf with
  mismatched bounds, which is a fatal error. The model demands a range inside
  the node's bounds.
- Heap `remove(at:)`: the private `remove(at:)` has no caller in the library,
  so it is not modelled.
- Maps.BinarySearchTreeMap.RemoveValue: the Swift `find` returns the node and
  `removeValue` reads its value. The model returns the value directly.
- LinkedLists.LinkedList: the element type needs equality (`T(==)`) for the
  whole class, because `contains` needs it. Swift asks for `Equatable` only
  on `contains`.
- Arrays.ArrayList: Swift `Array` copy-on-write is not modelled. The buffer
  is a Dafny array owned by the list.
- Sets.LinkedListSet.IsEmpty and Sets.LinkedListSet.Count are exact only on a
  coherent list. After `remove` the counter is stale, as in the Swift code.
- Maps.LinkedListMap.IsEmpty, Maps.LinkedListMap.Count,
  Maps.BinarySearchTreeMap.IsEmpty and Maps.BinarySearchTreeMap.Count are
  exact only while `size` matches the entries. After `removeAll` it does not
  match, as in the Swift code.
- UnionFinds.UnionFind: the Swift type has no termination measure for path
  compression. The model has a ghost `dist` sequence that strictly falls
  along parent links.
