# Threaded binary search tree

A model of `BinaryTree<T>` from `binaryTree.hpp`. It is an unbalanced binary search tree whose
link slots are threaded. Each node has two tagged links. A link tagged `NO_THREAD` (a CHILD
link) owns the subtree below it. A link tagged `THREAD` points to the node's in-order
predecessor (for a left slot) or successor (for a right slot), or is null past either end of
the order. The tree also keeps a size counter and a depth counter, which `insert` updates.

## How the model is built

- **Links.** `Shapes.Link` is `Thread(target)` or `Child(node)`. It is the source's
  pointer-and-tag pair with the tag made explicit. The tree's root slot is a link too: a null
  `THREAD` while the tree is empty (the `NodePtr{nullptr}` of the field initialiser, whose tag
  is 0, i.e. `THREAD`), and a CHILD link after the first insertion.
- **Nodes.** Nodes live in an arena. Node `i` is the `i`-th value inserted, and its value,
  left link and right link are `values[i]`, `lefts[i]` and `rights[i]` of the class
  `BinaryTrees.BinaryTree`. The root slot is `root`, and `size` and `depth` are the two
  counters.
- **Shape.** A ghost field `shape: Tree` records the shape that the CHILD links form. The
  invariant `Valid()` says that the arena matches the shape:
  - the shape lists every node exactly once;
  - it is ordered the way the insertion routes values: a left subtree holds only smaller
    values, a right subtree only values at least as large;
  - every link slot holds the CHILD link or the thread that the shape dictates;
  - `size` is the node count and `depth` is the height.
- **Threads.** The thread condition is stated the way the insertion maintains it. Each THREAD
  slot carries the bound inherited on the way down the tree (`Shapes.Wired`).
  `Shapes.WiredIffNeighbours` proves that this is the same as "CHILD links follow the shape, a
  THREAD left link names the in-order predecessor and a THREAD right link the in-order
  successor": `Shapes.ThreadsAreNeighbours` gives one direction, `Shapes.NeighboursAreWired`
  the other.
- **Insertion.** `BinaryTrees.BinaryTree.Insert` is the descent of `insertLeft` and
  `insertRight`. That recursion is a tail recursion along one path, and the model writes it
  as a loop over the current slot, the link inside it and the level. `Hang` is the shared
  `THREAD` branch that links the new node in. The pure functions `Growth.FindSlot`,
  `Growth.InsertLevel` and `Growth.Grow` give the slot reached, its level and the new shape.
  The lemmas of module `Growth` prove that one insertion keeps the invariant.
- **Traversals and searches.** The traversals return the sequence of values the callback
  would receive. `search` and `searchRecursive` return the index of the node found.
  `minimum` and `maximum` return a `Result` whose failure carries the message of the
  `out_of_range` exception. `previous` and `next` take a node index and return the
  neighbour's index, or `None` for the source's null.
- **Depth.** Depth counts nodes on the longest root-to-leaf path: the root slot is level 1,
  the default argument of `insertLeft` (binaryTree.hpp:48) that `insert` starts from
  (binaryTree.hpp:197).
- **Duplicates.** A value equal to a node's value goes to the right. An equal value therefore
  lands after every value already equal to it in in-order (`Sorting.InsertSorted`).
- **Traversal roots.** `preorder` and `postorder` pass `m_root` itself, the tagged pair,
  where `inorder` passes `m_root.getPointer()`. The model reads all three as starting at the
  root node.

## Model

| member | source | states |
|---|---|---|
| BinaryTrees.BinaryTree.constructor | binaryTree.hpp:59-61 | a new tree is valid, with no values, a null THREAD root and both counters zero |
| BinaryTrees.BinaryTree.Size | binaryTree.hpp:376-380 | the size counter equals the number of values inserted and the number of nodes in the tree |
| BinaryTrees.BinaryTree.Depth | binaryTree.hpp:382-386 | the depth counter is the height of the tree counted in nodes, and it is zero exactly when the tree is empty |
| BinaryTrees.BinaryTree.LeftChild | binaryTree.hpp:106-113 | a node's left child is present exactly when its left link is a CHILD link; the link then names it, and the child is newer than the node |
| BinaryTrees.BinaryTree.RightChild | binaryTree.hpp:115-122 | a node's right child is present exactly when its right link is a CHILD link; the link then names it, and the child is newer than the node |
| BinaryTrees.BinaryTree.TraversalsFollowShape | binaryTree.hpp:298-346 | walking CHILD links from any subtree's root visits exactly that subtree's values, in in-order, pre-order and post-order |
| BinaryTrees.BinaryTree.Inorder | binaryTree.hpp:291-308 | the in-order traversal is non-decreasing and is a permutation of all inserted values |
| BinaryTrees.BinaryTree.Preorder | binaryTree.hpp:310-327 | the pre-order traversal is a permutation of all inserted values, with the root's value first |
| BinaryTrees.BinaryTree.Postorder | binaryTree.hpp:329-346 | the post-order traversal is a permutation of all inserted values, with the root's value last |
| BinaryTrees.BinaryTree.ThreadsFollowOrder | binaryTree.hpp:124-149 | in a valid tree every THREAD left link holds the in-order predecessor and every THREAD right link the in-order successor, null at the two ends |
| BinaryTrees.BinaryTree.SearchFrom | binaryTree.hpp:229-240 | the recursive search below a node returns only a node whose value equals x |
| BinaryTrees.BinaryTree.SearchFromFinds | binaryTree.hpp:229-240 | in an ordered subtree the recursive search fails exactly when x is not among the subtree's values |
| BinaryTrees.BinaryTree.SearchRecursive | binaryTree.hpp:223-240 | searchRecursive returns a node holding x, and returns null exactly when no inserted value equals x |
| BinaryTrees.BinaryTree.Search | binaryTree.hpp:207-221 | the iterative search returns the same result as searchRecursive: a node holding x, or null exactly when x is absent |
| BinaryTrees.BinaryTree.EmptyRoot | binaryTree.hpp:351-352 | the root pointer is null exactly when the tree holds no values, and otherwise it names the shape's root |
| BinaryTrees.BinaryTree.FirstIsLeast | binaryTree.hpp:354-359 | the value of the node listed first in in-order is the first in-order value, an inserted value, and no inserted value is smaller |
| BinaryTrees.BinaryTree.LastIsGreatest | binaryTree.hpp:368-373 | the value of the node listed last in in-order is the last in-order value, an inserted value, and no inserted value is greater |
| BinaryTrees.BinaryTree.Minimum | binaryTree.hpp:348-360 | minimum fails with "Drzewo puste" exactly when the tree is empty; otherwise it returns the first in-order value, which no inserted value undercuts |
| BinaryTrees.BinaryTree.Maximum | binaryTree.hpp:362-374 | maximum fails with "Drzewo puste" exactly when the tree is empty; otherwise it returns the last in-order value, which no inserted value exceeds |
| BinaryTrees.BinaryTree.Previous | binaryTree.hpp:124-136 | previous returns the node's in-order predecessor, or null for the first node, whether its left link is a THREAD or a CHILD |
| BinaryTrees.BinaryTree.Next | binaryTree.hpp:138-149 | next returns the node's in-order successor, or null for the last node, whether its right link is a THREAD or a CHILD |
| BinaryTrees.BinaryTree.Insert | binaryTree.hpp:388-450 | insert keeps the tree valid and appends one node. Size grows by one and depth becomes the larger of the old depth and the level reached. The slot reached held a THREAD and now holds a CHILD link to the new node; nothing else changes but the new node's links. The root is a CHILD link afterwards, and the in-order values gain x in sorted position |
| BinaryTrees.BinaryTree.Hang | binaryTree.hpp:396-403 | the THREAD branch (insertRight's at 428-435 mirrors it), given the THREAD link stored in the slot: it appends the new node with the inherited link on its outer side and a thread to the slot's owner on its inner side, turns the slot into a CHILD link to it, raises size by one and depth to the level if that is deeper; validity carries over to the new state |
| BinaryTrees.BinaryTree.Swap | binaryTree.hpp:184-191 | swap exchanges the roots, counters and node stores of two valid trees, and both stay valid |
| BinaryTrees.InsertConsistent | binaryTree.hpp:388-450 | for any consistent tree the descent for x ends at a THREAD slot, and it ends at the root slot only when the tree is empty. Hanging the new node there gives a consistent tree with one more node and the new depth; its in-order values are the old ones with x inserted in sorted position |
| Growth.InsertKeeps | binaryTree.hpp:388-450 | hanging the new node at the descent's THREAD slot keeps the whole invariant: listing, search order and correct threads |
| Growth.GrowThreaded | binaryTree.hpp:396-403 | the relinking of the THREAD branch leaves every slot holding the CHILD link or the thread the new shape dictates |
| Growth.GrowWired | binaryTree.hpp:396-403 | from any slot of the descent, the new node's inherited link and its thread to the slot's owner are the correct in-order neighbours, and the rest of the links stay right |
| Growth.GrowListing | binaryTree.hpp:396-397 | after one insertion the shape lists each of the old nodes and the new one exactly once |
| Growth.GrowIds | binaryTree.hpp:400-402 | the new shape holds the old node indices plus exactly the new one |
| Growth.GrowValues | binaryTree.hpp:405-417 | routing strictly greater values left and the rest right keeps the search order, and it inserts x in sorted position after every equal value |
| Growth.GrowHeight | binaryTree.hpp:397-399 | the new height is the larger of the old height and the level at which the new node is hung |
| Growth.InsertLevel | binaryTree.hpp:393-410 | the level of the slot reached is at least 1 and at most one more than the height |
| Growth.Grow | binaryTree.hpp:400-402 | the new shape is non-empty, keeps the old root, and stays inside the grown arena |
| Growth.FindSlotInside | binaryTree.hpp:405-417 | the descent stays at the starting slot only on an empty tree; otherwise it stops at a slot of one of the tree's nodes |
| Growth.AttachFrame | binaryTree.hpp:400-402 | apart from the slot reached, insertion leaves the links of every old node unchanged |
| Shapes.ThreadsAreNeighbours | binaryTree.hpp:128-145 | in a wired tree every THREAD left link holds the in-order predecessor and every THREAD right link the in-order successor |
| Shapes.NeighboursAreWired | binaryTree.hpp:128-145 | links that follow the shape, with every THREAD left link holding the in-order predecessor and every THREAD right link the successor, are wired the way insertion wires them |
| Shapes.WiredIffNeighbours | binaryTree.hpp:128-145 | the wiring insertion maintains holds exactly when CHILD links follow the shape and THREAD links hold the in-order neighbours |
| Shapes.Locate | binaryTree.hpp:131-134 | any node of a wired tree sits at a known place in the in-order listing, between its left and its right subtree |
| Shapes.LeftmostFirst | binaryTree.hpp:354-357 | the node reached by following left children from the root comes first in in-order |
| Shapes.RightmostLast | binaryTree.hpp:368-371 | the node reached by following right children from the root comes last in in-order |
| Shapes.OrderedSorted | binaryTree.hpp:299-308 | in a tree in search order the in-order values are non-decreasing |
| Shapes.ListedValues | binaryTree.hpp:299-308 | a shape that lists every node once yields exactly the multiset of stored values in in-order |
| Shapes.PicksPermute | binaryTree.hpp:299-308 | reading the values at a duplicate-free list of all node indices gives a permutation of the values |
| Shapes.ValuesAtIds | binaryTree.hpp:299-308 | the k-th in-order value is the value of the k-th in-order node |
| Shapes.PreorderPermutes | binaryTree.hpp:317-327 | pre-order visits the same multiset of values as in-order |
| Shapes.PostorderPermutes | binaryTree.hpp:336-346 | post-order visits the same multiset of values as in-order |
| Sorting.UpperBound | binaryTree.hpp:405-417 | the position where routing places x: every earlier element is at most x and the next one is greater |
| Sorting.InsertSortedSorted | binaryTree.hpp:405-417 | inserting into a sorted sequence keeps it sorted |
| Sorting.InsertSortedPermutes | binaryTree.hpp:405-417 | insertion keeps every element and adds exactly one x |
| Sorting.InsertSortedMembers | binaryTree.hpp:405-417 | the inserted sequence holds exactly the old elements and x |

## Left out

- `prettyPrint`: it only writes to standard output.
- `PointerIntPair`: tag packing inside the pointer's low bit is replaced by the explicit
  `Link` datatype.
- The destructor and `deleter`: the model has no memory management. The arena holds every node
  for as long as the tree exists.
- The move constructor and move assignment: defaulted member-wise moves, not modelled.
- Callbacks: the traversals return the sequence of values the callback would be applied to,
  instead of calling a `std::function`.
- Genericity: the element type `T` is fixed to `int`, with `>` and `==` as its comparisons.
- `Node::value`: it is the read `values[i]`; the model hands out node indices where the
  source returns pointers to the stored value.
- Swap: the source exchanges roots and counters, and the nodes follow their roots. In the arena
  model the node stores belong to the tree object, so swap exchanges them too.
- Insert: the unsigned 32-bit counters `m_size`, `m_depth` and `level` are modelled as unbounded
  naturals. Assuming a 32-bit `unsigned`, `m_size` would wrap to 0 on the insertion after
  2^32 - 1 insertions.
- Insert: `new Node(x)` can throw `std::bad_alloc` (binaryTree.hpp:196, 203; `insert` is not
  `noexcept`); allocation in the model never fails.
- Insert: `insert(const T&)` and `insert(T&&)` differ only in how the value is copied into the
  node; both are the one `Insert(x)`.
- Hang: its precondition is the consistency of the state it builds. `InsertConsistent`
  establishes that precondition for the slot, link and level that the descent reaches.
