# Generic red-black tree, modelled in Dafny

This project models the red-black tree engine of `src/RBTree.c` and the
vector comparator `vectorCompare1By1` of `src/Structs.c`, and proves
properties of the model.

The tree is a class, `RBTree.RBTree`. Its nodes live in an arena,
`nodes: seq<NodeRec>`. Each record holds `parent`, `left` and `right` as
optional arena indices (`Ptr = Null | At(index)`), a colour and an int
payload. `root` and `size` are the C `tree->root` and `tree->size`. A ghost
field `Shape` holds the pure tree the arena spells out. `Wf()` ties the two
together: every record matches its node of `Shape`, every child points back
to its parent, the root has no parent, and no arena slot is used twice.
`Valid()` adds five facts:

- the keys are strictly ascending in order;
- the root is black;
- no red node has a red child;
- every root-to-leaf path has the same number of black nodes.
- `size`, the number of arena records and the number of keys are equal.

Each C function is modelled by a method: `addToRBTree` by `AddToRBTree`,
`Add`, `HangRight` and `HangLeft`, and both rotations share `Reattach`.
Statements follow the C in order except where "Left out" and "Findings"
below say otherwise.
Ghost parameters `ctx` and `s` say where the node being worked on sits:
`ctx` is a zipper, the chain of frames from the node's parent up to the
root. Each method's contract describes the new `Shape` using a pure
function:

- rotations: `RotateLeft` and `RotateRight`;
- the fixup cases: `Fixup`, `Case3Lift` and `Case4`;
- the descent: `Insert`.

The properties of those functions are proved as lemmas:

- in-order preservation;
- key preservation;
- re-establishing the colour rules, from the "at most one violation"
  invariant `FixupInv`.

Modules:

- `RedBlack` (`red_black.dfy`): pure trees, the colour rules, zippers,
  rotations, BST insertion, post-order teardown.
- `InsertFixup` (`fixup.dfy`): the fixup state machine as functions, with
  the key-preservation and colour-correctness proofs.
- `Arena` (`arena.dfy`): how the arena is linked to the pure tree, and what
  each kind of update does to that link.
- `RBTree` (`rbtree.dfy`): the imperative class and the public functions.
- `Structs` (`structs.dfy`): `Vector`, lexicographic comparison
  (`LexCompare`), the comparator loop `VectorCompare1By1`, and two pure
  versions of the comparator: `VectorCompareAsWritten` follows
  `src/Structs.c` as written, and `VectorCompare`, with the guard at line 81
  corrected (see "Findings"), is the specification the loop is proved to
  compute.
- `Nullable` (`nullable.dfy`): `Option`, used for nullable pointers.

Where the header documentation and the code disagree, the model follows the
code. `forEachRBTree` is documented to stop at the first callback returning
0 (`src/RBTree.h:92-93`). The code ignores the callback's result and visits
every element, and so does the model.

## Model

| member | source | states |
|---|---|---|
| RBTree.Compare | src/RBTree.h:22-28 | The comparator is zero exactly on equal keys, negative exactly when the first is smaller, positive exactly when it is larger |
| RBTree.RBTree.constructor | src/RBTree.c:35-43 | A new tree is valid and empty: no root, size 0, no elements; it keeps whether a destructor was given |
| RBTree.RBTree.Reattach | src/RBTree.c:93-110 | The rotated-up child takes the old node's slot in its parent, or becomes the root when the node had no parent; nothing else changes |
| RBTree.RBTree.LeftRotate | src/RBTree.c:81-113 | The arena stays well linked and now spells the left rotation of the subtree in place; the root pointer moves to the right child exactly when the node was the root |
| RBTree.RBTree.RightRotate | src/RBTree.c:120-148 | Mirror image of LeftRotate, with the left child moving up |
| RedBlack.RotateLeftPreserves | src/RBTree.c:81-113 | A left rotation keeps the in-order keys, the set of node ids, id-distinctness and the node count |
| RedBlack.RotateRightPreserves | src/RBTree.c:120-148 | The same for a right rotation |
| RedBlack.RotationsKeepInOrder | src/RBTree.c:81-148 | Both rotations keep the in-order sequence of nodes with their ids, colours and keys |
| Arena.LeftRotatedLinked | src/RBTree.c:83-112 | The records leftRotate writes link the arena to the rotated tree with all parent back-links consistent, and nothing is allocated |
| Arena.RightRotatedLinked | src/RBTree.c:122-147 | The same for the records rightRotate writes |
| Arena.Locate | src/RBTree.h:47-53 | In a well-linked arena, a node's record carries its colour, key and child pointers, its parent pointer names its parent frame, and the parent's other child is the sibling |
| RBTree.RBTree.GetSibling | src/RBTree.c:220-234 | Null for the root, otherwise the other child of the parent |
| RBTree.RBTree.Paint | src/RBTree.c:209-211 | Recolouring one node keeps the arena linked and changes only that node's colour in the shape |
| Arena.RecolorLinked | src/RBTree.c:160-161 | Changing one record's colour links the arena to the tree with that node recoloured |
| RBTree.RBTree.CaseOneInsert | src/RBTree.c:156-163 | A node without a parent is painted black; a node with one is left alone |
| RBTree.RBTree.FixingUpTheTree | src/RBTree.c:51-74 | Returns 1, and the new shape is Fixup of the zipper: black root in case 1, unchanged in case 2, case 3 then recursion, case 4 |
| RBTree.RBTree.CaseThreeInsert | src/RBTree.c:206-213 | Parent and uncle turn black, the grandparent turns red, and fixup continues two levels up |
| RBTree.RBTree.CaseFourInsert | src/RBTree.c:170-199 | A zig-zag is straightened by a rotation at the parent, then the grandparent is rotated and the new top turns black and the old grandparent red |
| InsertFixup.FixupKeys | src/RBTree.c:51-74 | Fixup leaves the in-order key sequence of the whole tree unchanged |
| InsertFixup.Case3Keys | src/RBTree.c:206-213 | Case 3 recolouring keeps the in-order keys |
| InsertFixup.StraightenKeys | src/RBTree.c:175-185 | The straightening rotation of case 4 keeps the in-order keys |
| InsertFixup.Case4Keys | src/RBTree.c:170-199 | Case 4 keeps the in-order keys |
| InsertFixup.NewNodeInv | src/RBTree.c:254-259 | A red node hung into a leaf slot of a red-black tree breaks at most the red-red rule at that node |
| InsertFixup.Case3Inv | src/RBTree.c:64-70 | A red parent has a parent of its own; when the uncle is red too, case 3 leaves the grandparent satisfying the same at-most-one-violation invariant |
| InsertFixup.Case4RB | src/RBTree.c:170-199 | With a red parent and a black uncle, case 4 yields a red-black tree |
| InsertFixup.FixupRB | src/RBTree.c:45-74 | From at most one red-red violation at the new node, fixup yields a black root, no red node with a red child and equal black heights |
| InsertFixup.PlugValid | src/RBTree.c:45-50 | A subtree satisfying the colour rules, in a context that agrees with its black height, gives a whole tree satisfying them |
| InsertFixup.PlugDecompose | src/RBTree.c:45-50 | The converse: every subtree of a tree satisfying the colour rules satisfies them and agrees with its context |
| InsertFixup.InsertThenFixup | src/RBTree.c:273-305 | Hanging a red node for an absent key and fixing up gives an ordered red-black tree holding the old keys and the new one, one key more |
| RedBlack.BalancedPathsAgree | src/RBTree.c:45-50 | In a black-balanced tree, every root-to-leaf path meets the same number of black nodes |
| RedBlack.InsertAdds | src/RBTree.c:273-301 | BST insertion of an absent key keeps the keys ascending, adds exactly that key and that node id |
| RedBlack.MemberSide | src/RBTree.c:275-300 | In an ordered tree, a key below (above) a node's key can only be in its left (right) subtree |
| RedBlack.DescendRight | src/RBTree.c:281-290 | Stepping into the right child keeps the zipper spelling the same tree and the same insertion result |
| RedBlack.DescendLeft | src/RBTree.c:291-300 | The same for the left child |
| Arena.AttachRightLinked | src/RBTree.c:283-288 | Writing the new red node as right child, with its parent link, links the arena to the tree with that node added |
| Arena.AttachLeftLinked | src/RBTree.c:293-298 | The same on the left |
| Arena.HangDistinct | src/RBTree.c:254 | A node with a fresh arena slot keeps all node ids distinct |
| RBTree.RBTree.HangRight | src/RBTree.c:283-288 | The new red node becomes the right child; the arena grows by one slot and spells the extended tree |
| RBTree.RBTree.HangLeft | src/RBTree.c:293-298 | The same on the left |
| RBTree.RBTree.Add | src/RBTree.c:254-305 | Returns 0 and changes nothing when the key is present; otherwise returns 1, the size grows by one, the elements become old plus the key, and the tree stays an ordered red-black tree |
| RBTree.AddToRBTree | src/RBTree.c:242-306 | 0 for a null tree or null data, with no change; otherwise as Add: 0 with nodes, root and shape unchanged when the key is present, else 1, size plus one and the old elements plus data, still Valid |
| RBTree.ContainsRBTree | src/RBTree.c:314-339 | -1 for a null tree; else 1 exactly when the key is stored and 0 exactly when it is not; modifies nothing |
| RBTree.RBTree.TraverseInOrder | src/RBTree.c:364-373 | The visitor receives the keys of the subtree in order |
| RBTree.ForEachRBTree | src/RBTree.c:348-356 | 0 and no visit for a null tree; else 1, with every element visited once in ascending order, as many visits as the size |
| RBTree.RBTree.FreeTreeHelper | src/RBTree.c:390-405 | Nodes are released children first; the destructor gets the payloads in the same order, or nothing without a destructor |
| RBTree.FreeRBTree | src/RBTree.c:379-383 | Every node is released exactly once, as many as the size; the destructor receives every element exactly once |
| RedBlack.PostOrderReleasesEachOnce | src/RBTree.c:390-405 | Post-order over an id-distinct tree lists each node id exactly once, and all of them |
| RedBlack.PostOrderKeysPermutation | src/RBTree.c:396-402 | The payloads in post-order are a permutation of the in-order keys |
| RedBlack.SizeIsKeyCount | src/RBTree.h:63 | The node count equals the number of stored keys |
| Structs.LexCompare | src/Structs.c:87-106 | The comparison result is always -1, 0 or 1 |
| Structs.VectorCompare1By1 | src/Structs.c:73-107 | The loop returns exactly the intended comparison: -1 for a null pointer, a null array or a negative length, otherwise the lexicographic order of the entries |
| Structs.AsWrittenAcceptsNegativeLength | src/Structs.c:81 | As written, an empty vector compared with one of length -1 gives 1, where rejecting the malformed vector gives -1 |
| Structs.AsWrittenDiffersOnlyThere | src/Structs.c:81-84 | The code as written and the intended comparison differ exactly when the first vector is well formed and the second has an array but a negative length |
| Structs.LexCompareSkip | src/Structs.c:87-97 | A common prefix does not decide the comparison |
| Structs.FirstDifferenceDecides | src/Structs.c:87-97 | At the first differing index, the larger entry makes its vector the larger |
| Structs.LexComparePrefix | src/Structs.c:98-105 | A proper prefix compares smaller |
| Structs.LexCompareZero | src/Structs.c:106 | The comparison is 0 exactly on equal entry sequences |
| Structs.LexCompareAntisymmetric | src/Structs.h:55 | Swapping the arguments negates the result |
| Structs.LexCompareTransitive | src/RBTree.h:22-28 | The order is transitive |
| Structs.VectorCompareZero | src/Structs.c:71 | Well-formed vectors compare to 0 exactly when their entries agree, lengths included |
| Structs.VectorCompareAntisymmetric | src/Structs.h:55 | For well-formed vectors, compare(b, a) is minus compare(a, b) |
| Structs.VectorCompareTransitive | src/RBTree.h:22-28 | For well-formed vectors, the order is transitive, so it is a valid tree comparator |

## Left out

- Memory management is not modelled: `malloc` and `free` at src/RBTree.c:37, 254, 278, 382 and 404.
  - Allocating a node appends a fresh arena slot. A rejected insert appends nothing.
  - Failed allocations are not modelled, because the source never checks them.
  - Releasing memory is modelled as the returned sequence of released node indices.
- The comparator function pointer is fixed to the order of int keys (`RBTree.Compare`). The tree is not generic over the element type.
- The visitor `forEachFunc` is modelled as the sequence of elements passed to it. Its `args` parameter and its return value are dropped; the code ignores that return value.
- `freeFunc` is modelled as a flag fixed at construction. The payloads it receives are returned as a sequence. Setting `node->data = NULL` after freeing is not modelled, because the node is freed next.
- Null data in `containsRBTree` is not modelled: its `data` is an int. The source hands a null pointer to the comparator unchecked.
- `freeRBTree(NULL)` dereferences null at src/RBTree.c:381, so `RBTree.FreeRBTree` takes a non-null tree. The tree value is not reset afterwards, since the C frees it.
- Overflow of the `int size` counter is not modelled: `size` is unbounded.
- RBTree.RBTree.Reattach: one helper serves both rotations, and it tests the parent's left slot first. rightRotate tests the right slot first (src/RBTree.c:137). Both give the same result whenever the node is a child of its parent, which `Wf` guarantees.
- Vector entries are `real`, not `double`. NaN and rounding are not modelled; only `<` and `>` are applied to entries.
- Structs.VectorCompare1By1: a vector whose length is larger than its array is excluded by `Readable`, because the C would read past the array.
- `stringCompare`, `concatenate`, `freeString`, `freeVector`, `copyIfNormIsLarger` and `findMaxNormVectorInTree` in `src/Structs.c` are not part of this model. They wrap `strcmp`, `strcat`, `free`, floating-point norms and `realloc`/`memcpy`.

## Findings

| source | as written | input that shows it | evidently intended | confidence | as-written member | corrected member |
|---|---|---|---|---|---|---|
| src/Structs.c:81 | The guard tests `v1->len < 0` twice and never `v2->len`. A negative second length passes; the loop then runs no iteration and the length test returns 1. | v1 = {len 0, empty array}, v2 = {len -1, empty array}: the result is 1 | Reject a negative length in either vector with -1, as for the first | high (not executed) | Structs.AsWrittenAcceptsNegativeLength | Structs.VectorCompare1By1 |
