# MyTree: binary search trees and Red-Black insertion, in Dafny

MyTree is a small Java library of binary search trees over comparable keys.
This project models its three core parts and proves what each promises.

- **The shared two-child engine** (`AbstractBinaryTree`). Module `Engine`
  in `engine.dfy` covers it:
  - the null-argument check;
  - `contains` by key-directed descent;
  - `height`;
  - the preorder export `getAllElements`;
  - the three `text` traversals, which print each key followed by a space;
  - `clear`, `empty` and `size`.

  The node tree is the datatype `Tree`, and every recursive walk is a
  function over it.
- **The unbalanced search tree** (`BinaryTree`). Module `Plain` in
  `binary_tree.dfy` covers it:
  - recursive insertion that ignores duplicates;
  - erase, which replaces the erased subtree by a *merge* of its two
    children. The merge re-inserts the right subtree's keys, in preorder,
    into the left one;
  - the `BinaryTree` class, holding `root` and `size`.
- **Red-Black insertion** (`RedBlackTree`). It is split over three modules.
  - Module `Balance` (`redblack_spec.dfy`) describes the algorithm on
    values. A zipper of frames stands for the path from a node to the root.
    It defines:
    - `Descend`, the iterative descent;
    - `Fixup`, the bottom-up repair;
    - `RbInsert`, the complete insertion.

    It proves that insertion keeps search order, a BLACK root, no RED node
    with a RED child and equal black height on every path. It also proves
    that a red-black tree of n nodes has height at most 2 log2(n + 1).
  - Module `Arena` (`redblack_arena.dfy`) holds the node objects.
    - They live in a sequence of records (`key`, `leftChild`,
      `rightChild`, `parent`, `color`).
    - A reference is an index, and `NIL` (-1) is Java's `null`.
    - A ghost `Shape` says which records form the tree.
    - `Abs` maps the records to the node tree they spell out.
  - Module `RedBlack` (`redblack_tree.dfy`) is the `RedBlackTree` class.
    Its methods perform the same relinking and recolouring steps as the
    source, in place on the arena:
    - `replaceParentsChild` and the two rotations;
    - `getUncle`;
    - `balancingTreeAfterInsertion`;
    - `safeInsert` and `insert`.

    Each method is proved to leave exactly the node tree that the value-level
    description computes. The inherited queries walk the arena and are
    proved equal to the Engine functions.
- Module `Scenarios` (`redblack_scenarios.dfy`) replays the Red-Black
  test scenarios on `RbInsert`. For each insertion it names the fixup case
  that applies.

Shared declarations live in module `Common` (`common.dfy`): node colours,
the traversal selector, the two exceptions, and the
`Option`/`Result`/`Outcome` wrappers. `None` is Java's `null`, and a
`Failure` or `Fail` is a thrown exception.

Modelling decisions that follow the code as written:

- **Keys.** Keys are mathematical integers, standing for Java's
  `Comparable<T>`. The key comparisons at src/main/java/lights/digital/masterclass/tree/twonode/AbstractBinaryTree.java:408 and src/main/java/lights/digital/masterclass/tree/twonode/binary/BinaryTree.java:74 use `==`, which
  in Java is object identity. It is modelled as value equality. The two
  agree for the cached `Integer` values -128..127, which is every key the
  tests look up. They differ for other values:
  - For a key such as 200, Java's `==` is false even when the tree holds an
    equal 200. `compareTo` then reports equality, so the descent goes right
    and misses the node.
  - As a result, Java's `contains(200)` answers false and `erase(200)` does
    nothing on a tree that holds 200. The model finds the key and removes it.
- **Duplicate inserts.** `insert` increments `size` even when the key is
  already present (src/main/java/lights/digital/masterclass/tree/twonode/binary/BinaryTree.java:108, src/main/java/lights/digital/masterclass/tree/balanced/redblack/RedBlackTree.java:235). Both classes therefore carry a ghost
  counter `surplus` of such inserts. `size` equals the node count plus
  `surplus`, and it equals the node count exactly when no duplicate was
  inserted.
- **Text traversals.** `PREORDER` and `POSTORDER` recurse into the
  subtrees with the *inorder* helper (src/main/java/lights/digital/masterclass/tree/twonode/AbstractBinaryTree.java:333-334, src/main/java/lights/digital/masterclass/tree/twonode/AbstractBinaryTree.java:355-356).
  - PREORDER is: the root, then the inorder walk of the left subtree, then
    that of the right subtree.
  - POSTORDER is: the two inorder walks, then the root.

  `Engine.Text` states exactly this.
- **Node colour.** A new node is BLACK by default (src/main/java/lights/digital/masterclass/tree/twonode/AbstractBinaryTree.java:112). The unbalanced
  tree never reads the colour.
- **Parent links.** `BinaryTree` never sets `parent`, so the unbalanced
  tree is modelled without parent references, as a value.
- **Exceptions inside the repair.** In the source, the rotations (through
  `replaceParentsChild`, src/main/java/lights/digital/masterclass/tree/balanced/redblack/RedBlackTree.java:14-33) and `getUncle` (src/main/java/lights/digital/masterclass/tree/balanced/redblack/RedBlackTree.java:185-194) can throw
  NodeNotChildOfItsParentException. The repair calls them at src/main/java/lights/digital/masterclass/tree/balanced/redblack/RedBlackTree.java:140,
  src/main/java/lights/digital/masterclass/tree/balanced/redblack/RedBlackTree.java:153-161 and src/main/java/lights/digital/masterclass/tree/balanced/redblack/RedBlackTree.java:170-177. On a wellformed tree a parent always holds its
  child, so the model proves these throws unreachable rather than leaving
  them out:
  - `RedBlack.RedBlackTree.RightRotation` and `RedBlack.RedBlackTree.LeftRotation`
    both promise `r == Pass`;
  - `RedBlack.RedBlackTree.UncleIsSibling` shows that `GetUncle` succeeds
    wherever `BalancingTreeAfterInsertion` calls it, and that it returns the
    parent's sibling.
- **Insertion into an empty Red-Black tree.** `RedBlackTree.insert` creates
  the BLACK root itself (src/main/java/lights/digital/masterclass/tree/balanced/redblack/RedBlackTree.java:224-226). `safeInsert` then finds that key and
  returns null. The `parent == null` branch of `safeInsert` (src/main/java/lights/digital/masterclass/tree/balanced/redblack/RedBlackTree.java:96-97) is
  therefore unreachable, and `SafeInsert` requires a non-empty tree.

## Model

| member | source | states |
|---|---|---|
| Engine.ValidateArgument | src/main/java/lights/digital/masterclass/tree/twonode/AbstractBinaryTree.java:56-67 | a null argument is rejected with IllegalArgument, and any other argument passes |
| Engine.Contains | src/main/java/lights/digital/masterclass/tree/twonode/AbstractBinaryTree.java:403-415 | a null key fails, and no other key fails; on a search tree the answer is membership in the key set |
| Engine.ContainsIsMembership | src/main/java/lights/digital/masterclass/tree/twonode/AbstractBinaryTree.java:403-415 | on a search tree, the key-directed descent finds a key exactly when the key is stored |
| Engine.ContainsIsSound | src/main/java/lights/digital/masterclass/tree/twonode/AbstractBinaryTree.java:403-415 | on any tree, a positive answer names a stored key |
| Engine.HeightBounds | src/main/java/lights/digital/masterclass/tree/twonode/AbstractBinaryTree.java:381-393 | the height is 0 exactly for the empty tree, and a tree of height h has between h and 2^h - 1 nodes |
| Engine.ElementsAreTheKeys | src/main/java/lights/digital/masterclass/tree/twonode/AbstractBinaryTree.java:367-376 | the exported collection has one entry per node, is a permutation of the inorder keys, and lists exactly the stored keys |
| Engine.BstIffInorderAscending | src/main/java/lights/digital/masterclass/tree/twonode/AbstractBinaryTree.java:308-318 | a tree is a search tree if and only if its inorder key sequence is strictly increasing |
| Engine.BstCountIsKeyCount | src/main/java/lights/digital/masterclass/tree/twonode/AbstractBinaryTree.java:367-376 | a search tree holds no key twice: its node count is the size of its key set |
| Engine.Text | src/main/java/lights/digital/masterclass/tree/twonode/AbstractBinaryTree.java:282-298 | a null selector fails; INORDER renders the inorder keys; PREORDER and POSTORDER put the root before or after the two inorder walks; the empty tree renders as "" |
| Engine.InorderTextAscending | src/main/java/lights/digital/masterclass/tree/twonode/AbstractBinaryTree.java:308-318 | on a search tree, INORDER text renders the stored keys in strictly ascending order |
| Engine.OneNodeTextInEveryMode | src/test/java/lights/digital/masterclass/tree/twonode/AbstractBinaryTreeTest.java:181-201 | a one-node tree renders as its key and a space in all three modes |
| Engine.InsertLeafKeepsOrder | src/main/java/lights/digital/masterclass/tree/balanced/redblack/RedBlackTree.java:74-103 | attaching a leaf at the end of the descent keeps search order, changes nothing for a present key, and adds one node otherwise |
| Plain.SafeInsert | src/main/java/lights/digital/masterclass/tree/twonode/binary/BinaryTree.java:44-58 | the key set grows by exactly the value, search order is kept, and a present key leaves the tree unchanged |
| Plain.MergeBinaryTrees | src/main/java/lights/digital/masterclass/tree/twonode/binary/BinaryTree.java:19-34 | the merge holds the union of both key sets, and an empty side returns the other side |
| Plain.MergeKeepsOrder | src/main/java/lights/digital/masterclass/tree/twonode/binary/BinaryTree.java:19-34 | merging two search trees gives a search tree; with disjoint keys, its node count is the sum of theirs |
| Plain.SafeErase | src/main/java/lights/digital/masterclass/tree/twonode/binary/BinaryTree.java:68-84 | a removal happens only for a stored key; no removal leaves the tree unchanged; no key is added |
| Plain.SafeEraseRemovesKey | src/main/java/lights/digital/masterclass/tree/twonode/binary/BinaryTree.java:68-84 | on a search tree, a node is removed exactly when the key is present; exactly that key leaves; order is kept; the count drops by one |
| Plain.BinaryTree.constructor | src/main/java/lights/digital/masterclass/tree/twonode/binary/BinaryTree.java:86-88 | the new tree is empty with size 0 |
| Plain.BinaryTree.WithRoot | src/main/java/lights/digital/masterclass/tree/twonode/binary/BinaryTree.java:90-93 | the new tree is one BLACK node with size 1 |
| Plain.BinaryTree.Insert | src/main/java/lights/digital/masterclass/tree/twonode/binary/BinaryTree.java:95-109 | a null value fails and changes nothing; otherwise the key set grows by the value and size grows by one, even for a duplicate, which leaves the tree unchanged |
| Plain.BinaryTree.Erase | src/main/java/lights/digital/masterclass/tree/twonode/binary/BinaryTree.java:111-128 | a null key fails and changes nothing; otherwise the root becomes the tree safeErase rebuilds (the erased node replaced by the merge of its children), so a present key is removed and size drops by one, and an absent key changes nothing |
| Plain.BinaryTree.Clear | src/main/java/lights/digital/masterclass/tree/twonode/AbstractBinaryTree.java:148-153 | no root and size 0 |
| Plain.BinaryTree.Empty | src/main/java/lights/digital/masterclass/tree/twonode/AbstractBinaryTree.java:156-158 | true exactly when the tree holds no key |
| Plain.BinaryTree.Size | src/main/java/lights/digital/masterclass/tree/twonode/AbstractBinaryTree.java:161-163 | size is at least the node count, and equals it exactly when no duplicate was inserted |
| Plain.BinaryTree.Contains | src/main/java/lights/digital/masterclass/tree/twonode/AbstractBinaryTree.java:434-438 | a null key fails; otherwise the answer is membership in the key set |
| Plain.BinaryTree.GetAllElements | src/main/java/lights/digital/masterclass/tree/twonode/AbstractBinaryTree.java:424-430 | one entry per node, listing exactly the stored keys |
| Plain.FixtureIsBuiltByInserts | src/test/java/lights/digital/masterclass/tree/twonode/AbstractBinaryTreeTest.java:22-29 | inserting 9, 8, 7, 13, 11 and 19 below the root 10 builds the seven-node fixture |
| Plain.FixtureCountAndHeight | src/test/java/lights/digital/masterclass/tree/twonode/AbstractBinaryTreeTest.java:133-157 | the fixture has seven nodes and height 4 |
| Plain.FixtureInorderText | src/test/java/lights/digital/masterclass/tree/twonode/AbstractBinaryTreeTest.java:204-211 | INORDER text of the fixture is "7 8 9 10 11 13 19 " |
| Plain.FixturePreorderText | src/test/java/lights/digital/masterclass/tree/twonode/AbstractBinaryTreeTest.java:214-221 | PREORDER text of the fixture is "10 7 8 9 11 13 19 " |
| Plain.FixturePostorderText | src/test/java/lights/digital/masterclass/tree/twonode/AbstractBinaryTreeTest.java:224-231 | POSTORDER text of the fixture is "7 8 9 11 13 19 10 " |
| Plain.FixtureIsBST | src/test/java/lights/digital/masterclass/tree/twonode/binary/BinaryTreeTest.java:23-31 | the fixture is a search tree holding exactly its seven keys |
| Plain.FixtureErasures | src/test/java/lights/digital/masterclass/tree/twonode/binary/BinaryTreeTest.java:141-183 | erasing 10 leaves {9,8,7,13,11,19}; erasing 13 leaves {10,9,8,7,11,19}, six nodes |
| Plain.FixtureEraseOnObject | src/test/java/lights/digital/masterclass/tree/twonode/binary/BinaryTreeTest.java:167-183 | on the object built by BinaryTree(10) and the six inserts, erase(13) leaves size() at 6 and the keys {10,9,8,7,11,19} |
| Balance.RotateRightKeepsInorder | src/main/java/lights/digital/masterclass/tree/balanced/redblack/RedBlackTree.java:35-50 | a right rotation keeps the inorder key sequence |
| Balance.RotateLeftKeepsInorder | src/main/java/lights/digital/masterclass/tree/balanced/redblack/RedBlackTree.java:52-65 | a left rotation keeps the inorder key sequence |
| Balance.FixupKeepsInorder | src/main/java/lights/digital/masterclass/tree/balanced/redblack/RedBlackTree.java:113-183 | the repair changes no key and no key order along the whole path |
| Balance.FixupRestoresColors | src/main/java/lights/digital/masterclass/tree/balanced/redblack/RedBlackTree.java:113-183 | from a tree whose only fault is a RED node below a RED parent, the repair gives a BLACK root, no RED-RED edge and equal black height |
| Balance.DescendPlacesLeaf | src/main/java/lights/digital/masterclass/tree/balanced/redblack/RedBlackTree.java:74-103 | the descent stops at the key exactly when contains finds it; otherwise, plugging a leaf into the path it returns keeps search order and adds the key |
| Balance.RbInsertKeepsRedBlack | src/main/java/lights/digital/masterclass/tree/balanced/redblack/RedBlackTree.java:67-183 | insertion into a red-black tree gives a red-black tree, adds exactly the key, leaves the tree unchanged for a present key, and adds one node otherwise |
| Balance.HeightTwiceBlackHeight | src/test/java/lights/digital/masterclass/tree/balanced/redblack/RedBlackTreeTest.java:93-103 | with no two REDs in a row, the height is at most twice the black height, plus one for a RED root |
| Balance.BlackHeightCount | src/test/java/lights/digital/masterclass/tree/balanced/redblack/RedBlackTreeTest.java:93-103 | a tree with black height b holds at least 2^b - 1 nodes |
| Balance.RedBlackHeightBound | src/test/java/lights/digital/masterclass/tree/balanced/redblack/RedBlackTreeTest.java:93-103 | a red-black tree of n nodes has height at most 2 log2(n + 1) |
| RedBlack.RedBlackTree.constructor | src/main/java/lights/digital/masterclass/tree/balanced/redblack/RedBlackTree.java:204-206 | the new tree is empty with size 0 |
| RedBlack.RedBlackTree.WithRoot | src/main/java/lights/digital/masterclass/tree/balanced/redblack/RedBlackTree.java:208-217 | the new tree is one BLACK root with size 1 |
| RedBlack.RedBlackTree.Create | src/main/java/lights/digital/masterclass/tree/balanced/redblack/RedBlackTree.java:208-217 | a null initial value fails with IllegalArgument; any other gives a valid one-node BLACK tree of size 1 |
| RedBlack.RedBlackTree.ReplaceParentsChild | src/main/java/lights/digital/masterclass/tree/balanced/redblack/RedBlackTree.java:14-33 | a null parent makes the new child the root; otherwise the parent's left, else right, reference to the old child is redirected; a parent holding neither fails with NodeNotChildOfItsParent and changes nothing; the new child's parent reference is set |
| RedBlack.RedBlackTree.RightRotation | src/main/java/lights/digital/masterclass/tree/balanced/redblack/RedBlackTree.java:35-50 | the left child takes the node's place with every parent reference consistent; the node tree becomes the rotated one in the same surroundings; no exception occurs |
| RedBlack.RedBlackTree.LeftRotation | src/main/java/lights/digital/masterclass/tree/balanced/redblack/RedBlackTree.java:52-65 | the mirror image of RightRotation |
| RedBlack.RedBlackTree.GetUncle | src/main/java/lights/digital/masterclass/tree/balanced/redblack/RedBlackTree.java:185-194 | the uncle is the other child of the grandparent; a parent that is neither child of its own parent fails with NodeNotChildOfItsParent |
| RedBlack.RedBlackTree.UncleIsSibling | src/main/java/lights/digital/masterclass/tree/balanced/redblack/RedBlackTree.java:185-194 | in a wellformed tree, a node with a grandparent always gets its parent's sibling as uncle |
| RedBlack.RedBlackTree.BalancingTreeAfterInsertion | src/main/java/lights/digital/masterclass/tree/balanced/redblack/RedBlackTree.java:113-183 | the node tree afterwards is the repair of the old tree along the node's path, and the parent references stay consistent |
| RedBlack.RedBlackTree.RestructureLeft | src/main/java/lights/digital/masterclass/tree/balanced/redblack/RedBlackTree.java:149-165 | for a RED parent that is the grandparent's left child, with a non-RED uncle, the rotations and recolouring give the repaired tree |
| RedBlack.RedBlackTree.RestructureRight | src/main/java/lights/digital/masterclass/tree/balanced/redblack/RedBlackTree.java:166-182 | the mirror image of RestructureLeft |
| RedBlack.RedBlackTree.AttachLeaf | src/main/java/lights/digital/masterclass/tree/balanced/redblack/RedBlackTree.java:90-103 | a new RED node holding the key becomes the left child of the last node if smaller, else its right child, with its parent set; nothing else changes |
| RedBlack.RedBlackTree.SafeInsert | src/main/java/lights/digital/masterclass/tree/balanced/redblack/RedBlackTree.java:67-108 | the node tree becomes the value-level insertion of the key; the result is null exactly when the key is present, and then nothing changes |
| RedBlack.RedBlackTree.Insert | src/main/java/lights/digital/masterclass/tree/balanced/redblack/RedBlackTree.java:219-236 | a null value fails and changes nothing; otherwise the tree stays red-black, gains exactly the value, and size grows by one even for a duplicate, which leaves the tree unchanged |
| RedBlack.RedBlackTree.Clear | src/main/java/lights/digital/masterclass/tree/twonode/AbstractBinaryTree.java:148-153 | no root and size 0 |
| RedBlack.RedBlackTree.Empty | src/main/java/lights/digital/masterclass/tree/twonode/AbstractBinaryTree.java:156-158 | true exactly when there is no node |
| RedBlack.RedBlackTree.Size | src/main/java/lights/digital/masterclass/tree/twonode/AbstractBinaryTree.java:161-163 | size is at least the node count, and equals it exactly when no duplicate was inserted |
| RedBlack.RedBlackTree.SafeContainsKeyAt | src/main/java/lights/digital/masterclass/tree/twonode/AbstractBinaryTree.java:403-415 | the descent over the node objects answers what the descent over the node tree answers |
| RedBlack.RedBlackTree.Contains | src/main/java/lights/digital/masterclass/tree/twonode/AbstractBinaryTree.java:434-438 | a null key fails with IllegalArgument; otherwise the answer is membership in the key set |
| RedBlack.RedBlackTree.HeightAt | src/main/java/lights/digital/masterclass/tree/twonode/AbstractBinaryTree.java:381-393 | the walk over the node objects computes the height of the node tree |
| RedBlack.RedBlackTree.TreeHeight | src/main/java/lights/digital/masterclass/tree/twonode/AbstractBinaryTree.java:419-421 | height 0 exactly when empty; height between log2(n + 1) and n, and at most 2 log2(n + 1) |
| RedBlack.RedBlackTree.ElementsAt | src/main/java/lights/digital/masterclass/tree/twonode/AbstractBinaryTree.java:367-376 | the walk over the node objects exports the preorder keys of the node tree |
| RedBlack.RedBlackTree.GetAllElements | src/main/java/lights/digital/masterclass/tree/twonode/AbstractBinaryTree.java:424-430 | the keys in root-left-right order (exactly `Elements` of the node tree), hence one entry per node, a permutation of the inorder keys, listing exactly the stored keys |
| Scenarios.NotPerfectlyBalanced | src/test/java/lights/digital/masterclass/tree/balanced/redblack/RedBlackTreeTest.java:78-104 | inserting 10, 9, 15, 13, 12, 19 gives a red-black tree of height 4 with six nodes |
| Scenarios.OuterGrandchildBalanced | src/test/java/lights/digital/masterclass/tree/balanced/redblack/RedBlackTreeTest.java:118-153 | inserting 17, 9, 19, 71, 171 gives height 3 and elements exactly {9,17,19,71,171} |
| Scenarios.RbFixtureShape | src/test/java/lights/digital/masterclass/tree/balanced/redblack/RedBlackTreeTest.java:18-28 | the fixture built from 10 by inserting 9, 8, 7, 13, 11, 19 is the stated tree of seven nodes and height 4 |
| Scenarios.Insert12KeepsFixtureHeight | src/test/java/lights/digital/masterclass/tree/balanced/redblack/RedBlackTreeTest.java:157-166 | inserting 12 into the fixture keeps its height, and 12 is found afterwards |
| Scenarios.DuplicateLeavesFixture | src/test/java/lights/digital/masterclass/tree/balanced/redblack/RedBlackTreeTest.java:58-76 | inserting 7, already present, leaves the fixture unchanged |

## Left out

- `prettyPrint` and `PrintableNode.getText` (src/main/java/lights/digital/masterclass/tree/twonode/AbstractBinaryTree.java:141-144, src/main/java/lights/digital/masterclass/tree/twonode/AbstractBinaryTree.java:165-279): console rendering with floating-point layout.
- The log4j logger calls: a diagnostic side channel with no effect on state.
- `RedBlackTree.safeErase` and `RedBlackTree.erase` (src/main/java/lights/digital/masterclass/tree/balanced/redblack/RedBlackTree.java:196-198, src/main/java/lights/digital/masterclass/tree/balanced/redblack/RedBlackTree.java:238-257): `safeErase` is an empty stub and `erase` only decrements `size`. There is no deletion algorithm to model.
- `TreeFactory` and `TreeType`: a tag dispatcher with no algorithmic content. Its `BTree` target is not part of this model.
- `text` on a `RedBlackTree`: it is the inherited engine function, stated on the node tree through `Engine.Text`. The arena walk for it is not written out.
- The `StringBuilder` and `ArrayList` accumulators of the traversals and of `safeGetAllElements` are modelled as returned strings and sequences. Their in-place appends are not modelled.
- `size` is an unbounded integer. Java's 32-bit overflow after 2^31 inserts is not modelled.
- `BinaryTree(initialRootValue)` does not check for null (src/main/java/lights/digital/masterclass/tree/twonode/binary/BinaryTree.java:90-93). A null-keyed root is not modelled: keys are integers.
- Plain.BinaryTree.Insert: `safeInsert` relinks the nodes in place. The unbalanced tree has no parent references or sharing, so the model rebuilds it as a value.
- RedBlack.RedBlackTree.Clear: the node records stay in the arena, unreachable from the root. This stands for Java's garbage collection.
- RedBlack.RedBlackTree.SafeInsert: the `parent == null` branch (src/main/java/lights/digital/masterclass/tree/balanced/redblack/RedBlackTree.java:96-97) cannot be reached after `insert` has created the root, so the method requires a non-empty tree.
