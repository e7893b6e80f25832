/**
  The unbalanced binary search tree (BinaryTree). Its nodes never carry a
  parent link and are never shared, so the recursive insert, merge and erase
  are functions on the node tree; the tree object itself holds the `root` and
  the `size` counter that `insert` and `erase` update.
*/
module Plain {
  import opened Common
  import opened Engine

  // ---------------------------------------------------------------------------
  // safeInsert

  /** Recursive insertion; the new node has the default colour BLACK and a
      key already present leaves the tree as it was. */
  function SafeInsert(t: Tree, value: int): (r: Tree)
    ensures Keys(r) == Keys(t) + {value}
    ensures r.Node?
    ensures IsBST(t) ==> IsBST(r)
    ensures IsBST(t) && value in Keys(t) ==> r == t
  {
    if IsBST(t) then
      InsertLeafKeepsOrder(t, value, Black);
      InsertLeaf(t, value, Black)
    else
      InsertLeaf(t, value, Black)
  }

  // ---------------------------------------------------------------------------
  // mergeBinaryTrees

  /** Re-inserts every key of the right tree, root first, then its left and
      then its right subtree, into the left tree. Either side being empty
      returns the other. */
  function MergeBinaryTrees(leftSubtree: Tree, rightSubtree: Tree): (m: Tree)
    ensures Keys(m) == Keys(leftSubtree) + Keys(rightSubtree)
    ensures leftSubtree.Nil? ==> m == rightSubtree
    ensures rightSubtree.Nil? ==> m == leftSubtree
    ensures leftSubtree.Node? ==> m.Node?
    decreases rightSubtree
  {
    if leftSubtree.Nil? then rightSubtree
    else if rightSubtree.Nil? then leftSubtree
    else
      var withRoot := SafeInsert(leftSubtree, rightSubtree.data);
      var withLeft := MergeBinaryTrees(withRoot, rightSubtree.left);
      MergeBinaryTrees(withLeft, rightSubtree.right)
  }

  /** Merging two BSTs gives a BST; when their keys are disjoint (as for the
      two children of a BST node) no node is lost or duplicated. */
  lemma {:induction false} MergeKeepsOrder(l: Tree, r: Tree)
    requires IsBST(l) && IsBST(r)
    ensures IsBST(MergeBinaryTrees(l, r))
    ensures Keys(l) !! Keys(r) ==> Count(MergeBinaryTrees(l, r)) == Count(l) + Count(r)
    decreases r
  {
    if l.Node? && r.Node? {
      var withRoot := SafeInsert(l, r.data);
      MergeKeepsOrder(withRoot, r.left);
      var withLeft := MergeBinaryTrees(withRoot, r.left);
      MergeKeepsOrder(withLeft, r.right);
    }
    var m := MergeBinaryTrees(l, r);
    if Keys(l) !! Keys(r) {
      BstCountIsKeyCount(l);
      BstCountIsKeyCount(r);
      BstCountIsKeyCount(m);
      assert |Keys(l) + Keys(r)| == |Keys(l)| + |Keys(r)|;
    }
  }

  // ---------------------------------------------------------------------------
  // safeErase

  /** The rebuilt subtree, and whether a node was removed (the source
      decrements `size` at that moment). */
  datatype Erased = Erased(tree: Tree, removed: bool)

  /** Finds the key by BST descent and replaces its subtree by the merge of
      that node's two children. */
  function SafeErase(t: Tree, key: int): (e: Erased)
    ensures e.removed ==> key in Keys(t)
    ensures !e.removed ==> e.tree == t
    ensures Keys(e.tree) <= Keys(t)
  {
    match t
    case Nil => Erased(Nil, false)
    case Node(c, l, k, r) =>
      if k == key then Erased(MergeBinaryTrees(l, r), true)
      else if k > key then
        var e := SafeErase(l, key);
        Erased(Node(c, e.tree, k, r), e.removed)
      else
        var e := SafeErase(r, key);
        Erased(Node(c, l, k, e.tree), e.removed)
  }

  /** On a BST, erase removes a node exactly when the key is present, removes
      exactly that key and keeps BST ordering. */
  lemma {:induction false} SafeEraseRemovesKey(t: Tree, key: int)
    requires IsBST(t)
    ensures SafeErase(t, key).removed <==> key in Keys(t)
    ensures Keys(SafeErase(t, key).tree) == Keys(t) - {key}
    ensures IsBST(SafeErase(t, key).tree)
    ensures Count(SafeErase(t, key).tree) == if key in Keys(t) then Count(t) - 1 else Count(t)
  {
    match t
    case Nil =>
    case Node(c, l, k, r) =>
      var e := SafeErase(t, key);
      if k == key {
        MergeKeepsOrder(l, r);
        assert Keys(l) !! Keys(r) by {
          forall x | x in Keys(l) ensures x !in Keys(r) {}
        }
        assert key !in Keys(l) && key !in Keys(r);
      } else if k > key {
        SafeEraseRemovesKey(l, key);
        assert key !in Keys(r);
      } else {
        SafeEraseRemovesKey(r, key);
        assert key !in Keys(l);
      }
  }

  // ---------------------------------------------------------------------------
  // The tree object

  class BinaryTree {
    var root: Tree
    var size: int
    /** How many `insert` calls met a key already present: each of them still
        incremented `size`, so `size` exceeds the node count by this much. */
    ghost var surplus: nat

    ghost predicate Valid()
      reads this
    {
      IsBST(root) && size == Count(root) + surplus
    }

    /** BinaryTree(): the empty tree. */
    constructor ()
      ensures Valid() && root == Nil && size == 0 && surplus == 0
    {
      root, size, surplus := Nil, 0, 0;
    }

    /** BinaryTree(initialRootValue): a single BLACK node, size 1. */
    constructor WithRoot(initialRootValue: int)
      ensures Valid() && root == Node(Black, Nil, initialRootValue, Nil) && size == 1 && surplus == 0
    {
      root := Node(Black, Nil, initialRootValue, Nil);
      size := 1;
      surplus := 0;
    }

    /** insert: a null value fails with nothing changed; otherwise the key set
        grows by the value and `size` grows by one, even for a duplicate. */
    method Insert(value: Option<int>) returns (r: Outcome)
      requires Valid()
      modifies this
      ensures Valid()
      ensures r.Fail? <==> value.None?
      ensures r.Fail? ==> r.error == IllegalArgument && root == old(root) && size == old(size)
      ensures value.Some? ==>
                root == SafeInsert(old(root), value.value) &&
                Keys(root) == old(Keys(root)) + {value.value} &&
                size == old(size) + 1
      ensures value.Some? && value.value in old(Keys(root)) ==>
                root == old(root) && surplus == old(surplus) + 1
      ensures value.Some? && value.value !in old(Keys(root)) ==>
                Count(root) == old(Count(root)) + 1 && surplus == old(surplus)
    {
      r := ValidateArgument(value);
      if r.Fail? {
        return;
      }
      var v := value.value;
      InsertLeafKeepsOrder(root, v, Black);
      if v in Keys(root) {
        surplus := surplus + 1;
      }
      root := SafeInsert(root, v);
      size := size + 1;
    }

    /** erase: a null key fails with nothing changed; otherwise the root
        becomes the tree `safeErase` rebuilds, so a present key is removed,
        its node replaced by the merge of its children, and `size` drops by
        one; an absent key changes nothing. */
    method Erase(key: Option<int>) returns (r: Outcome)
      requires Valid()
      modifies this
      ensures Valid() && surplus == old(surplus)
      ensures r.Fail? <==> key.None?
      ensures r.Fail? ==> r.error == IllegalArgument && root == old(root) && size == old(size)
      ensures key.Some? ==> root == SafeErase(old(root), key.value).tree
      ensures key.Some? && key.value in old(Keys(root)) ==>
                Keys(root) == old(Keys(root)) - {key.value} && size == old(size) - 1
      ensures key.Some? && key.value !in old(Keys(root)) ==>
                root == old(root) && size == old(size)
    {
      r := ValidateArgument(key);
      if r.Fail? {
        return;
      }
      SafeEraseRemovesKey(root, key.value);
      var e := SafeErase(root, key.value);
      root := e.tree;
      if e.removed {
        size := size - 1;
      }
    }

    /** clear: drops every node and resets `size`. */
    method Clear()
      modifies this
      ensures Valid() && root == Nil && size == 0 && surplus == 0
    {
      size := 0;
      root := Nil;
      surplus := 0;
    }

    /** empty: true exactly when there is no root. */
    function Empty(): (b: bool)
      reads this
      ensures b <==> Keys(root) == {}
    {
      if root.Nil? then true else assert root.data in Keys(root); false
    }

    /** size: the counter, which equals the node count until a duplicate
        has been inserted. */
    function Size(): (n: int)
      reads this
      requires Valid()
      ensures n >= Count(root)
      ensures n == Count(root) <==> surplus == 0
    {
      size
    }

    function Contains(key: Option<int>): (r: Result<bool>)
      reads this
      requires Valid()
      ensures r.Failure? <==> key.None?
      ensures key.Some? ==> r == Success(key.value in Keys(root))
    {
      Engine.Contains(root, key)
    }

    function GetAllElements(): (elements: seq<int>)
      reads this
      ensures |elements| == Count(root)
      ensures forall x :: x in elements <==> x in Keys(root)
    {
      ElementsAreTheKeys(root);
      Elements(root)
    }
  }

  // ---------------------------------------------------------------------------
  // The fixture of the test suite: root 10, then 9, 8, 7, 13, 11, 19

  /** The tree the seven insertions build: 9, 8, 7 form a left spine below
      10, and 13 has children 11 and 19. */
  function Fixture(): Tree
  {
    Node(Black, Node(Black, Node(Black, Node(Black, Nil, 7, Nil), 8, Nil), 9, Nil), 10,
         Node(Black, Node(Black, Nil, 11, Nil), 13, Node(Black, Nil, 19, Nil)))
  }

  /** Below a root with no left child, the unbalanced insert of a key
      smaller than the root puts it there as a new BLACK leaf, and
      symmetrically on the right. */
  lemma InsertStep(t: Tree, v: int)
    requires t.Node? && IsBST(t) && v != t.data
    ensures v < t.data ==> SafeInsert(t, v) == Node(t.color, InsertLeaf(t.left, v, Black), t.data, t.right)
    ensures v > t.data ==> SafeInsert(t, v) == Node(t.color, t.left, t.data, InsertLeaf(t.right, v, Black))
  {
  }

  /** Inserting 9, 8, 7, 13, 11, 19 below the root 10 builds the fixture. */
  lemma FixtureIsBuiltByInserts()
    ensures SafeInsert(SafeInsert(SafeInsert(SafeInsert(SafeInsert(SafeInsert(
              Node(Black, Nil, 10, Nil), 9), 8), 7), 13), 11), 19) == Fixture()
  {
    var t0 := Node(Black, Nil, 10, Nil);
    var t1 := SafeInsert(t0, 9);
    InsertStep(t0, 9);
    var t2 := SafeInsert(t1, 8);
    InsertStep(t1, 8);
    var t3 := SafeInsert(t2, 7);
    InsertStep(t2, 7);
    var t4 := SafeInsert(t3, 13);
    InsertStep(t3, 13);
    var t5 := SafeInsert(t4, 11);
    InsertStep(t4, 11);
    var t6 := SafeInsert(t5, 19);
    InsertStep(t5, 19);
  }

  /** The decimal renderings of the fixture's keys. */
  lemma ShowFixtureKeys()
    ensures Show(7) == "7" && Show(8) == "8" && Show(9) == "9"
    ensures Show(10) == "10" && Show(11) == "11" && Show(13) == "13" && Show(19) == "19"
  {
    assert ShowNat(10) == ShowNat(1) + [DigitChar(0)];
    assert ShowNat(11) == ShowNat(1) + [DigitChar(1)];
    assert ShowNat(13) == ShowNat(1) + [DigitChar(3)];
    assert ShowNat(19) == ShowNat(1) + [DigitChar(9)];
  }

  /** The inorder walks of the fixture's two subtrees. */
  lemma FixtureSubtreeTexts()
    ensures InorderText(Fixture().left) == "7 8 9 "
    ensures InorderText(Fixture().right) == "11 13 19 "
  {
    ShowFixtureKeys();
    var t := Fixture();
    assert InorderText(t.left.left) == "7 " + "8 ";
    assert InorderText(t.right.left) == "11 ";
    assert InorderText(t.right.right) == "19 ";
  }

  /** The fixture holds seven nodes on four levels. */
  lemma FixtureCountAndHeight()
    ensures Count(Fixture()) == 7 && Height(Fixture()) == 4
  {
  }

  /** INORDER lists the fixture's keys ascending. */
  lemma FixtureInorderText()
    ensures Text(Fixture(), Some(Inorder)) == Success("7 8 9 10 11 13 19 ")
  {
    FixtureSubtreeTexts();
    ShowFixtureKeys();
    var t := Fixture();
    assert InorderText(t) == "7 8 9 " + "10" + " " + "11 13 19 ";
    assert "7 8 9 " + "10" + " " + "11 13 19 " == "7 8 9 10 11 13 19 ";
    assert Text(t, Some(Inorder)) == Success(InorderText(t));
  }

  /** PREORDER puts the root 10 before the two inorder walks. */
  lemma FixturePreorderText()
    ensures Text(Fixture(), Some(Preorder)) == Success("10 7 8 9 11 13 19 ")
  {
    FixtureSubtreeTexts();
    ShowFixtureKeys();
    var t := Fixture();
    assert PreorderText(t) == "10" + " " + "7 8 9 " + "11 13 19 ";
    assert "10" + " " + "7 8 9 " + "11 13 19 " == "10 7 8 9 11 13 19 ";
    assert Text(t, Some(Preorder)) == Success(PreorderText(t));
  }

  /** POSTORDER puts the root 10 after the two inorder walks. */
  lemma FixturePostorderText()
    ensures Text(Fixture(), Some(Postorder)) == Success("7 8 9 11 13 19 10 ")
  {
    FixtureSubtreeTexts();
    ShowFixtureKeys();
    var t := Fixture();
    assert PostorderText(t) == "7 8 9 " + "11 13 19 " + "10" + " ";
    assert "7 8 9 " + "11 13 19 " + "10" + " " == "7 8 9 11 13 19 10 ";
    assert Text(t, Some(Postorder)) == Success(PostorderText(t));
  }

  lemma FixtureIsBST()
    ensures IsBST(Fixture())
    ensures Keys(Fixture()) == {10, 9, 8, 7, 13, 11, 19}
    ensures Count(Fixture()) == 7
  {
    var t := Fixture();
    assert Keys(t.left) == {7, 8, 9};
    assert Keys(t.right) == {11, 13, 19};
    assert IsBST(t.left.left);
  }

  /** Erasing the root 10, or the inner key 13, removes exactly that key. */
  lemma FixtureErasures()
    ensures SafeErase(Fixture(), 10).removed
    ensures Keys(SafeErase(Fixture(), 10).tree) == {9, 8, 7, 13, 11, 19}
    ensures SafeErase(Fixture(), 13).removed
    ensures Keys(SafeErase(Fixture(), 13).tree) == {10, 9, 8, 7, 11, 19}
    ensures Count(SafeErase(Fixture(), 13).tree) == 6
  {
    FixtureIsBST();
    var t := Fixture();
    SafeEraseRemovesKey(t, 10);
    SafeEraseRemovesKey(t, 13);
    assert {10, 9, 8, 7, 13, 11, 19} - {10} == {9, 8, 7, 13, 11, 19};
    assert {10, 9, 8, 7, 13, 11, 19} - {13} == {10, 9, 8, 7, 11, 19};
  }

  /** The erase test on the object itself: `BinaryTree(10)`, the six fresh
      inserts, then `erase(13)` leave `size()` at 6 and the keys
      10, 9, 8, 7, 11 and 19, with the merged tree `safeErase` builds. */
  method FixtureEraseOnObject() returns (n: int, keys: set<int>)
    ensures n == 6 && keys == {10, 9, 8, 7, 11, 19}
  {
    var tree := new BinaryTree.WithRoot(10);
    var r := tree.Insert(Some(9));
    r := tree.Insert(Some(8));
    r := tree.Insert(Some(7));
    r := tree.Insert(Some(13));
    r := tree.Insert(Some(11));
    r := tree.Insert(Some(19));
    FixtureIsBuiltByInserts();
    assert tree.root == Fixture() && tree.size == 7 && tree.surplus == 0;
    r := tree.Erase(Some(13));
    FixtureErasures();
    assert tree.root == SafeErase(Fixture(), 13).tree;
    n := tree.Size();
    keys := Keys(tree.root);
  }
}
