/**
  RedBlackTree: the balanced variant. Its nodes are objects that the insertion
  relinks and recolours in place, so the tree object is modelled as a class
  over an arena of node records (see module Arena). Every method is proved
  against the pure description of the same algorithm in module Balance: the
  node tree the arena holds afterwards is the one `Fixup` and `RbInsert`
  compute, and those are proved to keep the red-black invariants.
*/
module RedBlack {
  import opened Common
  import opened Engine
  import opened Balance
  import opened Arena

  class RedBlackTree {
    /** The node objects; a reference is an index into this sequence. */
    var nodes: seq<NodeRec>
    var root: int
    var size: int
    /** Which records form the tree, and how. */
    ghost var shape: Shape
    /** How many `insert` calls met a key already present: each of them still
        incremented `size`. */
    ghost var surplus: nat

    /** The references spell out `shape`, rooted at `root`. */
    ghost predicate Wellformed()
      reads this
    {
      root == Ref(shape) && Linked(nodes, shape, NIL) && Distinct(shape)
    }

    /** The node tree the object holds. */
    ghost function Model(): Tree
      reads this
    {
      Abs(nodes, shape)
    }

    ghost predicate Valid()
      reads this
    {
      Wellformed() && IsRedBlack(Model()) && size == Count(Model()) + surplus
    }

    /** RedBlackTree(): the empty tree. */
    constructor ()
      ensures Valid() && root == NIL && size == 0 && surplus == 0 && Model() == Nil
    {
      nodes := [];
      root := NIL;
      size := 0;
      shape := Null;
      surplus := 0;
    }

    /** RedBlackTree(initialRootValue): a single BLACK root, size 1. */
    constructor WithRoot(initialRootValue: int)
      ensures Valid() && size == 1 && surplus == 0
      ensures Model() == Node(Black, Nil, initialRootValue, Nil)
    {
      size := 1;
      nodes := [NewNode(initialRootValue)];
      root := 0;
      shape := Link(Null, 0, Null);
      surplus := 0;
      new;
      nodes := nodes[root := nodes[root].(color := Black)];
      assert nodes[0] == NodeRec(initialRootValue, NIL, NIL, NIL, Black);
      assert Model() == Node(Black, Nil, initialRootValue, Nil);
      assert Count(Model()) == 1;
      assert Handles(Null) == {};
      assert IsRedBlack(Node(Black, Nil, initialRootValue, Nil));
    }

    /** The constructor with an initial root value, whose null argument is
        rejected with IllegalArgumentException. */
    static method Create(initialRootValue: Option<int>) returns (r: Result<RedBlackTree>)
      ensures r.Failure? <==> initialRootValue.None?
      ensures r.Failure? ==> r.error == IllegalArgument
      ensures r.Success? ==>
                fresh(r.value) && r.value.Valid() && r.value.size == 1 &&
                r.value.Model() == Node(Black, Nil, initialRootValue.value, Nil)
    {
      if initialRootValue.None? {
        return Failure(IllegalArgument);
      }
      var tree := new RedBlackTree.WithRoot(initialRootValue.value);
      r := Success(tree);
    }

    /** replaceParentsChild: a null parent makes `newChild` the root;
        otherwise the parent's left reference, or failing that its right
        one, that holds `oldChild` now holds `newChild`, and a parent that
        holds neither is an error that changes nothing. The new child's
        parent reference is then set. */
    method ReplaceParentsChild(parent: int, oldChild: int, newChild: int) returns (r: Outcome)
      requires parent == NIL || 0 <= parent < |nodes|
      requires newChild == NIL || 0 <= newChild < |nodes|
      modifies this
      ensures r.Fail? <==>
                parent != NIL && old(nodes)[parent].leftChild != oldChild &&
                old(nodes)[parent].rightChild != oldChild
      ensures r.Fail? ==> r.error == NodeNotChildOfItsParent && nodes == old(nodes) && root == old(root)
      ensures r.Pass? ==>
                nodes == SetParent(Redirect(old(nodes), parent, oldChild, newChild), newChild, parent) &&
                root == (if parent == NIL then newChild else old(root))
      ensures size == old(size) && shape == old(shape) && surplus == old(surplus)
    {
      if parent == NIL {
        root := newChild;
      } else if nodes[parent].leftChild == oldChild {
        nodes := nodes[parent := nodes[parent].(leftChild := newChild)];
      } else if nodes[parent].rightChild == oldChild {
        nodes := nodes[parent := nodes[parent].(rightChild := newChild)];
      } else {
        return Fail(NodeNotChildOfItsParent);
      }
      if newChild != NIL {
        nodes := nodes[newChild := nodes[newChild].(parent := parent)];
      }
      r := Pass;
    }

    /** rightRotation at a node with a left child: the left child takes its
        place. Only references change; the node tree becomes the rotated one
        in the same surroundings, and no exception is thrown. */
    method RightRotation(currentNode: int, ghost sctx: seq<SFrame>, ghost sub: Shape) returns (r: Outcome)
      requires Wellformed() && shape == SPlug(sctx, sub)
      requires sub.Link? && sub.at == currentNode && sub.left.Link?
      modifies this
      ensures r == Pass
      ensures Wellformed() && shape == SPlug(sctx, RotateRightShape(sub))
      ensures SameLabels(old(nodes), nodes)
      ensures Abs(nodes, RotateRightShape(sub)) == RotateRight(Abs(old(nodes), sub))
      ensures Model() == Plug(AbsCtx(old(nodes), sctx), RotateRight(Abs(old(nodes), sub)))
      ensures size == old(size) && surplus == old(surplus)
    {
      ghost var n0 := nodes;
      RightRotationArena(nodes, sctx, sub);
      var parent := nodes[currentNode].parent;
      var leftSubtree := nodes[currentNode].leftChild;
      nodes := nodes[currentNode := nodes[currentNode].(leftChild := nodes[leftSubtree].rightChild)];
      if nodes[leftSubtree].rightChild != NIL {
        nodes := nodes[nodes[leftSubtree].rightChild := nodes[nodes[leftSubtree].rightChild].(parent := currentNode)];
      }
      nodes := nodes[leftSubtree := nodes[leftSubtree].(rightChild := currentNode)];
      nodes := nodes[currentNode := nodes[currentNode].(parent := leftSubtree)];
      assert nodes == RightRelinked(n0, currentNode);
      r := ReplaceParentsChild(parent, currentNode, leftSubtree);
      shape := SPlug(sctx, RotateRightShape(sub));
      RefPlug(sctx, sub);
      RefPlug(sctx, RotateRightShape(sub));
      SameLabelsAbs(n0, nodes, RotateRightShape(sub), sctx);
      AbsPlug(nodes, sctx, RotateRightShape(sub));
    }

    /** leftRotation at a node with a right child: the right child takes its
        place. */
    method LeftRotation(currentNode: int, ghost sctx: seq<SFrame>, ghost sub: Shape) returns (r: Outcome)
      requires Wellformed() && shape == SPlug(sctx, sub)
      requires sub.Link? && sub.at == currentNode && sub.right.Link?
      modifies this
      ensures r == Pass
      ensures Wellformed() && shape == SPlug(sctx, RotateLeftShape(sub))
      ensures SameLabels(old(nodes), nodes)
      ensures Abs(nodes, RotateLeftShape(sub)) == RotateLeft(Abs(old(nodes), sub))
      ensures Model() == Plug(AbsCtx(old(nodes), sctx), RotateLeft(Abs(old(nodes), sub)))
      ensures size == old(size) && surplus == old(surplus)
    {
      ghost var n0 := nodes;
      LeftRotationArena(nodes, sctx, sub);
      var parent := nodes[currentNode].parent;
      var rightSubtree := nodes[currentNode].rightChild;
      nodes := nodes[currentNode := nodes[currentNode].(rightChild := nodes[rightSubtree].leftChild)];
      if nodes[rightSubtree].leftChild != NIL {
        nodes := nodes[nodes[rightSubtree].leftChild := nodes[nodes[rightSubtree].leftChild].(parent := currentNode)];
      }
      nodes := nodes[rightSubtree := nodes[rightSubtree].(leftChild := currentNode)];
      nodes := nodes[currentNode := nodes[currentNode].(parent := rightSubtree)];
      assert nodes == LeftRelinked(n0, currentNode);
      r := ReplaceParentsChild(parent, currentNode, rightSubtree);
      shape := SPlug(sctx, RotateLeftShape(sub));
      RefPlug(sctx, sub);
      RefPlug(sctx, RotateLeftShape(sub));
      SameLabelsAbs(n0, nodes, RotateLeftShape(sub), sctx);
      AbsPlug(nodes, sctx, RotateLeftShape(sub));
    }

    /** getUncle: the other child of the parent's parent, or an error when
        the parent is neither child of its own parent. */
    function GetUncle(parent: int): (r: Result<int>)
      reads this
      requires 0 <= parent < |nodes| && 0 <= nodes[parent].parent < |nodes|
      ensures r.Failure? <==>
                nodes[nodes[parent].parent].leftChild != parent &&
                nodes[nodes[parent].parent].rightChild != parent
      ensures r.Failure? ==> r.error == NodeNotChildOfItsParent
      ensures r.Success? ==>
                {r.value, parent} ==
                {nodes[nodes[parent].parent].leftChild, nodes[nodes[parent].parent].rightChild}
    {
      var grandparent := nodes[parent].parent;
      if nodes[grandparent].leftChild == parent then Success(nodes[grandparent].rightChild)
      else if nodes[grandparent].rightChild == parent then Success(nodes[grandparent].leftChild)
      else Failure(NodeNotChildOfItsParent)
    }

    /** In a wellformed tree the uncle of a node with a grandparent is
        found, and it is the sibling of the node's parent. */
    lemma UncleIsSibling(sctx: seq<SFrame>, sub: Shape)
      requires Wellformed() && shape == SPlug(sctx, sub) && |sctx| >= 2 && sub.Link?
      ensures sctx[0].at < |nodes| && nodes[sctx[0].at].parent == sctx[1].at && sctx[1].at < |nodes|
      ensures GetUncle(sctx[0].at) == Success(Ref(SSibling(sctx[1])))
      ensures Abs(nodes, SSibling(sctx[1])) == Sibling(AbsCtx(nodes, sctx)[1])
    {
      SPlugUnfold(sctx, sub);
      PositionFacts(nodes, sctx[1..], SPlugOne(sctx[0], sub));
      ParentSide(nodes, sctx[1..], SPlugOne(sctx[0], sub));
    }

    /** What the fixup reads off the references around a node: its parent
        and grandparent, the side each hangs on, and the uncle. */
    lemma FixupFacts(sctx: seq<SFrame>, sub: Shape)
      requires Wellformed() && shape == SPlug(sctx, sub) && sub.Link?
      ensures sub.at < |nodes| && nodes[sub.at].parent == ParentRef(sctx)
      ensures sctx == [] ==> shape == sub
      ensures sctx != [] ==>
        sctx[0].at < |nodes| && nodes[sctx[0].at].parent == ParentRef(sctx[1..]) &&
        (nodes[sctx[0].at].rightChild == sub.at <==> sctx[0].SHoleRight?) &&
        (nodes[sctx[0].at].leftChild == sub.at <==> sctx[0].SHoleLeft?) &&
        shape == SPlug(sctx[1..], SPlugOne(sctx[0], sub))
      ensures |sctx| == 1 ==> shape == SPlugOne(sctx[0], sub)
      ensures |sctx| >= 2 ==>
        sctx[1].at < |nodes| && sctx[1..][0] == sctx[1] && sctx[1..][1..] == sctx[2..] &&
        (nodes[sctx[1].at].leftChild == sctx[0].at <==> sctx[1].SHoleLeft?) &&
        GetUncle(sctx[0].at) == Success(Ref(SSibling(sctx[1]))) &&
        (SSibling(sctx[1]).Link? ==> SSibling(sctx[1]).at < |nodes|) &&
        shape == SPlug(sctx[2..], SPlugOne(sctx[1], SPlugOne(sctx[0], sub)))
    {
      PositionFacts(nodes, sctx, sub);
      if sctx != [] {
        SPlugUnfold(sctx, sub);
        ParentSide(nodes, sctx, sub);
        PositionFacts(nodes, sctx[1..], SPlugOne(sctx[0], sub));
      }
      if |sctx| >= 2 {
        UncleIsSibling(sctx, sub);
        ParentSide(nodes, sctx[1..], SPlugOne(sctx[0], sub));
        assert SSibling(sctx[1]).Link? ==> SSibling(sctx[1]).at in CtxHandles(sctx);
      }
    }

    /** balancingTreeAfterInsertion: the RED node `node` may sit below a
        RED parent; recolouring and rotations on the way up repair that.
        The node tree afterwards is the one the pure `Fixup` computes from
        the node's subtree and its surroundings. */
    method BalancingTreeAfterInsertion(node: int, ghost sctx: seq<SFrame>, ghost sub: Shape)
      requires Wellformed() && shape == SPlug(sctx, sub) && sub.Link? && sub.at == node
      modifies this
      ensures Wellformed()
      ensures Model() == Fixup(AbsCtx(old(nodes), sctx), Abs(old(nodes), sub))
      ensures |nodes| == |old(nodes)| && size == old(size) && surplus == old(surplus)
      decreases |sctx|
    {
      ghost var n0 := nodes;
      ghost var ctx, t := AbsCtx(nodes, sctx), Abs(nodes, sub);
      FixupFacts(sctx, sub);
      var parent := nodes[node].parent;
      if parent == NIL {
        // the node is the root
        nodes := nodes[node := nodes[node].(color := Black)];
        assert Wellformed() && Model() == t.(color := Black) by {
          RecolorFrame(n0, node, Black, [], sub);
        }
        return;
      }
      ghost var P := SPlugOne(sctx[0], sub);
      if nodes[parent].color == Black {
        AbsPlug(nodes, sctx, sub);
        return;
      }
      var grandparent := nodes[parent].parent;
      if grandparent == NIL {
        // the parent is the root
        nodes := nodes[parent := nodes[parent].(color := Black)];
        assert Wellformed() && Model() == PlugOne(ctx[0].(color := Black), t) by {
          RecolorFrame(n0, parent, Black, [], P);
          AbsPlugOne(n0, sctx[0], sub);
        }
        return;
      }
      var uncle := GetUncle(parent).value;
      ghost var G := SPlugOne(sctx[1], P);
      if uncle != NIL && nodes[uncle].color == Red {
        nodes := nodes[parent := nodes[parent].(color := Black)];
        nodes := nodes[grandparent := nodes[grandparent].(color := Red)];
        nodes := nodes[uncle := nodes[uncle].(color := Black)];
        UncleRecolored(n0, sctx, sub);
        BalancingTreeAfterInsertion(grandparent, sctx[2..], G);
      } else if parent == nodes[grandparent].leftChild {
        RestructureLeft(node, parent, grandparent, sctx, sub);
      } else {
        RestructureRight(node, parent, grandparent, sctx, sub);
      }
    }

    /** Cases 4a and 5a of balancingTreeAfterInsertion: a RED parent that is
        the left child of the grandparent, and a BLACK uncle. An inner child
        is first rotated into the parent's place; a right rotation at the
        grandparent follows, and the new top turns BLACK and the old
        grandparent RED. */
    method RestructureLeft(node: int, parent: int, grandparent: int, ghost sctx: seq<SFrame>, ghost sub: Shape)
      requires Wellformed() && shape == SPlug(sctx, sub) && sub.Link? && sub.at == node
      requires |sctx| >= 2 && parent == sctx[0].at && grandparent == sctx[1].at && sctx[1].SHoleLeft?
      requires At(nodes, parent).color == Red && !IsRed(Abs(nodes, SSibling(sctx[1])))
      modifies this
      ensures Wellformed()
      ensures Model() == Fixup(AbsCtx(old(nodes), sctx), Abs(old(nodes), sub))
      ensures |nodes| == |old(nodes)| && size == old(size) && surplus == old(surplus)
    {
      ghost var n0 := nodes;
      ghost var ctx, t := AbsCtx(nodes, sctx), Abs(nodes, sub);
      FixupFacts(sctx, sub);
      ghost var P := SPlugOne(sctx[0], sub);
      ghost var G := SPlugOne(sctx[1], P);
      ghost var parent' := PlugOne(ctx[0], t);
      assert Abs(n0, G) == PlugOne(ctx[1], parent') by {
        AbsPlugOne(n0, sctx[0], sub);
        AbsPlugOne(n0, sctx[1], P);
      }
      var top := parent;
      if node == nodes[parent].rightChild {
        var rotated := LeftRotation(parent, sctx[1..], P);
        G := SPlugOne(sctx[1], RotateLeftShape(P));
        parent' := RotateLeft(parent');
        assert Abs(nodes, G) == PlugOne(ctx[1], parent') by {
          AbsPlugOne(n0, sctx[0], sub);
          AbsPlugOne(nodes, sctx[1], RotateLeftShape(P));
          SameLabelsAbs(n0, nodes, P, sctx);
        }
        SPlugUnfold(sctx[1..], RotateLeftShape(P));
        top := node;
      }
      ghost var n2 := nodes;
      var rotated := RightRotation(grandparent, sctx[2..], G);
      ghost var n5 := nodes;
      RecolorTopRight(nodes, sctx[2..], RotateRightShape(G));
      nodes := nodes[top := nodes[top].(color := Black)];
      nodes := nodes[grandparent := nodes[grandparent].(color := Red)];
      assert AbsCtx(nodes, sctx[2..]) == ctx[2..] by {
        SameLabelsAbs(n0, n2, Null, sctx[2..]);
        SameLabelsAbs(n2, n5, Null, sctx[2..]);
        AbsCtxSuffix(n0, sctx, 2);
      }
      AbsPlug(nodes, sctx[2..], RotateRightShape(G));
    }

    /** Cases 4b and 5b, the mirror image: the parent is the right child of
        the grandparent. */
    method RestructureRight(node: int, parent: int, grandparent: int, ghost sctx: seq<SFrame>, ghost sub: Shape)
      requires Wellformed() && shape == SPlug(sctx, sub) && sub.Link? && sub.at == node
      requires |sctx| >= 2 && parent == sctx[0].at && grandparent == sctx[1].at && sctx[1].SHoleRight?
      requires At(nodes, parent).color == Red && !IsRed(Abs(nodes, SSibling(sctx[1])))
      modifies this
      ensures Wellformed()
      ensures Model() == Fixup(AbsCtx(old(nodes), sctx), Abs(old(nodes), sub))
      ensures |nodes| == |old(nodes)| && size == old(size) && surplus == old(surplus)
    {
      ghost var n0 := nodes;
      ghost var ctx, t := AbsCtx(nodes, sctx), Abs(nodes, sub);
      FixupFacts(sctx, sub);
      ghost var P := SPlugOne(sctx[0], sub);
      ghost var G := SPlugOne(sctx[1], P);
      ghost var parent' := PlugOne(ctx[0], t);
      assert Abs(n0, G) == PlugOne(ctx[1], parent') by {
        AbsPlugOne(n0, sctx[0], sub);
        AbsPlugOne(n0, sctx[1], P);
      }
      var top := parent;
      if node == nodes[parent].leftChild {
        var rotated := RightRotation(parent, sctx[1..], P);
        G := SPlugOne(sctx[1], RotateRightShape(P));
        parent' := RotateRight(parent');
        assert Abs(nodes, G) == PlugOne(ctx[1], parent') by {
          AbsPlugOne(n0, sctx[0], sub);
          AbsPlugOne(nodes, sctx[1], RotateRightShape(P));
          SameLabelsAbs(n0, nodes, P, sctx);
        }
        SPlugUnfold(sctx[1..], RotateRightShape(P));
        top := node;
      }
      ghost var n2 := nodes;
      var rotated := LeftRotation(grandparent, sctx[2..], G);
      ghost var n5 := nodes;
      RecolorTopLeft(nodes, sctx[2..], RotateLeftShape(G));
      nodes := nodes[top := nodes[top].(color := Black)];
      nodes := nodes[grandparent := nodes[grandparent].(color := Red)];
      assert AbsCtx(nodes, sctx[2..]) == ctx[2..] by {
        SameLabelsAbs(n0, n2, Null, sctx[2..]);
        SameLabelsAbs(n2, n5, Null, sctx[2..]);
        AbsCtxSuffix(n0, sctx, 2);
      }
      AbsPlug(nodes, sctx[2..], RotateLeftShape(G));
    }

    /** The second half of safeInsert: a new RED node holding `key` becomes
        the left child of `parent` when `key` is smaller than its key and the
        right child otherwise, and its parent reference is `parent`. Nothing
        else in the arena changes. */
    method AttachLeaf(parent: int, key: int, ghost sctx: seq<SFrame>) returns (newNode: int)
      requires Linked(nodes, shape, NIL) && Distinct(shape)
      requires sctx != [] && shape == SPlug(sctx, Null) && parent == sctx[0].at
      requires sctx[0].SHoleLeft? <==> key < At(nodes, parent).data
      modifies this
      ensures newNode == |old(nodes)| && |nodes| == |old(nodes)| + 1 && 0 <= parent < |old(nodes)|
      ensures nodes[newNode] == NodeRec(key, NIL, NIL, parent, Red)
      ensures key < old(nodes)[parent].data ==> nodes[parent] == old(nodes)[parent].(leftChild := newNode)
      ensures key >= old(nodes)[parent].data ==> nodes[parent] == old(nodes)[parent].(rightChild := newNode)
      ensures forall h | 0 <= h < |old(nodes)| && h != parent :: nodes[h] == old(nodes)[h]
      ensures shape == SPlug(sctx, Link(Null, newNode, Null))
      ensures Linked(nodes, shape, NIL) && Distinct(shape)
      ensures AbsCtx(nodes, sctx) == AbsCtx(old(nodes), sctx)
      ensures Abs(nodes, Link(Null, newNode, Null)) == Node(Red, Nil, key, Nil)
      ensures root == old(root) && size == old(size) && surplus == old(surplus)
    {
      ghost var n0 := nodes;
      PositionFacts(nodes, sctx, Null);
      newNode := |nodes|;
      nodes := nodes + [NewNode(key)];
      nodes := nodes[newNode := nodes[newNode].(color := Red)];
      if key < nodes[parent].data {
        nodes := nodes[parent := nodes[parent].(leftChild := newNode)];
      } else {
        nodes := nodes[parent := nodes[parent].(rightChild := newNode)];
      }
      nodes := nodes[newNode := nodes[newNode].(parent := parent)];
      LeafRelinks(n0, nodes, sctx, key);
      shape := SPlug(sctx, Link(Null, newNode, Null));
    }

    /** safeInsert from the root: a descent that meets the key returns null
        and changes nothing; otherwise a RED node with the key hangs in the
        empty slot the descent ends at, the fixup runs, and the node's parent
        is returned. The node tree afterwards is `RbInsert` of the one before. */
    method SafeInsert(currentNode: int, key: int) returns (r: int)
      requires Wellformed() && currentNode == root && root != NIL
      modifies this
      ensures Wellformed()
      ensures Model() == RbInsert(old(Model()), key)
      ensures r == NIL <==> SafeContainsKey(old(Model()), key)
      ensures r == NIL ==> nodes == old(nodes) && shape == old(shape) && root == old(root)
      ensures r != NIL ==> |nodes| == |old(nodes)| + 1 && r < |old(nodes)|
      ensures size == old(size) && surplus == old(surplus)
    {
      ghost var n0 := nodes;
      ghost var t0 := Model();
      DescendPlacesLeaf(t0, key, [], Red);
      var parent := NIL;
      var cur := currentNode;
      ghost var sctx: seq<SFrame> := [];
      ghost var sub := shape;
      while cur != NIL
        invariant nodes == n0 && shape == old(shape) && root == old(root) && Wellformed()
        invariant size == old(size) && surplus == old(surplus)
        invariant shape == SPlug(sctx, sub) && cur == Ref(sub) && parent == ParentRef(sctx)
        invariant Descend(t0, key, []) == Descend(Abs(nodes, sub), key, AbsCtx(nodes, sctx))
        invariant sctx != [] ==> (sctx[0].SHoleLeft? <==> key < At(nodes, sctx[0].at).data)
        decreases sub
      {
        PositionFacts(nodes, sctx, sub);
        parent := cur;
        ghost var above := sctx;
        if key < nodes[cur].data {
          cur := nodes[cur].leftChild;
          sctx := [SHoleLeft(sub.at, sub.right)] + sctx;
          sub := sub.left;
        } else if key > nodes[cur].data {
          cur := nodes[cur].rightChild;
          sctx := [SHoleRight(sub.left, sub.at)] + sctx;
          sub := sub.right;
        } else {
          return NIL;
        }
        assert sctx[1..] == above;
      }
      // the descent ends at an empty slot below `parent`; the root is not
      // null, so the source's `parent == null` branch cannot be taken
      assert sctx != [];
      var newNode := AttachLeaf(parent, key, sctx);
      ghost var leaf := Link(Null, newNode, Null);
      RefPlug(sctx, Null);
      RefPlug(sctx, leaf);
      BalancingTreeAfterInsertion(newNode, sctx, leaf);
      r := parent;
    }

    /** insert: a null value fails with nothing changed. An empty tree first
        gets a root holding the value, which the following safeInsert then
        meets as present. The node tree becomes `RbInsert` of the old one,
        so it stays a red-black tree holding the value, and `size` grows by
        one even for a duplicate. */
    method Insert(value: Option<int>) returns (r: Outcome)
      requires Valid()
      modifies this
      ensures Valid()
      ensures r.Fail? <==> value.None?
      ensures r.Fail? ==> r.error == IllegalArgument && nodes == old(nodes) && root == old(root) && size == old(size)
      ensures r.Fail? ==> shape == old(shape)
      ensures value.Some? ==>
                Model() == RbInsert(old(Model()), value.value) &&
                Keys(Model()) == old(Keys(Model())) + {value.value} &&
                size == old(size) + 1
      ensures value.Some? && value.value in old(Keys(Model())) ==>
                Model() == old(Model()) && surplus == old(surplus) + 1
      ensures value.Some? && value.value !in old(Keys(Model())) ==>
                Count(Model()) == old(Count(Model())) + 1 && surplus == old(surplus)
    {
      r := ValidateArgument(value);
      if r.Fail? {
        return;
      }
      var key := value.value;
      ghost var t0 := Model();
      RbInsertKeepsRedBlack(t0, key);
      if key in Keys(t0) {
        surplus := surplus + 1;
      }
      if root == NIL {
        nodes := nodes + [NewNode(key)];
        root := |nodes| - 1;
        shape := Link(Null, root, Null);
        assert Model() == Node(Black, Nil, key, Nil);
      }
      var parent := SafeInsert(root, key);
      size := size + 1;
    }

    /** clear: no root and a zero size; the node objects are dropped. */
    method Clear()
      modifies this
      ensures Valid() && root == NIL && size == 0 && surplus == 0 && Model() == Nil
    {
      size := 0;
      root := NIL;
      shape := Null;
      surplus := 0;
    }

    /** empty: true exactly when there is no root. */
    function Empty(): (b: bool)
      reads this
      requires Wellformed()
      ensures b <==> Model() == Nil
    {
      root == NIL
    }

    // -------------------------------------------------------------------------
    // The queries inherited from the shared engine, walking the node objects

    /** safeContainsKey: the key-directed descent from `current`. */
    method SafeContainsKeyAt(current: int, key: int, ghost s: Shape, ghost p: int) returns (found: bool)
      requires Linked(nodes, s, p) && current == Ref(s)
      ensures found == SafeContainsKey(Abs(nodes, s), key)
      decreases s
    {
      if current == NIL {
        return false;
      }
      if key == nodes[current].data {
        found := true;
      } else if nodes[current].data > key {
        found := SafeContainsKeyAt(nodes[current].leftChild, key, s.left, current);
      } else {
        found := SafeContainsKeyAt(nodes[current].rightChild, key, s.right, current);
      }
    }

    /** contains: a null key is refused; otherwise the answer is membership
        in the key set, the tree being a search tree. */
    method Contains(key: Option<int>) returns (r: Result<bool>)
      requires Valid()
      ensures r.Failure? <==> key.None?
      ensures r.Failure? ==> r.error == IllegalArgument
      ensures key.Some? ==> r == Success(key.value in Keys(Model()))
    {
      if key.None? {
        return Failure(IllegalArgument);
      }
      var found := SafeContainsKeyAt(root, key.value, shape, NIL);
      ContainsIsMembership(Model(), key.value);
      r := Success(found);
    }

    /** The height helper: the longer of the two child heights, plus one. */
    method HeightAt(current: int, ghost s: Shape, ghost p: int) returns (h: nat)
      requires Linked(nodes, s, p) && current == Ref(s)
      ensures h == Height(Abs(nodes, s))
      decreases s
    {
      if current == NIL {
        return 0;
      }
      var leftHeight := HeightAt(nodes[current].leftChild, s.left, current);
      var rightHeight := HeightAt(nodes[current].rightChild, s.right, current);
      if leftHeight > rightHeight {
        h := leftHeight + 1;
      } else {
        h := rightHeight + 1;
      }
    }

    /** height: zero exactly for the empty tree, never above the node count,
        and a Red-Black tree of n nodes is at most 2 log2(n + 1) high. */
    method TreeHeight() returns (h: nat)
      requires Valid()
      ensures h == Height(Model())
      ensures h == 0 <==> Model() == Nil
      ensures h <= Count(Model()) < Pow2(h)
      ensures Pow2(h) <= (Count(Model()) + 1) * (Count(Model()) + 1)
    {
      h := HeightAt(root, shape, NIL);
      HeightBounds(Model());
      RedBlackHeightBound(Model());
    }

    /** safeGetAllElements: the node's key, then its left and right subtrees. */
    method ElementsAt(current: int, ghost s: Shape, ghost p: int) returns (elements: seq<int>)
      requires Linked(nodes, s, p) && current == Ref(s)
      ensures elements == Elements(Abs(nodes, s))
      decreases s
    {
      if current == NIL {
        return [];
      }
      var left := ElementsAt(nodes[current].leftChild, s.left, current);
      var right := ElementsAt(nodes[current].rightChild, s.right, current);
      elements := [nodes[current].data] + left + right;
    }

    /** getAllElements: the keys in root-left-right order, one entry per
        node, listing exactly the stored keys. */
    method GetAllElements() returns (elements: seq<int>)
      requires Valid()
      ensures elements == Elements(Model())
      ensures |elements| == Count(Model())
      ensures multiset(elements) == multiset(InorderKeys(Model()))
      ensures forall x :: x in elements <==> x in Keys(Model())
    {
      elements := ElementsAt(root, shape, NIL);
      ElementsAreTheKeys(Model());
    }

    /** size: the counter, which equals the node count until a duplicate
        has been inserted. */
    function Size(): (n: int)
      reads this
      requires Valid()
      ensures n >= Count(Model())
      ensures n == Count(Model()) <==> surplus == 0
    {
      size
    }
  }
}
