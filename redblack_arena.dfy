/**
  The node objects of RedBlackTree as an arena: every BinaryTreeNode is a
  record at an index of a sequence, and the references `leftChild`,
  `rightChild` and `parent` are indices, with NIL for null.

  A ghost `Shape` names the indices that form the tree and how they hang
  together. `Linked` says the references stored in the records spell out that
  shape, parent references included; `Abs` reads the node tree off the arena.
  A shape zipper (`SFrame`) mirrors the zipper of the pure fixup.
*/
module Arena {
  import opened Common
  import opened Engine
  import opened Balance

  /** The null reference. */
  const NIL: int := -1

  /** A BinaryTreeNode: its key, its two child references, its parent
      reference and its colour. */
  datatype NodeRec = NodeRec(data: int, leftChild: int, rightChild: int, parent: int, color: Color)

  /** `new BinaryTreeNode<>(key)`: no links and the default colour BLACK. */
  function NewNode(key: int): (n: NodeRec)
    ensures n.data == key && n.color == Black
    ensures n.leftChild == NIL && n.rightChild == NIL && n.parent == NIL
  {
    NodeRec(key, NIL, NIL, NIL, Black)
  }

  /** The record a reference denotes. A wellformed tree only ever follows
      references inside the arena; outside it a dummy record stands in. */
  function At(nodes: seq<NodeRec>, h: int): NodeRec
  {
    if 0 <= h < |nodes| then nodes[h] else NewNode(0)
  }

  /** Which arena indices form a tree, and how. */
  datatype Shape = Null | Link(left: Shape, at: nat, right: Shape)

  /** The reference to the root of a shape. */
  function Ref(s: Shape): int
  {
    if s.Null? then NIL else s.at
  }

  function Handles(s: Shape): set<nat>
  {
    match s
    case Null => {}
    case Link(l, a, r) => Handles(l) + {a} + Handles(r)
  }

  /** No index occurs twice in a shape: the nodes are not shared. */
  predicate Distinct(s: Shape)
  {
    match s
    case Null => true
    case Link(l, a, r) =>
      Distinct(l) && Distinct(r) && a !in Handles(l) && a !in Handles(r) && Handles(l) !! Handles(r)
  }

  /** The child and parent references stored in `nodes` spell out `s`, whose
      root's parent reference is `p`. */
  predicate Linked(nodes: seq<NodeRec>, s: Shape, p: int)
  {
    match s
    case Null => true
    case Link(l, a, r) =>
      a < |nodes| &&
      nodes[a].leftChild == Ref(l) && nodes[a].rightChild == Ref(r) && nodes[a].parent == p &&
      Linked(nodes, l, a) && Linked(nodes, r, a)
  }

  /** The node tree the arena holds along `s`. */
  function Abs(nodes: seq<NodeRec>, s: Shape): (t: Tree)
    ensures s.Link? <==> t.Node?
  {
    match s
    case Null => Nil
    case Link(l, a, r) => Node(At(nodes, a).color, Abs(nodes, l), At(nodes, a).data, Abs(nodes, r))
  }

  // ---------------------------------------------------------------------------
  // The shape zipper

  datatype SFrame = SHoleLeft(at: nat, right: Shape) | SHoleRight(left: Shape, at: nat)

  function SSibling(f: SFrame): Shape
  {
    if f.SHoleLeft? then f.right else f.left
  }

  function SPlugOne(f: SFrame, s: Shape): Shape
  {
    match f
    case SHoleLeft(a, r) => Link(s, a, r)
    case SHoleRight(l, a) => Link(l, a, s)
  }

  function SPlug(sctx: seq<SFrame>, s: Shape): Shape
    decreases |sctx|
  {
    if sctx == [] then s else SPlug(sctx[1..], SPlugOne(sctx[0], s))
  }

  /** The reference to the parent of the hole. */
  function ParentRef(sctx: seq<SFrame>): int
  {
    if sctx == [] then NIL else sctx[0].at
  }

  function CtxHandles(sctx: seq<SFrame>): set<nat>
    decreases |sctx|
  {
    if sctx == [] then {} else {sctx[0].at} + Handles(SSibling(sctx[0])) + CtxHandles(sctx[1..])
  }

  /** The references of the frames are in place, given that the hole holds
      the node `h`. */
  predicate LinkedCtx(nodes: seq<NodeRec>, sctx: seq<SFrame>, h: int)
    decreases |sctx|
  {
    sctx == [] ||
    (var a := sctx[0].at;
     a < |nodes| &&
     (if sctx[0].SHoleLeft?
      then nodes[a].leftChild == h && nodes[a].rightChild == Ref(SSibling(sctx[0]))
      else nodes[a].leftChild == Ref(SSibling(sctx[0])) && nodes[a].rightChild == h) &&
     nodes[a].parent == ParentRef(sctx[1..]) &&
     Linked(nodes, SSibling(sctx[0]), a) &&
     LinkedCtx(nodes, sctx[1..], a))
  }

  function AbsFrame(nodes: seq<NodeRec>, f: SFrame): (g: Frame)
    ensures g.color == At(nodes, f.at).color && g.data == At(nodes, f.at).data
    ensures g.HoleLeft? <==> f.SHoleLeft?
    ensures Sibling(g) == Abs(nodes, SSibling(f))
  {
    match f
    case SHoleLeft(a, r) => HoleLeft(At(nodes, a).color, At(nodes, a).data, Abs(nodes, r))
    case SHoleRight(l, a) => HoleRight(Abs(nodes, l), At(nodes, a).color, At(nodes, a).data)
  }

  function AbsCtx(nodes: seq<NodeRec>, sctx: seq<SFrame>): (ctx: seq<Frame>)
    ensures |ctx| == |sctx|
    ensures forall i | 0 <= i < |sctx| :: ctx[i] == AbsFrame(nodes, sctx[i])
    decreases |sctx|
  {
    if sctx == [] then [] else [AbsFrame(nodes, sctx[0])] + AbsCtx(nodes, sctx[1..])
  }

  // ---------------------------------------------------------------------------
  // Zipper lemmas

  lemma {:induction false} AbsCtxSuffix(nodes: seq<NodeRec>, sctx: seq<SFrame>, n: nat)
    requires n <= |sctx|
    ensures AbsCtx(nodes, sctx)[n..] == AbsCtx(nodes, sctx[n..])
  {
    var a, b := AbsCtx(nodes, sctx)[n..], AbsCtx(nodes, sctx[n..]);
    assert |a| == |b|;
    forall i | 0 <= i < |a| ensures a[i] == b[i] {
      assert sctx[n..][i] == sctx[n + i];
    }
  }

  lemma {:induction false} LinkedPlug(nodes: seq<NodeRec>, sctx: seq<SFrame>, s: Shape)
    ensures Linked(nodes, SPlug(sctx, s), NIL) <==>
              Linked(nodes, s, ParentRef(sctx)) && LinkedCtx(nodes, sctx, Ref(s))
    decreases |sctx|
  {
    if sctx != [] {
      LinkedPlug(nodes, sctx[1..], SPlugOne(sctx[0], s));
    }
  }

  lemma {:induction false} HandlesPlug(sctx: seq<SFrame>, s: Shape)
    ensures Handles(SPlug(sctx, s)) == Handles(s) + CtxHandles(sctx)
    decreases |sctx|
  {
    if sctx != [] {
      HandlesPlug(sctx[1..], SPlugOne(sctx[0], s));
    }
  }

  lemma {:induction false} RefPlug(sctx: seq<SFrame>, s: Shape)
    ensures sctx != [] ==> Ref(SPlug(sctx, s)) == sctx[|sctx| - 1].at
    ensures sctx == [] ==> SPlug(sctx, s) == s
    decreases |sctx|
  {
    if |sctx| > 1 {
      RefPlug(sctx[1..], SPlugOne(sctx[0], s));
      assert sctx[1..][|sctx| - 2] == sctx[|sctx| - 1];
    }
  }

  lemma {:induction false} AbsPlug(nodes: seq<NodeRec>, sctx: seq<SFrame>, s: Shape)
    ensures Abs(nodes, SPlug(sctx, s)) == Plug(AbsCtx(nodes, sctx), Abs(nodes, s))
    decreases |sctx|
  {
    if sctx != [] {
      AbsPlug(nodes, sctx[1..], SPlugOne(sctx[0], s));
      AbsCtxSuffix(nodes, sctx, 1);
    }
  }

  /** A subtree of a shape without shared nodes has none either, and shares
      no node with the frames above it. */
  lemma {:induction false} DistinctInner(sctx: seq<SFrame>, s: Shape)
    requires Distinct(SPlug(sctx, s))
    ensures Distinct(s) && Handles(s) !! CtxHandles(sctx)
    decreases |sctx|
  {
    if sctx != [] {
      DistinctInner(sctx[1..], SPlugOne(sctx[0], s));
    }
  }

  /** Replacing a subtree by one without shared nodes, none of them in the
      frames above, keeps the whole shape without shared nodes. */
  lemma {:induction false} DistinctReplace(sctx: seq<SFrame>, s: Shape, s': Shape)
    requires Distinct(SPlug(sctx, s)) && Distinct(s') && Handles(s') !! CtxHandles(sctx)
    ensures Distinct(SPlug(sctx, s'))
    decreases |sctx|
  {
    if sctx != [] {
      DistinctInner(sctx[1..], SPlugOne(sctx[0], s));
      DistinctReplace(sctx[1..], SPlugOne(sctx[0], s), SPlugOne(sctx[0], s'));
    }
  }

  lemma {:induction false} LinkedInArena(nodes: seq<NodeRec>, s: Shape, p: int)
    requires Linked(nodes, s, p)
    ensures forall h | h in Handles(s) :: h < |nodes|
  {
    match s
    case Null =>
    case Link(l, a, r) =>
      LinkedInArena(nodes, l, a);
      LinkedInArena(nodes, r, a);
  }

  lemma {:induction false} LinkedCtxInArena(nodes: seq<NodeRec>, sctx: seq<SFrame>, h: int)
    requires LinkedCtx(nodes, sctx, h)
    ensures forall x | x in CtxHandles(sctx) :: x < |nodes|
    decreases |sctx|
  {
    if sctx != [] {
      LinkedInArena(nodes, SSibling(sctx[0]), sctx[0].at);
      LinkedCtxInArena(nodes, sctx[1..], sctx[0].at);
    }
  }

  // ---------------------------------------------------------------------------
  // Frame lemmas: what an update of other records leaves intact

  predicate SameLinks(a: NodeRec, b: NodeRec)
  {
    a.leftChild == b.leftChild && a.rightChild == b.rightChild && a.parent == b.parent
  }

  /** The records at `hs` inside `nodes` keep their references in `nodes'`. */
  predicate LinksAgree(nodes: seq<NodeRec>, nodes': seq<NodeRec>, hs: set<nat>)
  {
    forall h | h in hs && h < |nodes| :: h < |nodes'| && SameLinks(nodes[h], nodes'[h])
  }

  /** The records at `hs` keep their keys and colours. */
  predicate LabelsAgree(nodes: seq<NodeRec>, nodes': seq<NodeRec>, hs: set<nat>)
  {
    forall h | h in hs :: At(nodes, h).data == At(nodes', h).data && At(nodes, h).color == At(nodes', h).color
  }

  lemma {:induction false} LinkedFrame(nodes: seq<NodeRec>, nodes': seq<NodeRec>, s: Shape, p: int)
    requires Linked(nodes, s, p) && LinksAgree(nodes, nodes', Handles(s))
    ensures Linked(nodes', s, p)
  {
    match s
    case Null =>
    case Link(l, a, r) =>
      LinkedFrame(nodes, nodes', l, a);
      LinkedFrame(nodes, nodes', r, a);
  }

  lemma {:induction false} LinkedCtxFrame(nodes: seq<NodeRec>, nodes': seq<NodeRec>, sctx: seq<SFrame>, h: int)
    requires LinkedCtx(nodes, sctx, h) && LinksAgree(nodes, nodes', CtxHandles(sctx))
    ensures LinkedCtx(nodes', sctx, h)
    decreases |sctx|
  {
    if sctx != [] {
      LinkedFrame(nodes, nodes', SSibling(sctx[0]), sctx[0].at);
      LinkedCtxFrame(nodes, nodes', sctx[1..], sctx[0].at);
    }
  }

  lemma {:induction false} AbsUnchanged(nodes: seq<NodeRec>, nodes': seq<NodeRec>, s: Shape)
    requires LabelsAgree(nodes, nodes', Handles(s))
    ensures Abs(nodes', s) == Abs(nodes, s)
  {
    match s
    case Null =>
    case Link(l, a, r) =>
      AbsUnchanged(nodes, nodes', l);
      AbsUnchanged(nodes, nodes', r);
  }

  lemma {:induction false} AbsCtxUnchanged(nodes: seq<NodeRec>, nodes': seq<NodeRec>, sctx: seq<SFrame>)
    requires LabelsAgree(nodes, nodes', CtxHandles(sctx))
    ensures AbsCtx(nodes', sctx) == AbsCtx(nodes, sctx)
    decreases |sctx|
  {
    if sctx != [] {
      AbsUnchanged(nodes, nodes', SSibling(sctx[0]));
      AbsCtxUnchanged(nodes, nodes', sctx[1..]);
    }
  }

  predicate SameLabels(nodes: seq<NodeRec>, nodes': seq<NodeRec>)
  {
    |nodes| == |nodes'| &&
    forall h | 0 <= h < |nodes| :: nodes[h].data == nodes'[h].data && nodes[h].color == nodes'[h].color
  }

  /** Relinking alone never changes the node tree read along a shape. */
  lemma SameLabelsAbs(nodes: seq<NodeRec>, nodes': seq<NodeRec>, s: Shape, sctx: seq<SFrame>)
    requires SameLabels(nodes, nodes')
    ensures Abs(nodes', s) == Abs(nodes, s)
    ensures AbsCtx(nodes', sctx) == AbsCtx(nodes, sctx)
  {
    AbsUnchanged(nodes, nodes', s);
    AbsCtxUnchanged(nodes, nodes', sctx);
  }

  // ---------------------------------------------------------------------------
  // Positions, rotations and relinking

  /** What the references say about a node at a position: its parent
      reference, and which child of its parent it is. */
  lemma PositionFacts(nodes: seq<NodeRec>, sctx: seq<SFrame>, sub: Shape)
    requires Linked(nodes, SPlug(sctx, sub), NIL) && Distinct(SPlug(sctx, sub))
    ensures Linked(nodes, sub, ParentRef(sctx)) && LinkedCtx(nodes, sctx, Ref(sub))
    ensures Distinct(sub) && Handles(sub) !! CtxHandles(sctx)
    ensures forall h | h in Handles(sub) :: h < |nodes|
    ensures forall h | h in CtxHandles(sctx) :: h < |nodes|
    ensures sctx != [] && sub.Link? ==>
              (sctx[0].SHoleLeft? ==> nodes[sctx[0].at].rightChild != sub.at) &&
              (sctx[0].SHoleRight? ==> nodes[sctx[0].at].leftChild != sub.at)
  {
    LinkedPlug(nodes, sctx, sub);
    DistinctInner(sctx, sub);
    LinkedInArena(nodes, sub, ParentRef(sctx));
    LinkedCtxInArena(nodes, sctx, Ref(sub));
    if sctx != [] && sub.Link? {
      DistinctInner(sctx[1..], SPlugOne(sctx[0], sub));
    }
  }

  /** The frames are linked around a new subtree root once the parent's
      reference on the hole's side is redirected to it and nothing else
      in the frames changed. */
  lemma {:induction false} RelinkCtx(n0: seq<NodeRec>, n1: seq<NodeRec>, sctx: seq<SFrame>, oldRef: int, newRef: int)
    requires LinkedCtx(n0, sctx, oldRef)
    requires sctx != [] ==>
      sctx[0].at < |n1| && sctx[0].at < |n0| &&
      n1[sctx[0].at] ==
        (if sctx[0].SHoleLeft? then n0[sctx[0].at].(leftChild := newRef)
         else n0[sctx[0].at].(rightChild := newRef)) &&
      LinksAgree(n0, n1, Handles(SSibling(sctx[0])) + CtxHandles(sctx[1..]))
    ensures LinkedCtx(n1, sctx, newRef)
  {
    if sctx != [] {
      LinkedFrame(n0, n1, SSibling(sctx[0]), sctx[0].at);
      LinkedCtxFrame(n0, n1, sctx[1..], sctx[0].at);
    }
  }

  /** rightRotation on shapes: the left child takes the node's place. */
  function RotateRightShape(s: Shape): (r: Shape)
    requires s.Link? && s.left.Link?
    ensures Handles(r) == Handles(s)
  {
    Link(s.left.left, s.left.at, Link(s.left.right, s.at, s.right))
  }

  /** leftRotation on shapes: the right child takes the node's place. */
  function RotateLeftShape(s: Shape): (r: Shape)
    requires s.Link? && s.right.Link?
    ensures Handles(r) == Handles(s)
  {
    Link(Link(s.left, s.at, s.right.left), s.right.at, s.right.right)
  }

  /** The parent's child reference that points at a node is the one on the
      hole's side, so Java's "left first" test picks that side. */
  lemma ParentSide(nodes: seq<NodeRec>, sctx: seq<SFrame>, sub: Shape)
    requires Linked(nodes, SPlug(sctx, sub), NIL) && Distinct(SPlug(sctx, sub))
    requires sctx != [] && sub.Link?
    ensures sctx[0].at < |nodes|
    ensures nodes[sctx[0].at].leftChild == sub.at <==> sctx[0].SHoleLeft?
    ensures nodes[sctx[0].at].rightChild == sub.at <==> sctx[0].SHoleRight?
  {
    PositionFacts(nodes, sctx, sub);
  }

  /** After the reference updates of rightRotation the nodes of the
      subtree spell out the rotated shape. */
  lemma RightRotationSubtree(n0: seq<NodeRec>, n1: seq<NodeRec>, sub: Shape, p: int)
    requires sub.Link? && sub.left.Link?
    requires Linked(n0, sub, p) && Distinct(sub)
    requires |n1| == |n0| && sub.at < |n0| && sub.left.at < |n0|
    requires n1[sub.at] == n0[sub.at].(leftChild := Ref(sub.left.right), parent := sub.left.at)
    requires n1[sub.left.at] == n0[sub.left.at].(rightChild := sub.at, parent := p)
    requires sub.left.right.Link? ==>
      sub.left.right.at < |n0| && n1[sub.left.right.at] == n0[sub.left.right.at].(parent := sub.at)
    requires LinksAgree(n0, n1, Handles(sub.left.left)) && LinksAgree(n0, n1, Handles(sub.right))
    requires sub.left.right.Link? ==>
      LinksAgree(n0, n1, Handles(sub.left.right.left)) && LinksAgree(n0, n1, Handles(sub.left.right.right))
    ensures Linked(n1, RotateRightShape(sub), p)
  {
    var b := sub.left.right;
    assert Linked(n0, sub.left, sub.at);
    assert Linked(n0, b, sub.left.at);
    LinkedFrame(n0, n1, sub.left.left, sub.left.at);
    LinkedFrame(n0, n1, sub.right, sub.at);
    if b.Link? {
      LinkedFrame(n0, n1, b.left, b.at);
      LinkedFrame(n0, n1, b.right, b.at);
    }
  }

  /** After the reference updates of leftRotation the nodes of the
      subtree spell out the rotated shape. */
  lemma LeftRotationSubtree(n0: seq<NodeRec>, n1: seq<NodeRec>, sub: Shape, p: int)
    requires sub.Link? && sub.right.Link?
    requires Linked(n0, sub, p) && Distinct(sub)
    requires |n1| == |n0| && sub.at < |n0| && sub.right.at < |n0|
    requires n1[sub.at] == n0[sub.at].(rightChild := Ref(sub.right.left), parent := sub.right.at)
    requires n1[sub.right.at] == n0[sub.right.at].(leftChild := sub.at, parent := p)
    requires sub.right.left.Link? ==>
      sub.right.left.at < |n0| && n1[sub.right.left.at] == n0[sub.right.left.at].(parent := sub.at)
    requires LinksAgree(n0, n1, Handles(sub.left)) && LinksAgree(n0, n1, Handles(sub.right.right))
    requires sub.right.left.Link? ==>
      LinksAgree(n0, n1, Handles(sub.right.left.left)) && LinksAgree(n0, n1, Handles(sub.right.left.right))
    ensures Linked(n1, RotateLeftShape(sub), p)
  {
    var b := sub.right.left;
    assert Linked(n0, sub.right, sub.at);
    assert Linked(n0, b, sub.right.at);
    LinkedFrame(n0, n1, sub.left, sub.at);
    LinkedFrame(n0, n1, sub.right.right, sub.right.at);
    if b.Link? {
      LinkedFrame(n0, n1, b.left, b.at);
      LinkedFrame(n0, n1, b.right, b.at);
    }
  }

  /** Once the subtree at a position is relinked into a new shape over the
      same nodes and the parent's reference on the hole's side is redirected
      to its new root, the whole arena spells out the new tree. */
  lemma ReplaceRelinks(n0: seq<NodeRec>, n1: seq<NodeRec>, sctx: seq<SFrame>, sub: Shape, sub': Shape)
    requires sub.Link? && sub'.Link?
    requires Linked(n0, SPlug(sctx, sub), NIL) && Distinct(SPlug(sctx, sub))
    requires Linked(n1, sub', ParentRef(sctx)) && Distinct(sub') && Handles(sub') == Handles(sub)
    requires sctx != [] ==>
      sctx[0].at < |n0| && sctx[0].at < |n1| &&
      n1[sctx[0].at] ==
        (if n0[sctx[0].at].leftChild == sub.at then n0[sctx[0].at].(leftChild := sub'.at)
         else n0[sctx[0].at].(rightChild := sub'.at))
    requires sctx != [] ==> LinksAgree(n0, n1, CtxHandles(sctx) - {sctx[0].at})
    ensures Linked(n1, SPlug(sctx, sub'), NIL) && Distinct(SPlug(sctx, sub'))
  {
    PositionFacts(n0, sctx, sub);
    if sctx != [] {
      ParentSide(n0, sctx, sub);
      DistinctInner(sctx[1..], SPlugOne(sctx[0], sub));
      assert Handles(SSibling(sctx[0])) + CtxHandles(sctx[1..]) <= CtxHandles(sctx) - {sctx[0].at};
    }
    RelinkCtx(n0, n1, sctx, sub.at, sub'.at);
    LinkedPlug(n1, sctx, sub');
    DistinctReplace(sctx, sub, sub');
  }

  /** A fresh record appended to the arena and hung into the empty slot at
      the end of a descent yields a tree with one more node there. */
  lemma LeafRelinks(n0: seq<NodeRec>, n1: seq<NodeRec>, sctx: seq<SFrame>, key: int)
    requires Linked(n0, SPlug(sctx, Null), NIL) && Distinct(SPlug(sctx, Null)) && sctx != []
    requires |n1| == |n0| + 1 && sctx[0].at < |n0|
    requires n1[|n0|] == NodeRec(key, NIL, NIL, sctx[0].at, Red)
    requires n1[sctx[0].at] ==
               (if sctx[0].SHoleLeft? then n0[sctx[0].at].(leftChild := |n0|)
                else n0[sctx[0].at].(rightChild := |n0|))
    requires forall h | 0 <= h < |n0| && h != sctx[0].at :: n1[h] == n0[h]
    ensures Linked(n1, SPlug(sctx, Link(Null, |n0|, Null)), NIL)
    ensures Distinct(SPlug(sctx, Link(Null, |n0|, Null)))
    ensures AbsCtx(n1, sctx) == AbsCtx(n0, sctx)
    ensures Abs(n1, Link(Null, |n0|, Null)) == Node(Red, Nil, key, Nil)
  {
    var leaf := Link(Null, |n0|, Null);
    PositionFacts(n0, sctx, Null);
    DistinctInner(sctx[1..], SPlugOne(sctx[0], Null));
    RelinkCtx(n0, n1, sctx, NIL, |n0|);
    LinkedPlug(n1, sctx, leaf);
    DistinctReplace(sctx, Null, leaf);
    AbsCtxUnchanged(n0, n1, sctx);
  }

  /** The arena after the child reference of `parent` that holds `oldChild`
      (the left one is tried first) is pointed at `newChild`; unchanged when
      `parent` is null. */
  function Redirect(nodes: seq<NodeRec>, parent: int, oldChild: int, newChild: int): seq<NodeRec>
    requires parent == NIL || 0 <= parent < |nodes|
  {
    if parent == NIL then nodes
    else if nodes[parent].leftChild == oldChild then nodes[parent := nodes[parent].(leftChild := newChild)]
    else nodes[parent := nodes[parent].(rightChild := newChild)]
  }

  /** The arena after the parent reference of `child` is set to `parent`;
      unchanged when `child` is null. */
  function SetParent(nodes: seq<NodeRec>, child: int, parent: int): seq<NodeRec>
    requires child == NIL || 0 <= child < |nodes|
  {
    if child == NIL then nodes else nodes[child := nodes[child].(parent := parent)]
  }

  /** The arena after the four reference updates with which rightRotation
      starts at `x`, before the parent is redirected. */
  function RightRelinked(nodes: seq<NodeRec>, x: nat): seq<NodeRec>
    requires x < |nodes| && 0 <= nodes[x].leftChild < |nodes| && nodes[x].leftChild != x
    requires nodes[nodes[x].leftChild].rightChild == NIL || 0 <= nodes[nodes[x].leftChild].rightChild < |nodes|
  {
    var l := nodes[x].leftChild;
    var n1 := nodes[x := nodes[x].(leftChild := nodes[l].rightChild)];
    var n2 := if n1[l].rightChild != NIL then n1[n1[l].rightChild := n1[n1[l].rightChild].(parent := x)] else n1;
    var n3 := n2[l := n2[l].(rightChild := x)];
    n3[x := n3[x].(parent := l)]
  }

  /** The mirror image: the start of leftRotation at `x`. */
  function LeftRelinked(nodes: seq<NodeRec>, x: nat): seq<NodeRec>
    requires x < |nodes| && 0 <= nodes[x].rightChild < |nodes| && nodes[x].rightChild != x
    requires nodes[nodes[x].rightChild].leftChild == NIL || 0 <= nodes[nodes[x].rightChild].leftChild < |nodes|
  {
    var r := nodes[x].rightChild;
    var n1 := nodes[x := nodes[x].(rightChild := nodes[r].leftChild)];
    var n2 := if n1[r].leftChild != NIL then n1[n1[r].leftChild := n1[n1[r].leftChild].(parent := x)] else n1;
    var n3 := n2[r := n2[r].(leftChild := x)];
    n3[x := n3[x].(parent := r)]
  }

  /** Record by record, the arena after rightRotation at `x` with left
      child `l`, inner grandchild `b` and parent `p`. */
  lemma RightRotationPointwise(n0: seq<NodeRec>, x: nat, l: nat, b: int, p: int)
    requires x < |n0| && l < |n0| && x != l && n0[x].leftChild == l && n0[l].rightChild == b
    requires b == NIL || (0 <= b < |n0| && b != x && b != l)
    requires p == NIL || (0 <= p < |n0| && p != x && p != l && p != b)
    ensures var n1 := SetParent(Redirect(RightRelinked(n0, x), p, x, l), l, p);
      |n1| == |n0| &&
      n1[x] == n0[x].(leftChild := b, parent := l) &&
      n1[l] == n0[l].(rightChild := x, parent := p) &&
      (b != NIL ==> n1[b] == n0[b].(parent := x)) &&
      (p != NIL ==> n1[p] == (if n0[p].leftChild == x then n0[p].(leftChild := l)
                              else n0[p].(rightChild := l))) &&
      (forall h | 0 <= h < |n0| && h != x && h != l && h != b && h != p :: n1[h] == n0[h])
  {
    var n4 := RightRelinked(n0, x);
    assert |n4| == |n0| && n4[x] == n0[x].(leftChild := b, parent := l);
    assert n4[l] == n0[l].(rightChild := x);
    assert b != NIL ==> n4[b] == n0[b].(parent := x);
    assert p != NIL ==> n4[p] == n0[p];
    assert forall h | 0 <= h < |n0| && h != x && h != l && h != b :: n4[h] == n0[h];
  }

  /** Record by record, the arena after leftRotation at `x`. */
  lemma LeftRotationPointwise(n0: seq<NodeRec>, x: nat, r: nat, b: int, p: int)
    requires x < |n0| && r < |n0| && x != r && n0[x].rightChild == r && n0[r].leftChild == b
    requires b == NIL || (0 <= b < |n0| && b != x && b != r)
    requires p == NIL || (0 <= p < |n0| && p != x && p != r && p != b)
    ensures var n1 := SetParent(Redirect(LeftRelinked(n0, x), p, x, r), r, p);
      |n1| == |n0| &&
      n1[x] == n0[x].(rightChild := b, parent := r) &&
      n1[r] == n0[r].(leftChild := x, parent := p) &&
      (b != NIL ==> n1[b] == n0[b].(parent := x)) &&
      (p != NIL ==> n1[p] == (if n0[p].leftChild == x then n0[p].(leftChild := r)
                              else n0[p].(rightChild := r))) &&
      (forall h | 0 <= h < |n0| && h != x && h != r && h != b && h != p :: n1[h] == n0[h])
  {
    var n4 := LeftRelinked(n0, x);
    assert |n4| == |n0| && n4[x] == n0[x].(rightChild := b, parent := r);
    assert n4[r] == n0[r].(leftChild := x);
    assert b != NIL ==> n4[b] == n0[b].(parent := x);
    assert p != NIL ==> n4[p] == n0[p];
    assert forall h | 0 <= h < |n0| && h != x && h != r && h != b :: n4[h] == n0[h];
  }

  /** Records other than the four a rotation touches keep their references. */
  lemma AgreeAway(n0: seq<NodeRec>, n1: seq<NodeRec>, hs: set<nat>, x: int, l: int, b: int, p: int)
    requires |n1| == |n0|
    requires forall h | 0 <= h < |n0| && h != x && h != l && h != b && h != p :: n1[h] == n0[h]
    requires forall h | h in hs :: h != x && h != l && h != b && h != p
    ensures LinksAgree(n0, n1, hs)
  {
  }

  /** The nodes a right rotation touches are four different ones, and no
      untouched subtree holds any of them. */
  lemma RightRotationDisjoint(sub: Shape, p: int)
    requires Distinct(sub) && sub.Link? && sub.left.Link? && p !in Handles(sub)
    ensures var x, l, b := sub.at, sub.left.at, Ref(sub.left.right);
      x != l && b != x && b != l && p != x && p != l && (b != NIL ==> p != b) &&
      (forall h | h in Handles(sub.left.left) :: h != x && h != l && h != b && h != p) &&
      (forall h | h in Handles(sub.right) :: h != x && h != l && h != b && h != p) &&
      (sub.left.right.Link? ==>
         (forall h | h in Handles(sub.left.right.left) :: h != x && h != l && h != b && h != p) &&
         (forall h | h in Handles(sub.left.right.right) :: h != x && h != l && h != b && h != p))
  {
    assert Distinct(sub.left);
    if sub.left.right.Link? {
      assert Distinct(sub.left.right);
    }
  }

  /** The nodes a left rotation touches are four different ones, and no
      untouched subtree holds any of them. */
  lemma LeftRotationDisjoint(sub: Shape, p: int)
    requires Distinct(sub) && sub.Link? && sub.right.Link? && p !in Handles(sub)
    ensures var x, r, b := sub.at, sub.right.at, Ref(sub.right.left);
      x != r && b != x && b != r && p != x && p != r && (b != NIL ==> p != b) &&
      (forall h | h in Handles(sub.left) :: h != x && h != r && h != b && h != p) &&
      (forall h | h in Handles(sub.right.right) :: h != x && h != r && h != b && h != p) &&
      (sub.right.left.Link? ==>
         (forall h | h in Handles(sub.right.left.left) :: h != x && h != r && h != b && h != p) &&
         (forall h | h in Handles(sub.right.left.right) :: h != x && h != r && h != b && h != p))
  {
    assert Distinct(sub.right);
    if sub.right.left.Link? {
      assert Distinct(sub.right.left);
    }
  }

  /** rightRotation inside the subtree at `sub` whose parent reference is
      `p`: the subtree spells out the rotated shape, the parent's child
      reference on that side is redirected, and no other record changes. */
  lemma RightRotationInSubtree(n0: seq<NodeRec>, sub: Shape, p: int)
    requires Linked(n0, sub, p) && Distinct(sub) && sub.Link? && sub.left.Link?
    requires p !in Handles(sub) && (p == NIL || 0 <= p < |n0|)
    ensures sub.at < |n0| && n0[sub.at].leftChild == sub.left.at && sub.left.at < |n0|
    ensures n0[sub.left.at].rightChild == Ref(sub.left.right) && Ref(sub.left.right) < |n0|
    ensures sub.left.at != sub.at
    ensures var n1 := SetParent(Redirect(RightRelinked(n0, sub.at), p, sub.at, sub.left.at), sub.left.at, p);
            |n1| == |n0| && Linked(n1, RotateRightShape(sub), p) && SameLabels(n0, n1) &&
            (p != NIL ==> n1[p] == (if n0[p].leftChild == sub.at then n0[p].(leftChild := sub.left.at)
                                    else n0[p].(rightChild := sub.left.at))) &&
            (forall h | 0 <= h < |n0| && h !in Handles(sub) && h != p :: n1[h] == n0[h])
  {
    var x, l, b := sub.at, sub.left.at, Ref(sub.left.right);
    assert Linked(n0, sub.left, x);
    if sub.left.right.Link? {
      assert Linked(n0, sub.left.right, l);
    }
    RightRotationDisjoint(sub, p);
    RightRotationPointwise(n0, x, l, b, p);
    var n1 := SetParent(Redirect(RightRelinked(n0, x), p, x, l), l, p);
    AgreeAway(n0, n1, Handles(sub.left.left), x, l, b, p);
    AgreeAway(n0, n1, Handles(sub.right), x, l, b, p);
    if sub.left.right.Link? {
      AgreeAway(n0, n1, Handles(sub.left.right.left), x, l, b, p);
      AgreeAway(n0, n1, Handles(sub.left.right.right), x, l, b, p);
    }
    RightRotationSubtree(n0, n1, sub, p);
  }

  /** rightRotation on the arena: the parent holds the rotated node as a
      child, so the redirect succeeds, and afterwards the arena spells out
      the rotated shape with every key and colour where it was. */
  lemma RightRotationArena(n0: seq<NodeRec>, sctx: seq<SFrame>, sub: Shape)
    requires Linked(n0, SPlug(sctx, sub), NIL) && Distinct(SPlug(sctx, sub))
    requires sub.Link? && sub.left.Link?
    ensures sub.at < |n0| && n0[sub.at].leftChild == sub.left.at && sub.left.at < |n0|
    ensures n0[sub.at].parent == ParentRef(sctx)
    ensures n0[sub.left.at].rightChild == Ref(sub.left.right) && Ref(sub.left.right) < |n0|
    ensures sub.left.at != sub.at
    ensures ParentRef(sctx) < |n0|
    ensures ParentRef(sctx) != NIL ==>
              (n0[ParentRef(sctx)].leftChild == sub.at || n0[ParentRef(sctx)].rightChild == sub.at)
    ensures var n1 := SetParent(Redirect(RightRelinked(n0, sub.at), ParentRef(sctx), sub.at, sub.left.at),
                                sub.left.at, ParentRef(sctx));
            Linked(n1, SPlug(sctx, RotateRightShape(sub)), NIL) &&
            Distinct(SPlug(sctx, RotateRightShape(sub))) &&
            SameLabels(n0, n1)
  {
    var x, l, p := sub.at, sub.left.at, ParentRef(sctx);
    PositionFacts(n0, sctx, sub);
    assert p !in Handles(sub) && (p == NIL || 0 <= p < |n0|) by {
      if sctx != [] { assert p in CtxHandles(sctx); }
    }
    if sctx != [] {
      ParentSide(n0, sctx, sub);
    }
    RightRotationInSubtree(n0, sub, p);
    var n1 := SetParent(Redirect(RightRelinked(n0, x), p, x, l), l, p);
    if sctx != [] {
      assert LinksAgree(n0, n1, CtxHandles(sctx) - {sctx[0].at}) by {
        assert forall h | h in CtxHandles(sctx) :: h !in Handles(sub);
      }
    }
    ReplaceRelinks(n0, n1, sctx, sub, RotateRightShape(sub));
  }


  /** leftRotation inside the subtree at `sub` whose parent reference is
      `p`: the subtree spells out the rotated shape, the parent's child
      reference on that side is redirected, and no other record changes. */
  lemma LeftRotationInSubtree(n0: seq<NodeRec>, sub: Shape, p: int)
    requires Linked(n0, sub, p) && Distinct(sub) && sub.Link? && sub.right.Link?
    requires p !in Handles(sub) && (p == NIL || 0 <= p < |n0|)
    ensures sub.at < |n0| && n0[sub.at].rightChild == sub.right.at && sub.right.at < |n0|
    ensures n0[sub.right.at].leftChild == Ref(sub.right.left) && Ref(sub.right.left) < |n0|
    ensures sub.right.at != sub.at
    ensures var n1 := SetParent(Redirect(LeftRelinked(n0, sub.at), p, sub.at, sub.right.at), sub.right.at, p);
            |n1| == |n0| && Linked(n1, RotateLeftShape(sub), p) && SameLabels(n0, n1) &&
            (p != NIL ==> n1[p] == (if n0[p].leftChild == sub.at then n0[p].(leftChild := sub.right.at)
                                    else n0[p].(rightChild := sub.right.at))) &&
            (forall h | 0 <= h < |n0| && h !in Handles(sub) && h != p :: n1[h] == n0[h])
  {
    var x, r, b := sub.at, sub.right.at, Ref(sub.right.left);
    assert Linked(n0, sub.right, x);
    if sub.right.left.Link? {
      assert Linked(n0, sub.right.left, r);
    }
    LeftRotationDisjoint(sub, p);
    LeftRotationPointwise(n0, x, r, b, p);
    var n1 := SetParent(Redirect(LeftRelinked(n0, x), p, x, r), r, p);
    AgreeAway(n0, n1, Handles(sub.left), x, r, b, p);
    AgreeAway(n0, n1, Handles(sub.right.right), x, r, b, p);
    if sub.right.left.Link? {
      AgreeAway(n0, n1, Handles(sub.right.left.left), x, r, b, p);
      AgreeAway(n0, n1, Handles(sub.right.left.right), x, r, b, p);
    }
    LeftRotationSubtree(n0, n1, sub, p);
  }

  /** leftRotation on the arena, the mirror image. */
  lemma LeftRotationArena(n0: seq<NodeRec>, sctx: seq<SFrame>, sub: Shape)
    requires Linked(n0, SPlug(sctx, sub), NIL) && Distinct(SPlug(sctx, sub))
    requires sub.Link? && sub.right.Link?
    ensures sub.at < |n0| && n0[sub.at].rightChild == sub.right.at && sub.right.at < |n0|
    ensures n0[sub.at].parent == ParentRef(sctx)
    ensures n0[sub.right.at].leftChild == Ref(sub.right.left) && Ref(sub.right.left) < |n0|
    ensures sub.right.at != sub.at
    ensures ParentRef(sctx) < |n0|
    ensures ParentRef(sctx) != NIL ==>
              (n0[ParentRef(sctx)].leftChild == sub.at || n0[ParentRef(sctx)].rightChild == sub.at)
    ensures var n1 := SetParent(Redirect(LeftRelinked(n0, sub.at), ParentRef(sctx), sub.at, sub.right.at),
                                sub.right.at, ParentRef(sctx));
            Linked(n1, SPlug(sctx, RotateLeftShape(sub)), NIL) &&
            Distinct(SPlug(sctx, RotateLeftShape(sub))) &&
            SameLabels(n0, n1)
  {
    var x, r, p := sub.at, sub.right.at, ParentRef(sctx);
    PositionFacts(n0, sctx, sub);
    assert p !in Handles(sub) && (p == NIL || 0 <= p < |n0|) by {
      if sctx != [] { assert p in CtxHandles(sctx); }
    }
    if sctx != [] {
      ParentSide(n0, sctx, sub);
    }
    LeftRotationInSubtree(n0, sub, p);
    var n1 := SetParent(Redirect(LeftRelinked(n0, x), p, x, r), r, p);
    if sctx != [] {
      assert LinksAgree(n0, n1, CtxHandles(sctx) - {sctx[0].at}) by {
        assert forall h | h in CtxHandles(sctx) :: h !in Handles(sub);
      }
    }
    ReplaceRelinks(n0, n1, sctx, sub, RotateLeftShape(sub));
  }


  // ---------------------------------------------------------------------------
  // Recolouring

  function Recolor(nodes: seq<NodeRec>, h: nat, c: Color): seq<NodeRec>
    requires h < |nodes|
  {
    nodes[h := nodes[h].(color := c)]
  }

  /** Recolouring one record keeps every link and every other node. */
  lemma RecolorFrame(nodes: seq<NodeRec>, h: nat, c: Color, sctx: seq<SFrame>, s: Shape)
    requires h < |nodes| && Distinct(s)
    ensures Linked(nodes, SPlug(sctx, s), NIL) ==> Linked(Recolor(nodes, h, c), SPlug(sctx, s), NIL)
    ensures h !in Handles(s) ==> Abs(Recolor(nodes, h, c), s) == Abs(nodes, s)
    ensures s.Link? && s.at == h ==>
              Abs(nodes, s).Node? && Abs(Recolor(nodes, h, c), s) == Abs(nodes, s).(color := c)
    ensures h !in CtxHandles(sctx) ==> AbsCtx(Recolor(nodes, h, c), sctx) == AbsCtx(nodes, sctx)
  {
    var n' := Recolor(nodes, h, c);
    if Linked(nodes, SPlug(sctx, s), NIL) {
      LinkedFrame(nodes, n', SPlug(sctx, s), NIL);
    }
    if h !in Handles(s) {
      AbsUnchanged(nodes, n', s);
    }
    if s.Link? && s.at == h {
      AbsUnchanged(nodes, n', s.left);
      AbsUnchanged(nodes, n', s.right);
    }
    if h !in CtxHandles(sctx) {
      AbsCtxUnchanged(nodes, n', sctx);
    }
  }

  lemma AbsPlugOne(nodes: seq<NodeRec>, f: SFrame, s: Shape)
    ensures Abs(nodes, SPlugOne(f, s)) == PlugOne(AbsFrame(nodes, f), Abs(nodes, s))
  {
  }

  /** Plugging into a context peels its innermost frames. */
  lemma SPlugUnfold(sctx: seq<SFrame>, s: Shape)
    requires sctx != []
    ensures SPlug(sctx, s) == SPlug(sctx[1..], SPlugOne(sctx[0], s))
    ensures |sctx| == 1 ==> SPlug(sctx, s) == SPlugOne(sctx[0], s)
    ensures |sctx| >= 2 ==>
              SPlug(sctx, s) == SPlug(sctx[2..], SPlugOne(sctx[1], SPlugOne(sctx[0], s))) &&
              sctx[1..][0] == sctx[1] && sctx[1..][1..] == sctx[2..]
  {
    if |sctx| >= 2 {
      assert sctx[1..][0] == sctx[1] && sctx[1..][1..] == sctx[2..];
    }
  }

  /** The three recolourings of case 3: the parent and the uncle turn
      BLACK, the grandparent RED. */
  function RecolorFamily(n0: seq<NodeRec>, p: nat, g: nat, u: nat): seq<NodeRec>
    requires p < |n0| && g < |n0| && u < |n0|
  {
    Recolor(Recolor(Recolor(n0, p, Black), g, Red), u, Black)
  }

  /** Case 3 keeps every link of the arena. */
  lemma FamilyKeepsLinks(n0: seq<NodeRec>, p: nat, g: nat, u: nat, s: Shape)
    requires p < |n0| && g < |n0| && u < |n0|
    requires Linked(n0, s, NIL) && Distinct(s)
    ensures Linked(RecolorFamily(n0, p, g, u), s, NIL)
  {
    var n1 := Recolor(n0, p, Black);
    var n2 := Recolor(n1, g, Red);
    RecolorFrame(n0, p, Black, [], s);
    RecolorFrame(n1, g, Red, [], s);
    RecolorFrame(n2, u, Black, [], s);
  }

  /** Case 3 leaves a context holding none of the three nodes alone. */
  lemma FamilyKeepsCtx(n0: seq<NodeRec>, p: nat, g: nat, u: nat, sctx: seq<SFrame>)
    requires p < |n0| && g < |n0| && u < |n0|
    requires p !in CtxHandles(sctx) && g !in CtxHandles(sctx) && u !in CtxHandles(sctx)
    ensures AbsCtx(RecolorFamily(n0, p, g, u), sctx) == AbsCtx(n0, sctx)
  {
    var n1 := Recolor(n0, p, Black);
    var n2 := Recolor(n1, g, Red);
    RecolorFrame(n0, p, Black, sctx, Null);
    RecolorFrame(n1, g, Red, sctx, Null);
    RecolorFrame(n2, u, Black, sctx, Null);
  }

  /** Case 3 turns the parent's subtree root BLACK and nothing else in it. */
  lemma FamilyParent(n0: seq<NodeRec>, p: nat, g: nat, u: nat, s: Shape)
    requires p < |n0| && g < |n0| && u < |n0|
    requires Distinct(s) && s.Link? && s.at == p && g !in Handles(s) && u !in Handles(s)
    ensures Abs(n0, s).Node?
    ensures Abs(RecolorFamily(n0, p, g, u), s) == Abs(n0, s).(color := Black)
  {
    var n1 := Recolor(n0, p, Black);
    var n2 := Recolor(n1, g, Red);
    RecolorFrame(n0, p, Black, [], s);
    RecolorFrame(n1, g, Red, [], s);
    RecolorFrame(n2, u, Black, [], s);
  }

  /** Case 3 turns the uncle's subtree root BLACK and nothing else in it. */
  lemma FamilyUncle(n0: seq<NodeRec>, p: nat, g: nat, u: nat, s: Shape)
    requires p < |n0| && g < |n0| && u < |n0|
    requires Distinct(s) && s.Link? && s.at == u && p !in Handles(s) && g !in Handles(s)
    ensures Abs(n0, s).Node?
    ensures Abs(RecolorFamily(n0, p, g, u), s) == Abs(n0, s).(color := Black)
  {
    var n1 := Recolor(n0, p, Black);
    var n2 := Recolor(n1, g, Red);
    RecolorFrame(n0, p, Black, [], s);
    RecolorFrame(n1, g, Red, [], s);
    RecolorFrame(n2, u, Black, [], s);
  }

  /** Case 3 turns the grandparent's record RED and keeps its links. */
  lemma FamilyGrandparent(n0: seq<NodeRec>, p: nat, g: nat, u: nat)
    requires p < |n0| && g < |n0| && u < |n0| && g != u
    ensures At(RecolorFamily(n0, p, g, u), g) == n0[g].(color := Red)
  {
  }

  /** What a shape with the parent's subtree on one side and the uncle's on
      the other says about the three nodes of case 3. */
  lemma FamilyDistinct(f: SFrame, s: Shape)
    requires Distinct(SPlugOne(f, s)) && s.Link? && SSibling(f).Link?
    ensures Handles(SPlugOne(f, s)) == Handles(s) + {f.at} + Handles(SSibling(f))
    ensures Distinct(s) && Distinct(SSibling(f))
    ensures f.at !in Handles(s) && SSibling(f).at !in Handles(s)
    ensures s.at !in Handles(SSibling(f)) && f.at !in Handles(SSibling(f))
  {
  }

  /** Case 3 of the fixup on the arena: the parent and the uncle turn BLACK
      and the grandparent RED, which is the grandparent' of the pure fixup;
      the links and the frames above the grandparent stay as they were. */
  lemma UncleRecolored(n0: seq<NodeRec>, sctx: seq<SFrame>, sub: Shape)
    requires Linked(n0, SPlug(sctx, sub), NIL) && Distinct(SPlug(sctx, sub))
    requires |sctx| >= 2 && sub.Link? && SSibling(sctx[1]).Link?
    ensures sctx[0].at < |n0| && sctx[1].at < |n0| && SSibling(sctx[1]).at < |n0|
    ensures var n3 := Recolor(Recolor(Recolor(n0, sctx[0].at, Black), sctx[1].at, Red), SSibling(sctx[1]).at, Black);
            var ctx, t := AbsCtx(n0, sctx), Abs(n0, sub);
            var parent := PlugOne(ctx[0].(color := Black), t);
            var uncle := Sibling(ctx[1]).(color := Black);
            var grandparent := PlugOne(ctx[1].(color := Red), parent);
            var grandparent' :=
              if ctx[1].HoleLeft? then grandparent.(right := uncle) else grandparent.(left := uncle);
            Linked(n3, SPlug(sctx, sub), NIL) &&
            Abs(n3, SPlugOne(sctx[1], SPlugOne(sctx[0], sub))) == grandparent' &&
            AbsCtx(n3, sctx[2..]) == ctx[2..]
  {
    var p, g, u := sctx[0].at, sctx[1].at, SSibling(sctx[1]).at;
    var P := SPlugOne(sctx[0], sub);
    var U := SSibling(sctx[1]);
    var G := SPlugOne(sctx[1], P);
    SPlugUnfold(sctx, sub);
    assert Distinct(G) && Handles(G) !! CtxHandles(sctx[2..]) && p < |n0| && g < |n0| && u < |n0| by {
      PositionFacts(n0, sctx[2..], G);
    }
    FamilyDistinct(sctx[1], P);
    assert p != g && g != u;
    var n3 := RecolorFamily(n0, p, g, u);
    FamilyKeepsLinks(n0, p, g, u, SPlug(sctx, sub));
    FamilyKeepsCtx(n0, p, g, u, sctx[2..]);
    AbsCtxSuffix(n0, sctx, 2);
    FamilyParent(n0, p, g, u, P);
    AbsPlugOne(n0, sctx[0], sub);
    FamilyUncle(n0, p, g, u, U);
    FamilyGrandparent(n0, p, g, u);
  }

  /** Cases 5a and 4a of the fixup on the arena: after the rotations the
      top of the subtree turns BLACK and its right child, the old
      grandparent, RED. */
  lemma RecolorTopRight(n5: seq<NodeRec>, sctx: seq<SFrame>, top: Shape)
    requires Linked(n5, SPlug(sctx, top), NIL) && Distinct(SPlug(sctx, top))
    requires top.Link? && top.right.Link?
    ensures top.at < |n5| && top.right.at < |n5|
    ensures var n6 := Recolor(Recolor(n5, top.at, Black), top.right.at, Red);
            var r := Abs(n5, top);
            Linked(n6, SPlug(sctx, top), NIL) &&
            Abs(n6, top) == Node(Black, r.left, r.data, r.right.(color := Red)) &&
            AbsCtx(n6, sctx) == AbsCtx(n5, sctx)
  {
    PositionFacts(n5, sctx, top);
    var n1 := Recolor(n5, top.at, Black);
    RecolorFrame(n5, top.at, Black, sctx, top);
    RecolorFrame(n1, top.right.at, Red, sctx, top);
    RecolorFrame(n5, top.at, Black, [], top.left);
    RecolorFrame(n1, top.right.at, Red, [], top.left);
    RecolorFrame(n5, top.at, Black, [], top.right);
    RecolorFrame(n1, top.right.at, Red, [], top.right);
  }

  /** Cases 5b and 4b: the top turns BLACK and its left child RED. */
  lemma RecolorTopLeft(n5: seq<NodeRec>, sctx: seq<SFrame>, top: Shape)
    requires Linked(n5, SPlug(sctx, top), NIL) && Distinct(SPlug(sctx, top))
    requires top.Link? && top.left.Link?
    ensures top.at < |n5| && top.left.at < |n5|
    ensures var n6 := Recolor(Recolor(n5, top.at, Black), top.left.at, Red);
            var r := Abs(n5, top);
            Linked(n6, SPlug(sctx, top), NIL) &&
            Abs(n6, top) == Node(Black, r.left.(color := Red), r.data, r.right) &&
            AbsCtx(n6, sctx) == AbsCtx(n5, sctx)
  {
    PositionFacts(n5, sctx, top);
    var n1 := Recolor(n5, top.at, Black);
    RecolorFrame(n5, top.at, Black, sctx, top);
    RecolorFrame(n1, top.left.at, Red, sctx, top);
    RecolorFrame(n5, top.at, Black, [], top.left);
    RecolorFrame(n1, top.left.at, Red, [], top.left);
    RecolorFrame(n5, top.at, Black, [], top.right);
    RecolorFrame(n1, top.left.at, Red, [], top.right);
  }
}
