/**
  The Red-Black insertion of RedBlackTree as a function on node trees: the
  descent to the insertion point, the bottom-up fixup with its five cases, and
  the Red-Black rules it restores. The in-place arena version refines these
  functions.

  A position in a tree is a zipper: the subtree at that position and the list
  of frames above it, the parent's frame first.
*/
module Balance {
  import opened Common
  import opened Engine

  /** One step up from a subtree: the parent's colour and key and the other
      child, with the hole on the side where the subtree hangs. */
  datatype Frame =
    | HoleLeft(color: Color, data: int, right: Tree)   // the subtree is the left child
    | HoleRight(left: Tree, color: Color, data: int)   // the subtree is the right child

  function Sibling(f: Frame): Tree
  {
    if f.HoleLeft? then f.right else f.left
  }

  function PlugOne(f: Frame, t: Tree): (r: Tree)
    ensures r.Node? && r.color == f.color && r.data == f.data
  {
    match f
    case HoleLeft(c, k, right) => Node(c, t, k, right)
    case HoleRight(left, c, k) => Node(c, left, k, t)
  }

  /** The whole tree rebuilt around the subtree `t`. */
  function Plug(ctx: seq<Frame>, t: Tree): Tree
    decreases |ctx|
  {
    if ctx == [] then t else Plug(ctx[1..], PlugOne(ctx[0], t))
  }

  predicate IsRed(t: Tree)
  {
    t.Node? && t.color == Red
  }

  // ---------------------------------------------------------------------------
  // The Red-Black rules

  /** No RED node has a RED child. */
  predicate NoRedRed(t: Tree)
  {
    match t
    case Nil => true
    case Node(c, l, _, r) =>
      NoRedRed(l) && NoRedRed(r) && (c == Red ==> !IsRed(l) && !IsRed(r))
  }

  /** The number of BLACK nodes on the leftmost root-to-null path. */
  function BlackHeight(t: Tree): nat
  {
    match t
    case Nil => 0
    case Node(c, l, _, _) => BlackHeight(l) + (if c == Black then 1 else 0)
  }

  /** Every root-to-null path carries the same number of BLACK nodes. */
  predicate BlackBalanced(t: Tree)
  {
    match t
    case Nil => true
    case Node(_, l, _, r) =>
      BlackBalanced(l) && BlackBalanced(r) && BlackHeight(l) == BlackHeight(r)
  }

  predicate IsRedBlack(t: Tree)
  {
    IsBST(t) && !IsRed(t) && NoRedRed(t) && BlackBalanced(t)
  }

  /** Plugging a tree of black height `h` into `ctx` balances every frame. */
  predicate CtxBalanced(ctx: seq<Frame>, h: nat)
    decreases |ctx|
  {
    ctx == [] ||
    (BlackBalanced(Sibling(ctx[0])) && BlackHeight(Sibling(ctx[0])) == h &&
     CtxBalanced(ctx[1..], h + if ctx[0].color == Black then 1 else 0))
  }

  /** No RED-RED edge in `ctx` once a subtree is plugged in whose root is
      RED exactly when `holeRed`. */
  predicate CtxNoRedRed(ctx: seq<Frame>, holeRed: bool)
    decreases |ctx|
  {
    ctx == [] ||
    (NoRedRed(Sibling(ctx[0])) &&
     (ctx[0].color == Red ==> !holeRed && !IsRed(Sibling(ctx[0]))) &&
     CtxNoRedRed(ctx[1..], ctx[0].color == Red))
  }

  /** The frame at the top of `ctx` is the root; it must be BLACK. */
  predicate TopBlack(ctx: seq<Frame>)
  {
    ctx == [] || ctx[|ctx| - 1].color == Black
  }

  lemma {:induction false} PlugBalanced(ctx: seq<Frame>, t: Tree)
    ensures BlackBalanced(Plug(ctx, t)) <==> BlackBalanced(t) && CtxBalanced(ctx, BlackHeight(t))
    decreases |ctx|
  {
    if ctx != [] {
      PlugBalanced(ctx[1..], PlugOne(ctx[0], t));
    }
  }

  lemma {:induction false} PlugNoRedRed(ctx: seq<Frame>, t: Tree)
    ensures NoRedRed(Plug(ctx, t)) <==> NoRedRed(t) && CtxNoRedRed(ctx, IsRed(t))
    decreases |ctx|
  {
    if ctx != [] {
      PlugNoRedRed(ctx[1..], PlugOne(ctx[0], t));
    }
  }

  lemma {:induction false} PlugRootColor(ctx: seq<Frame>, t: Tree)
    ensures ctx != [] ==> (IsRed(Plug(ctx, t)) <==> !TopBlack(ctx))
    ensures ctx == [] ==> Plug(ctx, t) == t
    decreases |ctx|
  {
    if |ctx| > 1 {
      PlugRootColor(ctx[1..], PlugOne(ctx[0], t));
      assert ctx[1..][|ctx| - 2] == ctx[|ctx| - 1];
    }
  }

  /** Plugging preserves equality of inorder walks. */
  lemma {:induction false} PlugInorder(ctx: seq<Frame>, a: Tree, b: Tree)
    requires InorderKeys(a) == InorderKeys(b)
    ensures InorderKeys(Plug(ctx, a)) == InorderKeys(Plug(ctx, b))
    decreases |ctx|
  {
    if ctx != [] {
      PlugInorder(ctx[1..], PlugOne(ctx[0], a), PlugOne(ctx[0], b));
    }
  }

  // ---------------------------------------------------------------------------
  // Rotations

  /** rightRotation: the left child takes the node's place. */
  function RotateRight(t: Tree): (r: Tree)
    requires t.Node? && t.left.Node?
    ensures r.Node? && r.right.Node?
  {
    Node(t.left.color, t.left.left, t.left.data, Node(t.color, t.left.right, t.data, t.right))
  }

  /** leftRotation: the right child takes the node's place. */
  function RotateLeft(t: Tree): (r: Tree)
    requires t.Node? && t.right.Node?
    ensures r.Node? && r.left.Node?
  {
    Node(t.right.color, Node(t.color, t.left, t.data, t.right.left), t.right.data, t.right.right)
  }

  lemma RotateRightKeepsInorder(t: Tree)
    requires t.Node? && t.left.Node?
    ensures InorderKeys(RotateRight(t)) == InorderKeys(t)
  {
    var l := t.left;
    var a, b, c := InorderKeys(l.left), InorderKeys(l.right), InorderKeys(t.right);
    assert InorderKeys(RotateRight(t)) == a + [l.data] + (b + [t.data] + c);
    assert InorderKeys(t) == (a + [l.data] + b) + [t.data] + c;
  }

  lemma RotateLeftKeepsInorder(t: Tree)
    requires t.Node? && t.right.Node?
    ensures InorderKeys(RotateLeft(t)) == InorderKeys(t)
  {
    var r := t.right;
    var a, b, c := InorderKeys(t.left), InorderKeys(r.left), InorderKeys(r.right);
    assert InorderKeys(RotateLeft(t)) == (a + [t.data] + b) + [r.data] + c;
    assert InorderKeys(t) == a + [t.data] + (b + [r.data] + c);
  }

  // ---------------------------------------------------------------------------
  // balancingTreeAfterInsertion

  /** The whole tree after the fixup that starts at the root of `t`, a node
      whose parent frame is `ctx[0]`. */
  function Fixup(ctx: seq<Frame>, t: Tree): (r: Tree)
    requires t.Node?
    decreases |ctx|
  {
    if ctx == [] then
      // no parent: the node is the root and turns BLACK
      t.(color := Black)
    else if ctx[0].color == Black then
      // BLACK parent: nothing to do
      Plug(ctx, t)
    else if |ctx| == 1 then
      // RED parent without a grandparent: the parent is the root and turns BLACK
      PlugOne(ctx[0].(color := Black), t)
    else if IsRed(Sibling(ctx[1])) then
      // RED uncle: recolour parent, grandparent and uncle, continue at the grandparent
      var parent := PlugOne(ctx[0].(color := Black), t);
      var uncle := Sibling(ctx[1]).(color := Black);
      var grandparent := PlugOne(ctx[1].(color := Red), parent);
      var grandparent' :=
        if ctx[1].HoleLeft? then grandparent.(right := uncle) else grandparent.(left := uncle);
      Fixup(ctx[2..], grandparent')
    else if ctx[1].HoleLeft? then
      // BLACK uncle, parent is a left child: rotate left at an inner child's
      // parent, then right at the grandparent, and recolour
      var parent := PlugOne(ctx[0], t);
      var parent' := if ctx[0].HoleRight? then RotateLeft(parent) else parent;
      var r := RotateRight(PlugOne(ctx[1], parent'));
      Plug(ctx[2..], Node(Black, r.left, r.data, r.right.(color := Red)))
    else
      // the mirror image
      var parent := PlugOne(ctx[0], t);
      var parent' := if ctx[0].HoleLeft? then RotateRight(parent) else parent;
      var r := RotateLeft(PlugOne(ctx[1], parent'));
      Plug(ctx[2..], Node(Black, r.left.(color := Red), r.data, r.right))
  }

  /** Recolouring and rotating never reorders keys: the fixup keeps the
      inorder walk of the tree it starts from. */
  lemma {:induction false} FixupKeepsInorder(ctx: seq<Frame>, t: Tree)
    requires t.Node?
    ensures InorderKeys(Fixup(ctx, t)) == InorderKeys(Plug(ctx, t))
    decreases |ctx|
  {
    if ctx == [] {
    } else if ctx[0].color == Black {
    } else if |ctx| == 1 {
      PlugInorder(ctx[1..], PlugOne(ctx[0].(color := Black), t), PlugOne(ctx[0], t));
    } else if IsRed(Sibling(ctx[1])) {
      var parent := PlugOne(ctx[0].(color := Black), t);
      var uncle := Sibling(ctx[1]).(color := Black);
      var grandparent := PlugOne(ctx[1].(color := Red), parent);
      var grandparent' :=
        if ctx[1].HoleLeft? then grandparent.(right := uncle) else grandparent.(left := uncle);
      FixupKeepsInorder(ctx[2..], grandparent');
      assert InorderKeys(grandparent') == InorderKeys(PlugOne(ctx[1], PlugOne(ctx[0], t)));
      PlugInorder(ctx[2..], grandparent', PlugOne(ctx[1], PlugOne(ctx[0], t)));
      assert ctx[1..][1..] == ctx[2..];
    } else if ctx[1].HoleLeft? {
      var parent := PlugOne(ctx[0], t);
      var parent' := if ctx[0].HoleRight? then RotateLeft(parent) else parent;
      if ctx[0].HoleRight? { RotateLeftKeepsInorder(parent); }
      var g := PlugOne(ctx[1], parent');
      var r := RotateRight(g);
      RotateRightKeepsInorder(g);
      var top := Node(Black, r.left, r.data, r.right.(color := Red));
      assert InorderKeys(top) == InorderKeys(PlugOne(ctx[1], parent));
      PlugInorder(ctx[2..], top, PlugOne(ctx[1], parent));
      assert ctx[1..][1..] == ctx[2..];
    } else {
      var parent := PlugOne(ctx[0], t);
      var parent' := if ctx[0].HoleLeft? then RotateRight(parent) else parent;
      if ctx[0].HoleLeft? { RotateRightKeepsInorder(parent); }
      var g := PlugOne(ctx[1], parent');
      var r := RotateLeft(g);
      RotateLeftKeepsInorder(g);
      var top := Node(Black, r.left.(color := Red), r.data, r.right);
      assert InorderKeys(top) == InorderKeys(PlugOne(ctx[1], parent));
      PlugInorder(ctx[2..], top, PlugOne(ctx[1], parent));
      assert ctx[1..][1..] == ctx[2..];
    }
  }

  /** The fixup invariant: the node at the hole is RED and otherwise sound,
      and the rest of the tree would be a Red-Black tree if that node were
      BLACK. */
  predicate FixupInvariant(ctx: seq<Frame>, t: Tree)
  {
    IsRed(t) && NoRedRed(t) && BlackBalanced(t) &&
    CtxBalanced(ctx, BlackHeight(t)) && CtxNoRedRed(ctx, false) && TopBlack(ctx)
  }

  /** From the fixup invariant, the fixup yields a BLACK root, no RED-RED
      edge and equal black heights. */
  lemma {:induction false} FixupRestoresColors(ctx: seq<Frame>, t: Tree)
    requires FixupInvariant(ctx, t)
    ensures !IsRed(Fixup(ctx, t)) && NoRedRed(Fixup(ctx, t)) && BlackBalanced(Fixup(ctx, t))
    decreases |ctx|
  {
    if ctx == [] {
    } else if ctx[0].color == Black {
      assert CtxNoRedRed(ctx, true);
      PlugNoRedRed(ctx, t);
      PlugBalanced(ctx, t);
      PlugRootColor(ctx, t);
    } else if |ctx| == 1 {
      assert false;
    } else {
      assert ctx[1..][1..] == ctx[2..];
      assert ctx[1..][0] == ctx[1];
      var h := BlackHeight(t);
      assert !IsRed(Sibling(ctx[0])) && BlackHeight(Sibling(ctx[0])) == h;
      assert CtxNoRedRed(ctx[1..], true) && CtxBalanced(ctx[1..], h);
      assert ctx[1].color == Black;
      assert BlackHeight(Sibling(ctx[1])) == h;
      var rest := ctx[2..];
      assert CtxBalanced(rest, h + 1);
      assert CtxNoRedRed(rest, false);
      assert TopBlack(rest) by {
        if rest != [] { assert rest[|rest| - 1] == ctx[|ctx| - 1]; }
      }
      if IsRed(Sibling(ctx[1])) {
        var parent := PlugOne(ctx[0].(color := Black), t);
        var uncle := Sibling(ctx[1]).(color := Black);
        var grandparent := PlugOne(ctx[1].(color := Red), parent);
        var grandparent' :=
          if ctx[1].HoleLeft? then grandparent.(right := uncle) else grandparent.(left := uncle);
        assert BlackHeight(parent) == h + 1;
        assert BlackHeight(grandparent') == h + 1;
        FixupRestoresColors(rest, grandparent');
      } else {
        var top := Fixup(ctx, t);
        var topTree :=
          if ctx[1].HoleLeft? then
            var parent := PlugOne(ctx[0], t);
            var parent' := if ctx[0].HoleRight? then RotateLeft(parent) else parent;
            var r := RotateRight(PlugOne(ctx[1], parent'));
            Node(Black, r.left, r.data, r.right.(color := Red))
          else
            var parent := PlugOne(ctx[0], t);
            var parent' := if ctx[0].HoleLeft? then RotateRight(parent) else parent;
            var r := RotateLeft(PlugOne(ctx[1], parent'));
            Node(Black, r.left.(color := Red), r.data, r.right);
        assert top == Plug(rest, topTree);
        RotatedTopIsSound(ctx[0], ctx[1], t);
        PlugNoRedRed(rest, topTree);
        PlugBalanced(rest, topTree);
        PlugRootColor(rest, topTree);
      }
    }
  }

  /** The subtree the two black-uncle cases build is a BLACK node with no
      RED-RED edge, balanced, one black level above the RED node. */
  lemma RotatedTopIsSound(f: Frame, g: Frame, t: Tree)
    requires IsRed(t) && NoRedRed(t) && BlackBalanced(t)
    requires f.color == Red && NoRedRed(Sibling(f)) && !IsRed(Sibling(f))
    requires BlackBalanced(Sibling(f)) && BlackHeight(Sibling(f)) == BlackHeight(t)
    requires NoRedRed(Sibling(g)) && !IsRed(Sibling(g))
    requires BlackBalanced(Sibling(g)) && BlackHeight(Sibling(g)) == BlackHeight(t)
    ensures var top :=
          if g.HoleLeft? then
            var parent := PlugOne(f, t);
            var parent' := if f.HoleRight? then RotateLeft(parent) else parent;
            var r := RotateRight(PlugOne(g, parent'));
            Node(Black, r.left, r.data, r.right.(color := Red))
          else
            var parent := PlugOne(f, t);
            var parent' := if f.HoleLeft? then RotateRight(parent) else parent;
            var r := RotateLeft(PlugOne(g, parent'));
            Node(Black, r.left.(color := Red), r.data, r.right);
      !IsRed(top) && NoRedRed(top) && BlackBalanced(top) && BlackHeight(top) == BlackHeight(t) + 1
  {
  }

  // ---------------------------------------------------------------------------
  // The descent of safeInsert

  /** Where the descent for a key ends: at a node holding it, or at an empty
      child slot, given by the frames above that slot. */
  datatype Spot = Found | Vacant(path: seq<Frame>)

  function Descend(t: Tree, k: int, ctx: seq<Frame>): (s: Spot)
  {
    match t
    case Nil => Vacant(ctx)
    case Node(c, l, d, r) =>
      if k < d then Descend(l, k, [HoleLeft(c, d, r)] + ctx)
      else if k > d then Descend(r, k, [HoleRight(l, c, d)] + ctx)
      else Found
  }

  /** The descent finds a node exactly where the membership search does; an
      empty slot it ends at is where the plain insertion puts a new leaf. */
  lemma {:induction false} DescendPlacesLeaf(t: Tree, k: int, ctx: seq<Frame>, c: Color)
    ensures Descend(t, k, ctx).Found? <==> SafeContainsKey(t, k)
    ensures Descend(t, k, ctx).Vacant? ==>
              Plug(Descend(t, k, ctx).path, Node(c, Nil, k, Nil)) == Plug(ctx, InsertLeaf(t, k, c)) &&
              Plug(Descend(t, k, ctx).path, Nil) == Plug(ctx, t)
  {
    match t
    case Nil =>
    case Node(col, l, d, r) =>
      if k < d {
        DescendPlacesLeaf(l, k, [HoleLeft(col, d, r)] + ctx, c);
        assert ([HoleLeft(col, d, r)] + ctx)[1..] == ctx;
      } else if k > d {
        DescendPlacesLeaf(r, k, [HoleRight(l, col, d)] + ctx, c);
        assert ([HoleRight(l, col, d)] + ctx)[1..] == ctx;
      }
  }

  /** The tree after `insert(k)`: a BLACK root for an empty tree, the same
      tree for a present key, otherwise a RED leaf at the end of the descent
      followed by the fixup. */
  function RbInsert(t: Tree, k: int): Tree
  {
    if t.Nil? then Node(Black, Nil, k, Nil)
    else
      match Descend(t, k, [])
      case Found => t
      case Vacant(path) => Fixup(path, Node(Red, Nil, k, Nil))
  }

  lemma {:induction false} CountIsInorderLength(t: Tree)
    ensures |InorderKeys(t)| == Count(t)
  {
    match t
    case Nil =>
    case Node(_, l, _, r) =>
      CountIsInorderLength(l);
      CountIsInorderLength(r);
  }

  /** Trees with the same inorder walk hold the same keys, the same number of
      nodes, and are BSTs together. */
  lemma SameInorder(a: Tree, b: Tree)
    requires InorderKeys(a) == InorderKeys(b)
    ensures Keys(a) == Keys(b)
    ensures Count(a) == Count(b)
    ensures IsBST(a) <==> IsBST(b)
  {
    InorderHoldsKeys(a);
    InorderHoldsKeys(b);
    forall x ensures x in Keys(a) <==> x in Keys(b) {
      assert x in InorderKeys(a) <==> x in InorderKeys(b);
    }
    CountIsInorderLength(a);
    CountIsInorderLength(b);
    BstIffInorderAscending(a);
    BstIffInorderAscending(b);
  }

  /** Insertion into a Red-Black tree yields a Red-Black tree holding the old
      keys and the new one; a present key changes nothing, an absent one adds
      exactly one node. */
  lemma RbInsertKeepsRedBlack(t: Tree, k: int)
    requires IsRedBlack(t)
    ensures IsRedBlack(RbInsert(t, k))
    ensures Keys(RbInsert(t, k)) == Keys(t) + {k}
    ensures k in Keys(t) ==> RbInsert(t, k) == t
    ensures Count(RbInsert(t, k)) == if k in Keys(t) then Count(t) else Count(t) + 1
  {
    if t.Node? {
      DescendPlacesLeaf(t, k, [], Red);
      ContainsIsMembership(t, k);
      if Descend(t, k, []).Vacant? {
        var path := Descend(t, k, []).path;
        var leaf := Node(Red, Nil, k, Nil);
        InsertLeafKeepsOrder(t, k, Red);
        assert Plug(path, leaf) == InsertLeaf(t, k, Red);
        FixupKeepsInorder(path, leaf);
        SameInorder(Fixup(path, leaf), InsertLeaf(t, k, Red));
        PlugBalanced(path, Nil);
        PlugNoRedRed(path, Nil);
        PlugRootColor(path, Nil);
        FixupRestoresColors(path, leaf);
      }
    }
  }

  // ---------------------------------------------------------------------------
  // What the colour rules buy: logarithmic height

  /** A tree whose paths carry b BLACK nodes holds at least 2^b - 1 nodes. */
  lemma {:induction false} BlackHeightCount(t: Tree)
    requires BlackBalanced(t)
    ensures Pow2(BlackHeight(t)) <= Count(t) + 1
  {
    match t
    case Nil =>
    case Node(_, l, _, r) =>
      BlackHeightCount(l);
      BlackHeightCount(r);
  }

  /** Without two REDs in a row, a path is at most twice as long as its
      BLACK nodes, plus one for a RED root. */
  lemma {:induction false} HeightTwiceBlackHeight(t: Tree)
    requires NoRedRed(t) && BlackBalanced(t)
    ensures Height(t) <= 2 * BlackHeight(t) + (if IsRed(t) then 1 else 0)
  {
    match t
    case Nil =>
    case Node(_, l, _, r) =>
      HeightTwiceBlackHeight(l);
      HeightTwiceBlackHeight(r);
  }

  lemma {:induction false} Pow2Add(a: nat, b: nat)
    ensures Pow2(a + b) == Pow2(a) * Pow2(b)
  {
    if a > 0 { Pow2Add(a - 1, b); }
  }

  /** A Red-Black tree of n nodes has height h with 2^h <= (n + 1)^2,
      that is h <= 2 log2(n + 1). */
  lemma RedBlackHeightBound(t: Tree)
    requires IsRedBlack(t)
    ensures Pow2(Height(t)) <= (Count(t) + 1) * (Count(t) + 1)
  {
    var b, n := BlackHeight(t), Count(t) + 1;
    HeightTwiceBlackHeight(t);
    BlackHeightCount(t);
    PowMonotone(Height(t), b + b);
    Pow2Add(b, b);
    var p := Pow2(b);
    assert p * p <= p * n by { MulMonotone(p, p, n); }
    assert p * n <= n * n by { MulMonotone(n, p, n); }
  }

  lemma MulMonotone(c: nat, a: nat, b: nat)
    requires a <= b
    ensures c * a <= c * b
  {
  }
}
