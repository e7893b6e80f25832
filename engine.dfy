/**
  The shared two-child engine (AbstractBinaryTree): the node tree as a value and
  the recursive walks every variant reuses: argument validation, membership
  search, height, element export and the three text traversals.

  Keys are integers ordered by `<`, standing for `Comparable<T>` with a total
  order. The source's `key == currentRoot.data` is a reference comparison; it is
  modelled as value equality (compareTo == 0), which is what it computes for the
  small cached Integers the library is used with.
*/
module Engine {
  import opened Common

  /** A node holds a colour (BLACK unless the Red-Black variant recolours it),
      its left subtree, its key and its right subtree. */
  datatype Tree = Nil | Node(color: Color, left: Tree, data: int, right: Tree)

  // ---------------------------------------------------------------------------
  // Specification functions

  /** The set of keys stored in a tree. */
  function Keys(t: Tree): set<int>
  {
    match t
    case Nil => {}
    case Node(_, l, k, r) => Keys(l) + {k} + Keys(r)
  }

  /** The number of nodes of a tree. */
  function Count(t: Tree): nat
  {
    match t
    case Nil => 0
    case Node(_, l, _, r) => Count(l) + 1 + Count(r)
  }

  /** BST ordering: every key of a left subtree is strictly smaller, every key
      of a right subtree strictly greater than the key of the node. */
  predicate IsBST(t: Tree)
  {
    match t
    case Nil => true
    case Node(_, l, k, r) =>
      IsBST(l) && IsBST(r) &&
      (forall x :: x in Keys(l) ==> x < k) &&
      (forall x :: x in Keys(r) ==> k < x)
  }

  /** The keys in left-root-right order. */
  function InorderKeys(t: Tree): seq<int>
  {
    match t
    case Nil => []
    case Node(_, l, k, r) => InorderKeys(l) + [k] + InorderKeys(r)
  }

  predicate StrictlyIncreasing(s: seq<int>)
  {
    forall i, j :: 0 <= i < j < |s| ==> s[i] < s[j]
  }

  function Pow2(n: nat): (p: nat)
    ensures p >= 1
  {
    if n == 0 then 1 else 2 * Pow2(n - 1)
  }

  // ---------------------------------------------------------------------------
  // validationOfArgumentInMethods

  /** A null argument is rejected with IllegalArgumentException; any other
      argument passes. */
  function ValidateArgument<T>(argument: Option<T>): (r: Outcome)
    ensures r == Pass <==> argument.Some?
    ensures r.Fail? ==> r.error == IllegalArgument
  {
    if argument.None? then Fail(IllegalArgument) else Pass
  }

  // ---------------------------------------------------------------------------
  // contains / safeContainsKey

  /** BST descent: stop on an equal key, go left when the node's key is
      greater, right otherwise. */
  function SafeContainsKey(t: Tree, key: int): bool
  {
    match t
    case Nil => false
    case Node(_, l, k, r) =>
      if key == k then true
      else if k > key then SafeContainsKey(l, key)
      else SafeContainsKey(r, key)
  }

  /** `contains`: a null key fails before anything else; on a BST the answer
      is membership in the key set. */
  function Contains(t: Tree, key: Option<int>): (r: Result<bool>)
    ensures r.Failure? <==> key.None?
    ensures r.Failure? ==> r.error == IllegalArgument
    ensures key.Some? && IsBST(t) ==> r == Success(key.value in Keys(t))
  {
    if ValidateArgument(key).Fail? then Failure(IllegalArgument)
    else
      var found := SafeContainsKey(t, key.value);
      if IsBST(t) then ContainsIsMembership(t, key.value); Success(found)
      else Success(found)
  }

  /** A positive answer always names a stored key, BST or not. */
  lemma {:induction false} ContainsIsSound(t: Tree, key: int)
    ensures SafeContainsKey(t, key) ==> key in Keys(t)
  {
    match t
    case Nil =>
    case Node(_, l, k, r) =>
      if key != k {
        if k > key { ContainsIsSound(l, key); } else { ContainsIsSound(r, key); }
      }
  }

  /** On a BST the descent finds exactly the stored keys. */
  lemma {:induction false} ContainsIsMembership(t: Tree, key: int)
    requires IsBST(t)
    ensures SafeContainsKey(t, key) <==> key in Keys(t)
  {
    match t
    case Nil =>
    case Node(_, l, k, r) =>
      if key != k {
        ContainsIsMembership(l, key);
        ContainsIsMembership(r, key);
      }
  }

  // ---------------------------------------------------------------------------
  // height

  /** 0 for the empty tree, otherwise one more than the taller subtree. */
  function Height(t: Tree): nat
  {
    match t
    case Nil => 0
    case Node(_, l, _, r) =>
      var leftHeight, rightHeight := Height(l), Height(r);
      if leftHeight > rightHeight then leftHeight + 1 else rightHeight + 1
  }

  /** The height is 0 exactly for the empty tree, never exceeds the node
      count, and a tree of height h holds fewer than 2^h nodes. */
  lemma {:induction false} HeightBounds(t: Tree)
    ensures Height(t) == 0 <==> t == Nil
    ensures Height(t) <= Count(t) < Pow2(Height(t))
  {
    match t
    case Nil =>
    case Node(_, l, _, r) =>
      HeightBounds(l);
      HeightBounds(r);
      var h := Height(t);
      assert Pow2(h) == 2 * Pow2(h - 1);
      PowMonotone(Height(l), h - 1);
      PowMonotone(Height(r), h - 1);
  }

  lemma {:induction false} PowMonotone(a: nat, b: nat)
    requires a <= b
    ensures Pow2(a) <= Pow2(b)
  {
    if a < b { PowMonotone(a, b - 1); }
  }

  // ---------------------------------------------------------------------------
  // getAllElements / safeGetAllElements

  /** The keys in root-left-right (preorder) order. */
  function Elements(t: Tree): seq<int>
  {
    match t
    case Nil => []
    case Node(_, l, k, r) => [k] + Elements(l) + Elements(r)
  }

  /** The exported collection has one entry per node, lists exactly the keys,
      and is a permutation of the inorder key sequence. */
  lemma {:induction false} ElementsAreTheKeys(t: Tree)
    ensures |Elements(t)| == Count(t)
    ensures multiset(Elements(t)) == multiset(InorderKeys(t))
    ensures forall x :: x in Elements(t) <==> x in Keys(t)
  {
    match t
    case Nil =>
    case Node(_, l, k, r) =>
      ElementsAreTheKeys(l);
      ElementsAreTheKeys(r);
      assert multiset(Elements(t)) == multiset([k]) + multiset(Elements(l)) + multiset(Elements(r));
      assert multiset(InorderKeys(t)) == multiset(InorderKeys(l)) + multiset([k]) + multiset(InorderKeys(r));
      forall x ensures x in Elements(t) <==> x in Keys(t) {
        assert x in Elements(t) <==> x == k || x in Elements(l) || x in Elements(r);
      }
  }

  /** In a BST every node holds a different key. */
  lemma {:induction false} BstCountIsKeyCount(t: Tree)
    requires IsBST(t)
    ensures |Keys(t)| == Count(t)
  {
    match t
    case Nil =>
    case Node(_, l, k, r) =>
      BstCountIsKeyCount(l);
      BstCountIsKeyCount(r);
      forall x | x in Keys(l) ensures x !in Keys(r) && x != k {}
      assert Keys(l) !! Keys(r);
      assert k !in Keys(l) + Keys(r);
      assert |Keys(l) + Keys(r)| == |Keys(l)| + |Keys(r)|;
  }

  // ---------------------------------------------------------------------------
  // Ordering of the inorder walk

  lemma {:induction false} InorderHoldsKeys(t: Tree)
    ensures forall x :: x in InorderKeys(t) <==> x in Keys(t)
  {
    match t
    case Nil =>
    case Node(_, l, k, r) =>
      InorderHoldsKeys(l);
      InorderHoldsKeys(r);
      forall x ensures x in InorderKeys(t) <==> x in Keys(t) {
        assert x in InorderKeys(t) <==> x in InorderKeys(l) || x == k || x in InorderKeys(r);
      }
  }

  /** Two ascending runs joined by a key above the first and below the
      second form one ascending run. */
  lemma JoinAscending(a: seq<int>, k: int, b: seq<int>)
    requires StrictlyIncreasing(a) && StrictlyIncreasing(b)
    requires forall x | x in a :: x < k
    requires forall x | x in b :: k < x
    ensures StrictlyIncreasing(a + [k] + b)
  {
    var s := a + [k] + b;
    forall i, j | 0 <= i < j < |s| ensures s[i] < s[j] {
      if j < |a| {
      } else if i < |a| {
        assert s[i] in a;
        if j > |a| { assert s[j] == b[j - |a| - 1]; assert s[j] in b; }
      } else if i == |a| {
        assert s[j] == b[j - |a| - 1];
        assert s[j] in b;
      } else {
        assert s[i] == b[i - |a| - 1] && s[j] == b[j - |a| - 1];
      }
    }
  }

  /** The converse: an ascending run splits around any of its keys into
      two ascending runs, the first below the key and the second above. */
  lemma SplitAscending(a: seq<int>, k: int, b: seq<int>)
    requires StrictlyIncreasing(a + [k] + b)
    ensures StrictlyIncreasing(a) && StrictlyIncreasing(b)
    ensures forall x | x in a :: x < k
    ensures forall x | x in b :: k < x
  {
    var s := a + [k] + b;
    forall i, j | 0 <= i < j < |a| ensures a[i] < a[j] { assert s[i] == a[i] && s[j] == a[j]; }
    forall i, j | 0 <= i < j < |b| ensures b[i] < b[j] {
      assert s[|a| + 1 + i] == b[i] && s[|a| + 1 + j] == b[j];
    }
    forall x | x in a ensures x < k {
      var i :| 0 <= i < |a| && a[i] == x;
      assert s[i] == x && s[|a|] == k;
    }
    forall x | x in b ensures k < x {
      var i :| 0 <= i < |b| && b[i] == x;
      assert s[|a| + 1 + i] == x && s[|a|] == k;
    }
  }

  /** BST ordering holds exactly when the inorder walk is strictly ascending. */
  lemma {:induction false} BstIffInorderAscending(t: Tree)
    ensures IsBST(t) <==> StrictlyIncreasing(InorderKeys(t))
  {
    match t
    case Nil =>
    case Node(_, l, k, r) =>
      BstIffInorderAscending(l);
      BstIffInorderAscending(r);
      InorderHoldsKeys(l);
      InorderHoldsKeys(r);
      assert InorderKeys(t) == InorderKeys(l) + [k] + InorderKeys(r);
      if IsBST(t) {
        JoinAscending(InorderKeys(l), k, InorderKeys(r));
      }
      if StrictlyIncreasing(InorderKeys(t)) {
        SplitAscending(InorderKeys(l), k, InorderKeys(r));
      }
  }


  // ---------------------------------------------------------------------------
  // text and the three traversal builders

  function DigitChar(d: nat): (c: char)
    requires d < 10
    ensures '0' <= c <= '9'
  {
    "0123456789"[d]
  }

  /** Decimal rendering of a natural number. */
  function ShowNat(n: nat): (s: string)
    ensures |s| > 0
    ensures forall i :: 0 <= i < |s| ==> '0' <= s[i] <= '9'
  {
    if n < 10 then [DigitChar(n)] else ShowNat(n / 10) + [DigitChar(n % 10)]
  }

  /** What `StringBuilder.append(Integer)` appends: the decimal digits, led by
      '-' for a negative key; never empty and never containing a space. */
  function Show(n: int): (s: string)
    ensures |s| > 0 && ' ' !in s
  {
    if n < 0 then "-" + ShowNat(-n) else ShowNat(n)
  }

  /** Each key of the sequence followed by one space. */
  function Render(keys: seq<int>): string
  {
    if keys == [] then "" else Show(keys[0]) + " " + Render(keys[1..])
  }

  /** printInorderTraversal: left, root, right. */
  function InorderText(t: Tree): string
  {
    match t
    case Nil => ""
    case Node(_, l, k, r) => InorderText(l) + Show(k) + " " + InorderText(r)
  }

  /** printPreorderTraversal: the root, then the INORDER text of each subtree. */
  function PreorderText(t: Tree): string
  {
    match t
    case Nil => ""
    case Node(_, l, k, r) => Show(k) + " " + InorderText(l) + InorderText(r)
  }

  /** printPostorderTraversal: the INORDER text of each subtree, then the root. */
  function PostorderText(t: Tree): string
  {
    match t
    case Nil => ""
    case Node(_, l, k, r) => InorderText(l) + InorderText(r) + Show(k) + " "
  }

  /** `text`: a null selector fails; otherwise the keys of the requested walk,
      each followed by a space. PREORDER and POSTORDER put the root at the two
      ends of the same inorder walks of the subtrees. */
  function Text(t: Tree, traversal: Option<Traversal>): (r: Result<string>)
    ensures r.Failure? <==> traversal.None?
    ensures r.Failure? ==> r.error == IllegalArgument
    ensures traversal == Some(Inorder) ==> r == Success(Render(InorderKeys(t)))
    ensures t.Node? && traversal == Some(Preorder) ==>
              r == Success(Render([t.data] + InorderKeys(t.left) + InorderKeys(t.right)))
    ensures t.Node? && traversal == Some(Postorder) ==>
              r == Success(Render(InorderKeys(t.left) + InorderKeys(t.right) + [t.data]))
    ensures t.Nil? && traversal.Some? ==> r == Success("")
  {
    match traversal
    case None => Failure(IllegalArgument)
    case Some(Inorder) =>
      InorderTextIsRendered(t);
      Success(InorderText(t))
    case Some(Preorder) =>
      OtherTextsAreRendered(t);
      Success(PreorderText(t))
    case Some(Postorder) =>
      OtherTextsAreRendered(t);
      Success(PostorderText(t))
  }

  /** PREORDER and POSTORDER render the root followed or preceded by the two
      inorder walks of the subtrees. */
  lemma OtherTextsAreRendered(t: Tree)
    ensures t.Nil? ==> PreorderText(t) == "" && PostorderText(t) == ""
    ensures t.Node? ==>
      PreorderText(t) == Render([t.data] + InorderKeys(t.left) + InorderKeys(t.right)) &&
      PostorderText(t) == Render(InorderKeys(t.left) + InorderKeys(t.right) + [t.data])
  {
    if t.Node? {
      InorderTextIsRendered(t.left);
      InorderTextIsRendered(t.right);
      RenderKeyFirst(t.data, InorderKeys(t.left), InorderKeys(t.right));
      RenderKeyLast(InorderKeys(t.left), InorderKeys(t.right), t.data);
    }
  }

  lemma {:induction false} RenderAppend(a: seq<int>, b: seq<int>)
    ensures Render(a + b) == Render(a) + Render(b)
  {
    if a != [] {
      assert (a + b)[0] == a[0];
      assert (a + b)[1..] == a[1..] + b;
      RenderAppend(a[1..], b);
      var h := Show(a[0]) + " ";
      calc {
        Render(a + b);
        h + Render(a[1..] + b);
        h + (Render(a[1..]) + Render(b));
        (h + Render(a[1..])) + Render(b);
        Render(a) + Render(b);
      }
    } else {
      assert a + b == b;
    }
  }

  /** The inorder builder renders exactly the inorder key sequence. */
  lemma {:induction false} InorderTextIsRendered(t: Tree)
    ensures InorderText(t) == Render(InorderKeys(t))
  {
    match t
    case Nil =>
    case Node(_, l, k, r) =>
      InorderTextIsRendered(l);
      InorderTextIsRendered(r);
      RenderAroundKey(InorderKeys(l), k, InorderKeys(r));
  }

  lemma RenderAroundKey(a: seq<int>, k: int, b: seq<int>)
    ensures Render(a + [k] + b) == Render(a) + Show(k) + " " + Render(b)
  {
    RenderAppend(a, [k]);
    RenderAppend(a + [k], b);
    RenderOne(k);
  }

  lemma RenderKeyFirst(k: int, a: seq<int>, b: seq<int>)
    ensures Render([k] + a + b) == Show(k) + " " + Render(a) + Render(b)
  {
    RenderAppend([k], a);
    RenderAppend([k] + a, b);
    RenderOne(k);
  }

  lemma RenderKeyLast(a: seq<int>, b: seq<int>, k: int)
    ensures Render(a + b + [k]) == Render(a) + Render(b) + Show(k) + " "
  {
    RenderAppend(a, b);
    RenderAppend(a + b, [k]);
    RenderOne(k);
  }

  lemma RenderOne(k: int)
    ensures Render([k]) == Show(k) + " "
  {
    assert [k][1..] == [];
  }

  /** On a BST the INORDER text lists the keys strictly ascending. */
  lemma InorderTextAscending(t: Tree)
    requires IsBST(t)
    ensures Text(t, Some(Inorder)) == Success(Render(InorderKeys(t)))
    ensures StrictlyIncreasing(InorderKeys(t))
    ensures forall x :: x in InorderKeys(t) <==> x in Keys(t)
  {
    BstIffInorderAscending(t);
    InorderHoldsKeys(t);
  }

  /** A single node renders as its key and one space in every mode. */
  lemma OneNodeTextInEveryMode(c: Color, k: int, traversal: Traversal)
    ensures Text(Node(c, Nil, k, Nil), Some(traversal)) == Success(Show(k) + " ")
  {
    var t := Node(c, Nil, k, Nil);
    assert InorderText(Nil) == "";
    assert InorderText(t) == Show(k) + " ";
    assert PreorderText(t) == Show(k) + " ";
    assert PostorderText(t) == Show(k) + " ";
  }

  // ---------------------------------------------------------------------------
  // BST insertion shared by both variants

  /** Descend as the BST order directs; at the empty position hang a new node
      of colour `c`; an equal key leaves the tree unchanged. */
  function InsertLeaf(t: Tree, v: int, c: Color): (r: Tree)
    ensures Keys(r) == Keys(t) + {v}
    ensures r.Node?
  {
    match t
    case Nil => Node(c, Nil, v, Nil)
    case Node(col, l, k, rt) =>
      if k > v then Node(col, InsertLeaf(l, v, c), k, rt)
      else if k < v then Node(col, l, k, InsertLeaf(rt, v, c))
      else t
  }

  /** Insertion keeps BST ordering, changes nothing for a present key, and
      otherwise adds exactly one node. */
  lemma {:induction false} InsertLeafKeepsOrder(t: Tree, v: int, c: Color)
    requires IsBST(t)
    ensures IsBST(InsertLeaf(t, v, c))
    ensures v in Keys(t) ==> InsertLeaf(t, v, c) == t
    ensures Count(InsertLeaf(t, v, c)) == if v in Keys(t) then Count(t) else Count(t) + 1
  {
    match t
    case Nil =>
    case Node(col, l, k, r) =>
      if k > v {
        InsertLeafKeepsOrder(l, v, c);
        assert v !in Keys(r);
      } else if k < v {
        InsertLeafKeepsOrder(r, v, c);
        assert v !in Keys(l);
      }
  }
}
