/**
  The insertion scenarios of the Red-Black test suite, stated on the pure
  `RbInsert` that `RedBlackTree.Insert` is proved to follow: the node tree
  each insertion leaves behind, and the height, size and keys the tests
  observe. Every step names the fixup case it exercises.
*/
module Scenarios {
  import opened Common
  import opened Engine
  import opened Balance

  function Leaf(c: Color, k: int): Tree
  {
    Node(c, Nil, k, Nil)
  }

  // ---------------------------------------------------------------------------
  // After clear(): 10, 9, 15, 13, 12, then 19

  /** The first key of an empty tree becomes a BLACK root; 9 and 15 then
      hang RED below the BLACK root. */
  lemma FirstThreeKeys()
    ensures RbInsert(RbInsert(RbInsert(Nil, 10), 9), 15) == Node(Black, Leaf(Red, 9), 10, Leaf(Red, 15))
  {
    assert RbInsert(Nil, 10) == Leaf(Black, 10);
    assert Descend(Leaf(Black, 10), 9, []) == Vacant([HoleLeft(Black, 10, Nil)]);
    var t := Node(Black, Leaf(Red, 9), 10, Nil);
    assert Descend(t, 15, []) == Vacant([HoleRight(Leaf(Red, 9), Black, 10)]);
  }

  /** 13 meets a RED parent 15 and a RED uncle 9: both turn BLACK, and the
      root, turned RED, is recoloured BLACK. */
  lemma Insert13RecoloursUncle()
    ensures RbInsert(Node(Black, Leaf(Red, 9), 10, Leaf(Red, 15)), 13) ==
            Node(Black, Leaf(Black, 9), 10, Node(Black, Leaf(Red, 13), 15, Nil))
  {
    var t := Node(Black, Leaf(Red, 9), 10, Leaf(Red, 15));
    assert Descend(t, 13, []) == Vacant([HoleLeft(Red, 15, Nil), HoleRight(Leaf(Red, 9), Black, 10)]);
  }

  /** 12 is an outer grandchild below the RED 13 with no uncle: a right
      rotation at 15 puts 13 on top. */
  lemma Insert12RotatesOuter()
    ensures RbInsert(Node(Black, Leaf(Black, 9), 10, Node(Black, Leaf(Red, 13), 15, Nil)), 12) ==
            Node(Black, Leaf(Black, 9), 10, Node(Black, Leaf(Red, 12), 13, Leaf(Red, 15)))
  {
    var t := Node(Black, Leaf(Black, 9), 10, Node(Black, Leaf(Red, 13), 15, Nil));
    var f1, f2 := HoleLeft(Black, 15, Nil), HoleRight(Leaf(Black, 9), Black, 10);
    assert [f2] + [] == [f2] && [f1] + [f2] == [f1, f2];
    assert Descend(t, 12, []) == Descend(t.right, 12, [f2]);
    assert Descend(t.right, 12, [f2]) == Descend(t.right.left, 12, [f1, f2]);
    assert [HoleLeft(Red, 13, Nil)] + [f1, f2] == [HoleLeft(Red, 13, Nil), f1, f2];
    assert Descend(t, 12, []) == Vacant([HoleLeft(Red, 13, Nil), f1, f2]);
  }

  /** 19 meets a RED parent 15 and a RED uncle 12: the recolouring turns 13
      RED, whose parent, the root, is BLACK. */
  lemma Insert19RecoloursUncle()
    ensures RbInsert(Node(Black, Leaf(Black, 9), 10, Node(Black, Leaf(Red, 12), 13, Leaf(Red, 15))), 19) ==
            Node(Black, Leaf(Black, 9), 10, Node(Red, Leaf(Black, 12), 13, Node(Black, Nil, 15, Leaf(Red, 19))))
  {
    var t := Node(Black, Leaf(Black, 9), 10, Node(Black, Leaf(Red, 12), 13, Leaf(Red, 15)));
    var f1, f2 := HoleRight(Leaf(Red, 12), Black, 13), HoleRight(Leaf(Black, 9), Black, 10);
    assert [f2] + [] == [f2] && [f1] + [f2] == [f1, f2];
    assert Descend(t, 19, []) == Descend(t.right, 19, [f2]);
    assert Descend(t.right, 19, [f2]) == Descend(t.right.right, 19, [f1, f2]);
    assert [HoleRight(Nil, Red, 15)] + [f1, f2] == [HoleRight(Nil, Red, 15), f1, f2];
    assert Descend(t, 19, []) == Vacant([HoleRight(Nil, Red, 15), f1, f2]);
  }

  /** The tree after the six insertions: four levels, six nodes, and the
      red-black rules hold. */
  lemma SixKeyTree()
    ensures var t := Node(Black, Leaf(Black, 9), 10,
                          Node(Red, Leaf(Black, 12), 13, Node(Black, Nil, 15, Leaf(Red, 19))));
            Height(t) == 4 && Count(t) == 6 && IsRedBlack(t)
  {
    var r := Node(Red, Leaf(Black, 12), 13, Node(Black, Nil, 15, Leaf(Red, 19)));
    assert BlackHeight(r) == 1 && BlackBalanced(r) && NoRedRed(r);
  }

  /** Inserting 10, 9, 15, 13, 12 and 19 into an empty tree gives height 4
      and six nodes: balanced, though not perfectly. */
  lemma NotPerfectlyBalanced()
    ensures var t := RbInsert(RbInsert(RbInsert(RbInsert(RbInsert(RbInsert(Nil, 10), 9), 15), 13), 12), 19);
            Height(t) == 4 && Count(t) == 6 && IsRedBlack(t)
  {
    FirstThreeKeys();
    Insert13RecoloursUncle();
    Insert12RotatesOuter();
    Insert19RecoloursUncle();
    SixKeyTree();
  }

  // ---------------------------------------------------------------------------
  // After clear(): 17, 9, 19, 71, then 171

  /** 71 meets a RED parent 19 and a RED uncle 9; the root, turned RED, is
      recoloured BLACK. */
  lemma FourKeysRecoloured()
    ensures RbInsert(RbInsert(RbInsert(RbInsert(Nil, 17), 9), 19), 71) ==
            Node(Black, Leaf(Black, 9), 17, Node(Black, Nil, 19, Leaf(Red, 71)))
  {
    assert RbInsert(Nil, 17) == Leaf(Black, 17);
    assert Descend(Leaf(Black, 17), 9, []) == Vacant([HoleLeft(Black, 17, Nil)]);
    var t2 := Node(Black, Leaf(Red, 9), 17, Nil);
    assert Descend(t2, 19, []) == Vacant([HoleRight(Leaf(Red, 9), Black, 17)]);
    var t3 := Node(Black, Leaf(Red, 9), 17, Leaf(Red, 19));
    assert Descend(t3, 71, []) == Vacant([HoleRight(Nil, Red, 19), HoleRight(Leaf(Red, 9), Black, 17)]);
  }

  /** 171 is an outer grandchild below the RED 71 with no uncle: a left
      rotation at 19 puts 71 on top, BLACK, with 19 and 171 RED. */
  lemma Insert171RotatesOuter()
    ensures RbInsert(Node(Black, Leaf(Black, 9), 17, Node(Black, Nil, 19, Leaf(Red, 71))), 171) ==
            Node(Black, Leaf(Black, 9), 17, Node(Black, Leaf(Red, 19), 71, Leaf(Red, 171)))
  {
    var t := Node(Black, Leaf(Black, 9), 17, Node(Black, Nil, 19, Leaf(Red, 71)));
    var f1, f2 := HoleRight(Nil, Black, 19), HoleRight(Leaf(Black, 9), Black, 17);
    assert [f2] + [] == [f2] && [f1] + [f2] == [f1, f2];
    assert Descend(t, 171, []) == Descend(t.right, 171, [f2]);
    assert Descend(t.right, 171, [f2]) == Descend(t.right.right, 171, [f1, f2]);
    assert [HoleRight(Nil, Red, 71)] + [f1, f2] == [HoleRight(Nil, Red, 71), f1, f2];
    assert Descend(t, 171, []) == Vacant([HoleRight(Nil, Red, 71), f1, f2]);
  }

  /** Inserting 17, 9, 19, 71 and 171 gives height 3, and the exported
      elements are exactly 9, 17, 19, 71 and 171. */
  lemma OuterGrandchildBalanced()
    ensures var t := RbInsert(RbInsert(RbInsert(RbInsert(RbInsert(Nil, 17), 9), 19), 71), 171);
            Height(t) == 3 && |Elements(t)| == 5 &&
            (forall x :: x in Elements(t) <==> x in {9, 17, 19, 71, 171})
  {
    FourKeysRecoloured();
    Insert171RotatesOuter();
    var t := Node(Black, Leaf(Black, 9), 17, Node(Black, Leaf(Red, 19), 71, Leaf(Red, 171)));
    assert Elements(t) == [17, 9, 71, 19, 171];
  }

  // ---------------------------------------------------------------------------
  // The fixture: root 10, then 9, 8, 7, 13, 11, 19

  /** 8 is an outer grandchild below the RED 9 with no uncle: a right
      rotation at the root 10 puts 9 on top. */
  lemma FixtureFirstKeys()
    ensures RbInsert(RbInsert(Leaf(Black, 10), 9), 8) == Node(Black, Leaf(Red, 8), 9, Leaf(Red, 10))
  {
    assert Descend(Leaf(Black, 10), 9, []) == Vacant([HoleLeft(Black, 10, Nil)]);
    var t := Node(Black, Leaf(Red, 9), 10, Nil);
    assert Descend(t, 8, []) == Vacant([HoleLeft(Red, 9, Nil), HoleLeft(Black, 10, Nil)]);
  }

  /** 7 meets a RED parent 8 and a RED uncle 10; 13 hangs below the BLACK 10. */
  lemma FixtureMiddleKeys()
    ensures RbInsert(RbInsert(Node(Black, Leaf(Red, 8), 9, Leaf(Red, 10)), 7), 13) ==
            Node(Black, Node(Black, Leaf(Red, 7), 8, Nil), 9, Node(Black, Nil, 10, Leaf(Red, 13)))
  {
    var t := Node(Black, Leaf(Red, 8), 9, Leaf(Red, 10));
    assert Descend(t, 7, []) == Vacant([HoleLeft(Red, 8, Nil), HoleLeft(Black, 9, Leaf(Red, 10))]);
    var t' := Node(Black, Node(Black, Leaf(Red, 7), 8, Nil), 9, Leaf(Black, 10));
    assert Descend(t', 13, []) == Vacant([HoleRight(Nil, Black, 10), HoleRight(Node(Black, Leaf(Red, 7), 8, Nil), Black, 9)]);
  }

  /** 11 is an inner grandchild below the RED 13 with no uncle: a right
      rotation at 13 and a left rotation at 10 put 11 on top. */
  lemma FixtureInsert11RotatesInner()
    ensures var n8 := Node(Black, Leaf(Red, 7), 8, Nil);
            RbInsert(Node(Black, n8, 9, Node(Black, Nil, 10, Leaf(Red, 13))), 11) ==
            Node(Black, n8, 9, Node(Black, Leaf(Red, 10), 11, Leaf(Red, 13)))
  {
    var n8 := Node(Black, Leaf(Red, 7), 8, Nil);
    var t := Node(Black, n8, 9, Node(Black, Nil, 10, Leaf(Red, 13)));
    var f1, f2 := HoleRight(Nil, Black, 10), HoleRight(n8, Black, 9);
    assert [f2] + [] == [f2] && [f1] + [f2] == [f1, f2];
    assert Descend(t, 11, []) == Descend(t.right, 11, [f2]);
    assert Descend(t.right, 11, [f2]) == Descend(t.right.right, 11, [f1, f2]);
    assert [HoleLeft(Red, 13, Nil)] + [f1, f2] == [HoleLeft(Red, 13, Nil), f1, f2];
    assert Descend(t, 11, []) == Vacant([HoleLeft(Red, 13, Nil), f1, f2]);
  }

  /** 19 meets a RED parent 13 and a RED uncle 10: the recolouring turns 11
      RED below the BLACK root. */
  lemma FixtureInsert19RecoloursUncle()
    ensures var n8 := Node(Black, Leaf(Red, 7), 8, Nil);
            RbInsert(Node(Black, n8, 9, Node(Black, Leaf(Red, 10), 11, Leaf(Red, 13))), 19) ==
            Node(Black, n8, 9, Node(Red, Leaf(Black, 10), 11, Node(Black, Nil, 13, Leaf(Red, 19))))
  {
    var n8 := Node(Black, Leaf(Red, 7), 8, Nil);
    var t := Node(Black, n8, 9, Node(Black, Leaf(Red, 10), 11, Leaf(Red, 13)));
    var f1, f2 := HoleRight(Leaf(Red, 10), Black, 11), HoleRight(n8, Black, 9);
    assert [f2] + [] == [f2] && [f1] + [f2] == [f1, f2];
    assert Descend(t, 19, []) == Descend(t.right, 19, [f2]);
    assert Descend(t.right, 19, [f2]) == Descend(t.right.right, 19, [f1, f2]);
    assert [HoleRight(Nil, Red, 13)] + [f1, f2] == [HoleRight(Nil, Red, 13), f1, f2];
    assert Descend(t, 19, []) == Vacant([HoleRight(Nil, Red, 13), f1, f2]);
  }

  /** The Red-Black fixture: the tree `RedBlackTree(10)` holds after the
      inserts 9, 8, 7, 13, 11 and 19. */
  function RbFixture(): Tree
  {
    RbInsert(RbInsert(RbInsert(RbInsert(RbInsert(RbInsert(Leaf(Black, 10), 9), 8), 7), 13), 11), 19)
  }

  /** The fixture has seven nodes on four levels. */
  lemma RbFixtureShape()
    ensures RbFixture() ==
            Node(Black, Node(Black, Leaf(Red, 7), 8, Nil), 9,
                 Node(Red, Leaf(Black, 10), 11, Node(Black, Nil, 13, Leaf(Red, 19))))
    ensures Height(RbFixture()) == 4 && Count(RbFixture()) == 7
  {
    FixtureFirstKeys();
    FixtureMiddleKeys();
    FixtureInsert11RotatesInner();
    FixtureInsert19RecoloursUncle();
  }

  /** 12 hangs RED below the BLACK 13 of the fixture, with nothing to repair. */
  lemma FixtureInsert12()
    ensures var n8 := Node(Black, Leaf(Red, 7), 8, Nil);
            RbInsert(Node(Black, n8, 9, Node(Red, Leaf(Black, 10), 11, Node(Black, Nil, 13, Leaf(Red, 19)))), 12) ==
            Node(Black, n8, 9, Node(Red, Leaf(Black, 10), 11, Node(Black, Leaf(Red, 12), 13, Leaf(Red, 19))))
  {
    var n8 := Node(Black, Leaf(Red, 7), 8, Nil);
    var t := Node(Black, n8, 9, Node(Red, Leaf(Black, 10), 11, Node(Black, Nil, 13, Leaf(Red, 19))));
    var f1, f2 := HoleRight(Leaf(Black, 10), Red, 11), HoleRight(n8, Black, 9);
    assert [f2] + [] == [f2] && [f1] + [f2] == [f1, f2];
    assert Descend(t, 12, []) == Descend(t.right, 12, [f2]);
    assert Descend(t.right, 12, [f2]) == Descend(t.right.right, 12, [f1, f2]);
    assert [HoleLeft(Black, 13, Leaf(Red, 19))] + [f1, f2] == [HoleLeft(Black, 13, Leaf(Red, 19)), f1, f2];
    assert Descend(t, 12, []) == Vacant([HoleLeft(Black, 13, Leaf(Red, 19)), f1, f2]);
  }

  /** Inserting 12 into the fixture leaves the height at 4, and 12 is
      found afterwards. */
  lemma Insert12KeepsFixtureHeight()
    ensures Height(RbInsert(RbFixture(), 12)) == Height(RbFixture())
    ensures SafeContainsKey(RbInsert(RbFixture(), 12), 12)
  {
    RbFixtureShape();
    FixtureInsert12();
  }

  /** Inserting 7, already in the fixture, leaves the tree, its elements and
      its height as they were. */
  lemma DuplicateLeavesFixture()
    ensures RbInsert(RbFixture(), 7) == RbFixture()
  {
    RbFixtureShape();
    var t := RbFixture();
    assert Descend(t, 7, []) == Found;
  }
}
