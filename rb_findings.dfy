/** Two inputs on which the rotation and the fix-up as the source writes
    them go wrong, next to what the corrected versions do on the same
    input. */
module RbFindings {
  import opened RbShape
  import opened RbArena
  import opened RbFixUp

  // ---------------------------------------------------------------------
  // Rotating a child into the root position

  /** Node 0 is the root and node 1 its (red) left child. */
  function TwoNodes(): Rb {
    Rb([1, -1], [-1, -1], [-1, 0], [true, false], 0)
  }

  function TwoNodesTree(): Tree { Node(Node(Leaf, 1, Leaf), 0, Leaf) }

  /** As written, `rotate(1, 0)` makes node 1 the root but leaves its parent
      link at node 0, so the arena no longer stores any tree. */
  lemma RotateAsWrittenAtRoot()
    ensures Models(TwoNodesTree(), TwoNodes())
    ensures var b := RotateAsWritten(TwoNodes(), 1, 0);
      b.root == 1 && Parent(b, 1) == 0 && Parent(b, 0) == 1
      && forall t :: !Models(t, b)
  {
    var t := TwoNodesTree();
    var a := TwoNodes();
    assert Ids(t) == {0, 1};
    var b := RotateAsWritten(a, 1, 0);
    assert b == Rb([-1, -1], [-1, 0], [1, 0], [true, false], 1);
  }

  /** The corrected rotation on the same input stores the rotated tree. */
  lemma RotateAtRoot()
    ensures var b := Rotate(TwoNodes(), 1, 0);
      b.root == 1 && Parent(b, 1) == -1
      && Models(Node(Leaf, 1, Node(Leaf, 0, Leaf)), b)
  {
    var t := TwoNodesTree();
    var a := TwoNodes();
    assert Ids(t) == {0, 1};
    RotatePreservesModel(t, a, 1, 0);
    assert Rotate(a, 1, 0) == Rb([-1, -1], [-1, 0], [1, -1], [true, false], 1);
    assert RotTree(t, 1, 0) == Node(Leaf, 1, Node(Leaf, 0, Leaf));
  }

  // ---------------------------------------------------------------------
  // The recolour case below a red great-grandparent

  /** A valid red-black tree with a red node 7 just attached under red
      node 5. Node 0 is the black root with children 1 (red) and 2; node 1
      has children 3 and 4; node 3 has red children 5 and 6. */
  function Eight(): Rb {
    Rb([1, 3, -1, 5, -1, 7, -1, -1],
       [2, 4, -1, 6, -1, -1, -1, -1],
       [-1, 0, 0, 1, 1, 3, 3, 5],
       [true, false, true, true, true, false, false, false],
       0)
  }

  function EightTree(): Tree {
    Node(Node(Node(Node(Node(Leaf, 7, Leaf), 5, Leaf), 3, Node(Leaf, 6, Leaf)), 1, Node(Leaf, 4, Leaf)),
         0, Node(Leaf, 2, Leaf))
  }

  lemma EightModels()
    ensures Models(EightTree(), Eight()) && Depth(EightTree(), 7) == 4
  {
    EightUnique();
    EightLinks();
    EightIds();
    EightDepth();
  }

  lemma EightIds()
    ensures forall i :: i in Ids(EightTree()) <==> 0 <= i < |Eight().left|
  {
    var t := EightTree();
    assert Ids(t.left.left) == {3, 5, 6, 7};
    assert Ids(t) == {0, 1, 2, 3, 4, 5, 6, 7};
  }

  lemma EightDepth()
    ensures Depth(EightTree(), 7) == 4
  {
    var t := EightTree();
    var t3 := t.left.left;
    assert 7 in Ids(t3.left) && Depth(t3, 7) == 2;
    assert 7 in Ids(t3) && 7 in Ids(t.left);
  }

  lemma EightUnique()
    ensures Unique(EightTree())
  {
    var t := EightTree();
    var t3 := t.left.left;
    assert Ids(t3.left) == {5, 7} && Ids(t3.right) == {6};
    assert Ids(t3) == {3, 5, 6, 7};
    assert Unique(t3);
    assert Ids(t.left) == {1, 3, 4, 5, 6, 7} && Ids(t.right) == {2};
  }

  lemma EightLinks()
    ensures Represents(EightTree(), -1, Eight())
  {
    var t, a := EightTree(), Eight();
    var t3 := t.left.left;
    assert Represents(t3.left.left, 5, a);
    assert Represents(t3.left, 3, a) && Represents(t3.right, 3, a);
    assert Represents(t3, 1, a);
    assert Represents(t.left, 0, a) && Represents(t.right, 0, a);
  }

  lemma EightHeights()
    ensures BlackHeights(Eight(), [2, 1, 1, 1, 1, 0, 0, 0])
  {
    var a := Eight();
    var h: seq<nat> := [2, 1, 1, 1, 1, 0, 0, 0];
    forall x ensures HeightAt(a, h, x) {
      if 0 <= x < 8 {
        assert x == 0 || x == 1 || x == 2 || x == 3 || x == 4 || x == 5 || x == 6 || x == 7;
      }
    }
  }

  lemma EightRed()
    ensures RedOKExcept(Eight(), 7)
  {
    var a := Eight();
    forall x | x != 7 ensures RedAt(a, x) {
      if 0 <= x < 8 {
        assert x == 0 || x == 1 || x == 2 || x == 3 || x == 4 || x == 5 || x == 6;
      }
    }
  }

  lemma EightFixInv()
    ensures FixInv(EightTree(), Eight(), 7) && Depth(EightTree(), 7) == 4
  {
    EightModels();
    EightHeights();
    EightRed();
    assert 7 in Ids(EightTree());
  }

  /** As written, the recolour case recurses only when the parent is the
      root, so after painting 5 and 6 black and 3 red it stops, and red
      node 3 is left under red node 1. */
  lemma FixUpAsWrittenLeavesRedRed(fuel: nat)
    requires fuel >= 1
    ensures var b := FixUpAsWritten(Eight(), 7, fuel);
      !IsBlack(b, 3) && !IsBlack(b, 1) && Parent(b, 3) == 1 && !RedOK(b)
  {
    var a := Eight();
    var b := Paint(Paint(Paint(a, 6, true), 5, true), 3, false);
    assert FixStep(a, 7, false) == (b, -1);
    assert FixUpAsWritten(a, 7, fuel) == b;
    assert !RedAt(b, 3);
  }

  /** The corrected fix-up on the same input removes every red-red pair. */
  lemma FixUpRepairsEight()
    ensures RedOK(FixUp(Eight(), 7, 5))
  {
    EightFixInv();
    FixUpCorrect(EightTree(), Eight(), 7, 5);
  }

  // ---------------------------------------------------------------------
  // The recolour case reaching the root

  /** Keys 10, 5, 15 and then 1 inserted: node 0 (10) is the black root
      with red children 1 (5) and 2 (15), and red node 3 (1) is just
      attached left of node 1. */
  function Four(): Rb {
    Rb([1, 3, -1, -1], [2, -1, -1, -1], [-1, 0, 0, 1], [true, false, false, false], 0)
  }

  /** The corrected recolour case paints 1 and 2 black and the root red,
      and the pass goes on at the root. That root is red with a null
      parent; the next pass stops because a null parent reads as black,
      and `insert` then paints the root black again. */
  lemma FixUpReachesRedRoot()
    ensures var (b, next) := FixStep(Four(), 3, true);
      next == b.root == 0 && !IsBlack(b, 0) && Parent(b, 0) == -1
      && FixStep(b, 0, true) == (b, -1)
  {
    var a := Four();
    var b := Paint(Paint(Paint(a, 2, true), 1, true), 0, false);
    assert FixStep(a, 3, true) == (b, 0);
  }
}
