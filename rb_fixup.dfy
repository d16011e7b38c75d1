/** What the fix-up pass achieves on a modelled arena: the shape stays a
    search tree over the same nodes in the same order, black heights stay
    uniform, and the one red node with a red parent is either moved up two
    levels or removed. */
module RbFixUp {
  import opened RbShape
  import opened RbArena

  /** Some assignment of black heights fits every node. */
  ghost predicate HasBlackHeights(a: Rb) {
    exists h :: BlackHeights(a, h)
  }

  /** The state at the start of every fix-up pass on node `z`. */
  ghost predicate FixInv(t: Tree, a: Rb, z: int) {
    Models(t, a) && HasBlackHeights(a) && RedOKExcept(a, z)
    && (z == -1 || z in Ids(t))
    && (IsBlack(a, a.root) || z == a.root)
  }

  /** The state after the last pass: some tree over the same in-order
      sequence is stored, black heights are uniform and no red node has a
      red parent. */
  ghost predicate Repaired(t: Tree, b: Rb) {
    (exists t' :: Models(t', b) && InOrder(t') == InOrder(t))
    && HasBlackHeights(b) && RedOK(b)
  }

  /** In a modelled arena only the root has a null parent; any other node
      is a child of its parent and one level deeper. */
  lemma ModelsParent(t: Tree, a: Rb, x: int)
    requires Models(t, a) && 0 <= x < |a.left|
    ensures Parent(a, x) == -1 <==> x == a.root
    ensures Parent(a, x) != -1 ==>
      0 <= Parent(a, x) < |a.left| && IsChildOf(a, x, Parent(a, x))
      && Depth(t, x) == Depth(t, Parent(a, x)) + 1
  {
    assert x in Ids(t);
    RepresentsAt(t, -1, a, x);
    ParentInCases(t, -1, x);
    var q := ParentIn(t, -1, x);
    if q != -1 {
      assert q in Ids(t);
      ChildDepth(t, q, x);
      RepresentsAt(t, -1, a, q);
    }
  }

  /** Painting changes no link. */
  lemma ModelsPaint(t: Tree, a: Rb, x: int, black: bool)
    requires Models(t, a)
    ensures Models(t, Paint(a, x, black))
  {
    RepresentsFrame(t, -1, a, Paint(a, x, black));
  }

  /** A red node `z` with a red parent: the parent is not the root, so the
      grandparent exists, is black, and holds the parent on the side
      `IsLeftChild` reports. */
  lemma Family(t: Tree, a: Rb, z: int)
    requires FixInv(t, a, z) && z != -1 && !IsBlack(a, z) && !IsBlack(a, Parent(a, z))
    ensures var p := Parent(a, z);
      var g := Parent(a, p);
      0 <= z < |a.left| && 0 <= p < |a.left| && 0 <= g < |a.left|
      && IsChildOf(a, z, p) && IsChildOf(a, p, g) && Child(a, g, IsLeftChild(a, p)) == p
      && z != a.root && p != a.root && IsBlack(a, a.root) && IsBlack(a, g)
      && Depth(t, z) == Depth(t, p) + 1 && Depth(t, p) == Depth(t, g) + 1
      && (Parent(a, g) != -1 ==> Depth(t, g) == Depth(t, Parent(a, g)) + 1)
  {
    var p := Parent(a, z);
    assert 0 <= z < |a.left|;
    ModelsParent(t, a, z);
    ModelsParent(t, a, p);
    var g := Parent(a, p);
    ModelsParent(t, a, g);
    assert RedAt(a, p);
  }

  /** Uncle red: the pass recolours and moves on to the grandparent, two
      levels up, with every invariant kept. */
  lemma RecolourCase(t: Tree, a: Rb, z: int)
    requires FixInv(t, a, z) && z != -1 && !IsBlack(a, z) && !IsBlack(a, Parent(a, z))
    requires !IsBlack(a, Child(a, Parent(a, Parent(a, z)), !IsLeftChild(a, Parent(a, z))))
    ensures var (b, next) := FixStep(a, z, true);
      next == Parent(a, Parent(a, z)) && next != -1
      && FixInv(t, b, next) && Depth(t, next) < Depth(t, z)
  {
    Family(t, a, z);
    var p := Parent(a, z);
    var g := Parent(a, p);
    var side := IsLeftChild(a, p);
    var u := Child(a, g, !side);
    ModelsLinked(t, a);
    assert IsChildOf(a, u, g);
    var h :| BlackHeights(a, h);
    RecolourColours(a, h, z, p, g, u);
    assert a.root != u;
    RecolourInv(t, a, h[p := h[p] + 1][u := h[u] + 1], p, g, u);
    RecolourStep(a, z, u);
  }

  /** The three paints of the recolour case leave the fix-up state at the
      grandparent `g`. */
  lemma RecolourInv(t: Tree, a: Rb, h: seq<nat>, p: int, g: int, u: int)
    requires Models(t, a) && 0 <= g < |a.left| && IsBlack(a, a.root) && a.root != u && a.root != p
    requires var b := Paint(Paint(Paint(a, u, true), p, true), g, false);
      BlackHeights(b, h) && RedOKExcept(b, g)
    ensures FixInv(t, Paint(Paint(Paint(a, u, true), p, true), g, false), g)
  {
    var b1 := Paint(a, u, true);
    var b2 := Paint(b1, p, true);
    ModelsPaint(t, a, u, true);
    ModelsPaint(t, b1, p, true);
    ModelsPaint(t, b2, g, false);
    assert g in Ids(t);
  }

  /** The pass in the uncle-red case, unfolded. */
  lemma RecolourStep(a: Rb, z: int, u: int)
    requires !IsBlack(a, z) && !IsBlack(a, Parent(a, z)) && Parent(a, z) != a.root
    requires u == Child(a, Parent(a, Parent(a, z)), !IsLeftChild(a, Parent(a, z))) && !IsBlack(a, u)
    ensures var p := Parent(a, z);
      FixStep(a, z, true) == (Paint(Paint(Paint(a, u, true), p, true), Parent(a, p), false), Parent(a, p))
  {
  }

  /** Uncle black, `z` on the outer side: one rotation of the parent over
      the grandparent and three paints end the pass with everything
      repaired. */
  lemma OuterCase(t: Tree, a: Rb, z: int)
    requires FixInv(t, a, z) && z != -1 && !IsBlack(a, z) && !IsBlack(a, Parent(a, z))
    requires IsBlack(a, Child(a, Parent(a, Parent(a, z)), !IsLeftChild(a, Parent(a, z))))
    requires IsLeftChild(a, z) == IsLeftChild(a, Parent(a, z))
    ensures FixStep(a, z, true).1 == -1 && Repaired(t, FixStep(a, z, true).0)
  {
    OuterShape(t, a, z);
    OuterStep(a, z);
    var p := Parent(a, z);
    var h :| BlackHeights(a, h);
    OuterResult(t, a, h, z, p, Parent(a, p), IsLeftChild(a, p));
  }

  /** The links around `z` in the outer case. */
  lemma OuterShape(t: Tree, a: Rb, z: int)
    requires FixInv(t, a, z) && z != -1 && !IsBlack(a, z) && !IsBlack(a, Parent(a, z))
    requires IsLeftChild(a, z) == IsLeftChild(a, Parent(a, z))
    ensures var p := Parent(a, z);
      var g := Parent(a, p);
      var side := IsLeftChild(a, p);
      Linked(a) && RotationSite(a, p, g) && Related(a, p, g)
      && 0 <= z < |a.left| && Child(a, p, side) == z && z != Child(a, p, !side)
      && Child(a, g, side) == p && z != p && z != g && Parent(a, g) != z && IsBlack(a, g)
  {
    Family(t, a, z);
    var p := Parent(a, z);
    var g := Parent(a, p);
    ModelsLinked(t, a);
    ModelsSite(t, a, p, g);
    assert Left(a, p) != -1 ==> Left(a, p) != Right(a, p);
  }

  /** The colours and the tree after the outer case. */
  lemma OuterResult(t: Tree, a: Rb, h: seq<nat>, z: int, p: int, g: int, side: bool)
    requires Models(t, a) && Linked(a) && BlackHeights(a, h) && RedOKExcept(a, z)
    requires RotationSite(a, p, g) && Related(a, p, g)
    requires 0 <= z < |a.left| && Parent(a, z) == p && Child(a, p, side) == z && Child(a, g, side) == p
    requires z != p && z != g && Parent(a, g) != z
    requires !IsBlack(a, z) && !IsBlack(a, p) && IsBlack(a, Child(a, g, !side))
    ensures Repaired(t, Paint(Paint(Paint(Rotate(a, p, g), z, false), p, true), g, false))
  {
    OuterColours(a, h, z, p, g, side);
    var r := Rotate(a, p, g);
    var b := Paint(Paint(Paint(r, z, false), p, true), g, false);
    RotatePreservesModel(t, a, p, g);
    var t' := RotTree(t, p, g);
    ModelsPaint(t', r, z, false);
    ModelsPaint(t', Paint(r, z, false), p, true);
    ModelsPaint(t', Paint(Paint(r, z, false), p, true), g, false);
    assert Models(t', b) && InOrder(t') == InOrder(t);
    assert BlackHeights(b, h[g := h[p]][p := h[g]]);
  }

  /** The pass in the outer uncle-black case, unfolded. */
  lemma OuterStep(a: Rb, z: int)
    requires !IsBlack(a, z) && !IsBlack(a, Parent(a, z))
    requires RotationSite(a, Parent(a, z), Parent(a, Parent(a, z)))
    requires IsBlack(a, Child(a, Parent(a, Parent(a, z)), !IsLeftChild(a, Parent(a, z))))
    requires IsLeftChild(a, z) == IsLeftChild(a, Parent(a, z))
    requires Child(a, Parent(a, z), IsLeftChild(a, Parent(a, z))) == z
    requires z != Child(a, Parent(a, z), !IsLeftChild(a, Parent(a, z)))
    requires z != Parent(a, Parent(a, z))
    ensures var p := Parent(a, z);
      var g := Parent(a, p);
      FixStep(a, z, true) == (Paint(Paint(Paint(Rotate(a, p, g), z, false), p, true), g, false), -1)
  {
    var p := Parent(a, z);
    var g := Parent(a, p);
    RotateAt(a, p, g, z);
    RotateAt(a, p, g, p);
  }

  /** Uncle black, `z` on the inner side: after rotating `z` over `p` the
      pass is exactly the outer case on `p`, so it ends with everything
      repaired. */
  lemma InnerCase(t: Tree, a: Rb, z: int)
    requires FixInv(t, a, z) && z != -1 && !IsBlack(a, z) && !IsBlack(a, Parent(a, z))
    requires IsBlack(a, Child(a, Parent(a, Parent(a, z)), !IsLeftChild(a, Parent(a, z))))
    requires IsLeftChild(a, z) != IsLeftChild(a, Parent(a, z))
    ensures FixStep(a, z, true).1 == -1 && Repaired(t, FixStep(a, z, true).0)
  {
    var p := Parent(a, z);
    InnerShape(t, a, z);
    InnerStep(a, z);
    var a1 := Rotate(a, z, p);
    var t1 := RotTree(t, z, p);
    RotatePreservesModel(t, a, z, p);
    InnerMid(t, a, z);
    OuterCase(t1, a1, p);
    var b := FixStep(a1, p, true).0;
    var t' :| Models(t', b) && InOrder(t') == InOrder(t1);
    assert Models(t', b) && InOrder(t') == InOrder(t);
  }

  /** The links around `z` in the inner case. */
  lemma InnerShape(t: Tree, a: Rb, z: int)
    requires FixInv(t, a, z) && z != -1 && !IsBlack(a, z) && !IsBlack(a, Parent(a, z))
    requires IsLeftChild(a, z) != IsLeftChild(a, Parent(a, z))
    ensures var p := Parent(a, z);
      var g := Parent(a, p);
      var side := IsLeftChild(a, p);
      Linked(a) && RotationSite(a, z, p) && Related(a, z, p) && !IsChildOf(a, p, z)
      && Child(a, p, !side) == z && Child(a, g, side) == p && g != -1
  {
    Family(t, a, z);
    var p := Parent(a, z);
    ModelsLinked(t, a);
    ModelsSite(t, a, z, p);
    assert IsChildOf(a, p, z) <==> Parent(a, p) == z;
  }

  /** Rotating `z` over `p` in the inner case leaves the start of an outer
      case on `p`. */
  lemma InnerMid(t: Tree, a: Rb, z: int)
    requires FixInv(t, a, z) && z != -1 && !IsBlack(a, z) && !IsBlack(a, Parent(a, z))
    requires IsBlack(a, Child(a, Parent(a, Parent(a, z)), !IsLeftChild(a, Parent(a, z))))
    requires IsLeftChild(a, z) != IsLeftChild(a, Parent(a, z))
    requires Models(RotTree(t, z, Parent(a, z)), Rotate(a, z, Parent(a, z)))
    ensures var p := Parent(a, z);
      var a1 := Rotate(a, z, p);
      FixInv(RotTree(t, z, p), a1, p) && !IsBlack(a1, p) && !IsBlack(a1, Parent(a1, p))
      && IsBlack(a1, Child(a1, Parent(a1, Parent(a1, p)), !IsLeftChild(a1, Parent(a1, p))))
      && IsLeftChild(a1, p) == IsLeftChild(a1, Parent(a1, p))
  {
    Family(t, a, z);
    InnerShape(t, a, z);
    var p := Parent(a, z);
    var g := Parent(a, p);
    var side := IsLeftChild(a, p);
    var a1 := Rotate(a, z, p);
    var h :| BlackHeights(a, h);
    InnerFirstColours(a, h, z, p, g, side);
    RotateAt(a, z, p, p);
    RotateAt(a, z, p, z);
    RotateAt(a, z, p, g);
    RotateAt(a, z, p, a.root);
    assert p in Ids(RotTree(t, z, p));
  }

  /** The pass in the inner uncle-black case equals the pass on `p` after
      the first rotation. */
  lemma InnerStep(a: Rb, z: int)
    requires !IsBlack(a, z) && !IsBlack(a, Parent(a, z))
    requires RotationSite(a, z, Parent(a, z)) && !IsChildOf(a, Parent(a, z), z)
    requires IsBlack(a, Child(a, Parent(a, Parent(a, z)), !IsLeftChild(a, Parent(a, z))))
    requires IsLeftChild(a, z) != IsLeftChild(a, Parent(a, z))
    requires Child(a, Parent(a, Parent(a, z)), IsLeftChild(a, Parent(a, z))) == Parent(a, z)
    requires Parent(a, Parent(a, z)) != -1
    ensures FixStep(a, z, true) == FixStep(Rotate(a, z, Parent(a, z)), Parent(a, z), true)
  {
    var p := Parent(a, z);
    var g := Parent(a, p);
    RotateAt(a, z, p, p);
    RotateAt(a, z, p, z);
    RotateAt(a, z, p, g);
  }

  /** One pass of the corrected fix-up either repairs the arena or moves
      the violation to a node strictly closer to the root. */
  lemma FixStepCorrect(t: Tree, a: Rb, z: int)
    requires FixInv(t, a, z)
    ensures var (b, next) := FixStep(a, z, true);
      (next == -1 ==> Repaired(t, b))
      && (next != -1 ==> z != -1 && FixInv(t, b, next) && Depth(t, next) < Depth(t, z))
  {
    if IsBlack(a, z) || IsBlack(a, Parent(a, z)) {
      assert RedAt(a, z);
      assert RedOK(a);
      assert Models(t, a) && InOrder(t) == InOrder(t);
    } else if !IsBlack(a, Child(a, Parent(a, Parent(a, z)), !IsLeftChild(a, Parent(a, z)))) {
      RecolourCase(t, a, z);
    } else if IsLeftChild(a, z) == IsLeftChild(a, Parent(a, z)) {
      OuterCase(t, a, z);
    } else {
      InnerCase(t, a, z);
    }
  }

  /** What the in-place fix-up needs about one pass: when it stops, the
      arena is repaired and final; otherwise the invariant holds at the
      next node, with fuel to spare, and the rest of the fix-up starts
      there. */
  lemma FixPassFacts(t: Tree, a: Rb, z: int, fuel: nat)
    requires FixInv(t, a, z) && (z != -1 ==> fuel > Depth(t, z))
    ensures var (b, next) := FixStep(a, z, true);
      (next == -1 ==> Repaired(t, b) && (fuel > 0 ==> FixUp(a, z, fuel) == b))
      && (next != -1 ==>
            (fuel > 0 && FixInv(t, b, next) && fuel - 1 > Depth(t, next)
             && FixUp(a, z, fuel) == FixUp(b, next, fuel - 1)))
  {
    FixStepCorrect(t, a, z);
  }

  /** With more passes allowed than `z` is deep, the corrected fix-up
      leaves a red-black arena over the same in-order sequence. */
  lemma {:induction false} FixUpCorrect(t: Tree, a: Rb, z: int, fuel: nat)
    requires FixInv(t, a, z) && (z != -1 ==> fuel > Depth(t, z))
    ensures Repaired(t, FixUp(a, z, fuel))
    decreases fuel
  {
    if fuel == 0 {
      assert Models(t, a) && InOrder(t) == InOrder(t);
    } else {
      var b, next := FixPassOutcome(t, a, z, fuel);
      if next != -1 {
        FixUpCorrect(t, b, next, fuel - 1);
      }
    }
  }

  /** `FixPassFacts` with the pass's result `(b, next)` named. */
  lemma FixPassOutcome(t: Tree, a: Rb, z: int, fuel: nat) returns (b: Rb, next: int)
    requires FixInv(t, a, z) && fuel > 0 && (z != -1 ==> fuel > Depth(t, z))
    ensures next == -1 ==> Repaired(t, b) && FixUp(a, z, fuel) == b
    ensures next != -1 ==> FixInv(t, b, next) && fuel - 1 > Depth(t, next)
    ensures next != -1 ==> FixUp(a, z, fuel) == FixUp(b, next, fuel - 1)
  {
    FixPassFacts(t, a, z, fuel);
    b, next := FixStep(a, z, true).0, FixStep(a, z, true).1;
  }
}
