/** The links and colours of a red-black tree's nodes, stored by node index
    (an arena), and the source's rotation and fix-up on them, statement by
    statement. Index -1 stands for a null reference. Reads through a null
    reference give null links and a black colour; writes through one change
    nothing. */
module RbArena {
  import opened RbShape

  datatype Rb = Rb(left: seq<int>, right: seq<int>, parent: seq<int>, black: seq<bool>, root: int)

  /** All per-node sequences have one entry per node. */
  predicate Wf(a: Rb) {
    |a.right| == |a.left| && |a.parent| == |a.left| && |a.black| == |a.left|
  }

  function Left(a: Rb, x: int): int { if 0 <= x < |a.left| then a.left[x] else -1 }
  function Right(a: Rb, x: int): int { if 0 <= x < |a.right| then a.right[x] else -1 }
  function Parent(a: Rb, x: int): int { if 0 <= x < |a.parent| then a.parent[x] else -1 }
  /** `isBlack` of node `x`; a null node counts as black. */
  function IsBlack(a: Rb, x: int): bool { if 0 <= x < |a.black| then a.black[x] else true }

  function Child(a: Rb, x: int, leftSide: bool): int {
    if leftSide then Left(a, x) else Right(a, x)
  }

  /** Same colours, same root and same number of entries in every sequence. */
  predicate Same(a: Rb, b: Rb) {
    b.black == a.black && b.root == a.root
    && |b.left| == |a.left| && |b.right| == |a.right| && |b.parent| == |a.parent|
  }

  function SetLeft(a: Rb, x: int, v: int): (r: Rb)
    ensures Same(a, r)
  {
    if 0 <= x < |a.left| then a.(left := a.left[x := v]) else a
  }

  function SetRight(a: Rb, x: int, v: int): (r: Rb)
    ensures Same(a, r)
  {
    if 0 <= x < |a.right| then a.(right := a.right[x := v]) else a
  }

  function SetChild(a: Rb, x: int, leftSide: bool, v: int): (r: Rb)
    ensures Same(a, r)
  {
    if leftSide then SetLeft(a, x, v) else SetRight(a, x, v)
  }

  function SetParent(a: Rb, x: int, v: int): (r: Rb)
    ensures Same(a, r)
  {
    if 0 <= x < |a.parent| then a.(parent := a.parent[x := v]) else a
  }

  function Paint(a: Rb, x: int, black: bool): (r: Rb)
    ensures |r.left| == |a.left| && |r.right| == |a.right| && |r.parent| == |a.parent| && |r.black| == |a.black|
    ensures r.left == a.left && r.right == a.right && r.parent == a.parent && r.root == a.root
  {
    if 0 <= x < |a.black| then a.(black := a.black[x := black]) else a
  }

  /** `Node.isLeftChild`: the node has a parent whose left child it is. */
  predicate IsLeftChild(a: Rb, x: int) {
    Parent(a, x) != -1 && Left(a, Parent(a, x)) == x
  }

  // ---------------------------------------------------------------------
  // rotate(child, parent)

  /** `rotate` accepts its arguments only when `c` is a child of `p`. */
  predicate Related(a: Rb, c: int, p: int) {
    c != -1 && (Left(a, p) == c || Right(a, p) == c)
  }

  /** The rotation proper: `leftSide` tells whether `c` is a left child
      (a right rotation) or not (a left rotation). */
  function Turn(a: Rb, c: int, p: int, leftSide: bool): (r: Rb)
    ensures r.black == a.black
    ensures |r.left| == |a.left| && |r.right| == |a.right| && |r.parent| == |a.parent|
  {
    var a1 := SetChild(a, p, leftSide, Child(a, c, !leftSide));
    var a2 := if Child(a1, c, !leftSide) != -1 then SetParent(a1, Child(a1, c, !leftSide), p) else a1;
    var a3 :=
      if p == a2.root then
        var r := a2.(root := c);
        SetChild(SetChild(r, c, leftSide, Child(r, c, leftSide)), c, !leftSide, p)
      else a2;
    SetParent(SetChild(a3, c, !leftSide, p), p, c)
  }

  /** `rotate(c, p)`; `fixed` also clears the parent link of a child rotated
      into the root position, which the source omits. An unrelated pair
      leaves everything unchanged (the source throws). */
  function RotateWith(a: Rb, c: int, p: int, fixed: bool): (r: Rb)
    ensures r.black == a.black
    ensures |r.left| == |a.left| && |r.right| == |a.right| && |r.parent| == |a.parent|
  {
    if !Related(a, c, p) then a
    else
      var gp := Parent(a, p);
      var a1 := Turn(a, c, p, IsLeftChild(a, c));
      if gp != -1 then
        var a2 := SetParent(a1, c, gp);
        if Left(a2, gp) == p then SetLeft(a2, gp, c) else SetRight(a2, gp, c)
      else if fixed then SetParent(a1, c, -1)
      else a1
  }

  function Rotate(a: Rb, c: int, p: int): Rb { RotateWith(a, c, p, true) }

  function RotateAsWritten(a: Rb, c: int, p: int): Rb { RotateWith(a, c, p, false) }

  // ---------------------------------------------------------------------
  // The arena describes a tree

  /** Every node of `t` has exactly the links `t` gives it; the top of `t`
      hangs under `par`. */
  ghost predicate Represents(t: Tree, par: int, a: Rb) {
    match t
    case Leaf => true
    case Node(l, id, r) =>
      0 <= id < |a.left| && Left(a, id) == RootId(l) && Right(a, id) == RootId(r)
      && Parent(a, id) == par && Represents(l, id, a) && Represents(r, id, a)
  }

  /** `t` is the tree stored in the arena: its nodes are exactly the arena's
      indices, each once, the root's parent is null and every link agrees. */
  ghost predicate Models(t: Tree, a: Rb) {
    Wf(a) && Unique(t) && Represents(t, -1, a) && a.root == RootId(t)
    && (forall i :: i in Ids(t) <==> 0 <= i < |a.left|)
  }

  lemma {:induction false} RepresentsAt(t: Tree, par: int, a: Rb, x: int)
    requires Unique(t) && Represents(t, par, a) && x in Ids(t)
    ensures 0 <= x < |a.left|
    ensures Left(a, x) == RootId(LeftOf(Find(t, x))) && Right(a, x) == RootId(RightOf(Find(t, x)))
    ensures Parent(a, x) == ParentIn(t, par, x)
    ensures Represents(Find(t, x), ParentIn(t, par, x), a)
  {
    match t
    case Node(l, id, r) =>
      if x == id {
      } else if x in Ids(l) {
        RepresentsAt(l, id, a, x);
      } else {
        RepresentsAt(r, id, a, x);
      }
  }

  lemma {:induction false} RepresentsIds(t: Tree, par: int, a: Rb, x: int)
    requires Represents(t, par, a) && x in Ids(t)
    ensures 0 <= x < |a.left|
  {
    match t
    case Node(l, id, r) =>
      if x in Ids(l) { RepresentsIds(l, id, a, x); }
      else if x in Ids(r) { RepresentsIds(r, id, a, x); }
  }

  /** Changes outside a subtree's nodes do not matter to it. */
  lemma {:induction false} RepresentsFrame(t: Tree, par: int, a: Rb, b: Rb)
    requires Represents(t, par, a) && |b.left| >= |a.left|
    requires forall y :: y in Ids(t) ==>
      Left(b, y) == Left(a, y) && Right(b, y) == Right(a, y) && Parent(b, y) == Parent(a, y)
    ensures Represents(t, par, b)
  {
    match t
    case Leaf =>
    case Node(l, id, r) =>
      RepresentsFrame(l, id, a, b);
      RepresentsFrame(r, id, a, b);
  }

  /** A subtree that is hung under a new parent. */
  lemma RepresentsReparent(t: Tree, par: int, par': int, a: Rb, b: Rb)
    requires Unique(t) && Represents(t, par, a) && |b.left| == |a.left|
    requires forall y :: y in Ids(t) ==> Left(b, y) == Left(a, y) && Right(b, y) == Right(a, y)
    requires forall y :: y in Ids(t) && y != RootId(t) ==> Parent(b, y) == Parent(a, y)
    requires t.Node? ==> Parent(b, t.id) == par'
    ensures Represents(t, par', b)
  {
    match t
    case Leaf =>
    case Node(l, id, r) =>
      RepresentsFrame(l, id, a, b);
      RepresentsFrame(r, id, a, b);
  }

  /** Replacing the subtree at `x`: the new subtree is described by `b`, and
      `b` agrees with `a` elsewhere except for the link from `x`'s parent. */
  lemma {:induction false} RepresentsReplace(t: Tree, par: int, a: Rb, b: Rb, x: int, s: Tree)
    requires Unique(t) && x in Ids(t) && Represents(t, par, a) && |b.left| == |a.left|
    requires Represents(s, ParentIn(t, par, x), b)
    requires forall y :: y in Ids(t) && y !in Ids(Find(t, x)) && y != ParentIn(t, par, x) ==>
      Left(b, y) == Left(a, y) && Right(b, y) == Right(a, y) && Parent(b, y) == Parent(a, y)
    requires ParentIn(t, par, x) in Ids(t) ==> ParentLinkMoved(a, b, ParentIn(t, par, x), x, RootId(s))
    ensures Represents(Replace(t, x, s), par, b)
    decreases Size(t), 1
  {
    match t
    case Node(l, id, r) =>
      if x == id {
      } else if x in Ids(l) {
        ReplaceBelow(l, id, r, par, a, b, x, s, true);
      } else {
        ReplaceBelow(r, id, l, par, a, b, x, s, false);
      }
  }

  /** `q`'s parent link is kept, and a child link of `q` to `x` now leads to `y`. */
  predicate ParentLinkMoved(a: Rb, b: Rb, q: int, x: int, y: int) {
    Parent(b, q) == Parent(a, q)
    && Left(b, q) == (if Left(a, q) == x then y else Left(a, q))
    && Right(b, q) == (if Right(a, q) == x then y else Right(a, q))
  }

  /** The step of `RepresentsReplace` where `x` lies in the child subtree `k`
      of node `id` (`k` is the left child when `leftSide`), `o` the other child. */
  lemma {:induction false} ReplaceBelow(k: Tree, id: int, o: Tree, par: int, a: Rb, b: Rb,
                                        x: int, s: Tree, leftSide: bool)
    requires var t := if leftSide then Node(k, id, o) else Node(o, id, k);
      Unique(t) && x in Ids(k) && Represents(t, par, a) && |b.left| == |a.left|
      && Represents(s, ParentIn(k, id, x), b)
      && (forall y :: y in Ids(t) && y !in Ids(Find(k, x)) && y != ParentIn(k, id, x) ==>
           Left(b, y) == Left(a, y) && Right(b, y) == Right(a, y) && Parent(b, y) == Parent(a, y))
      && (ParentIn(k, id, x) in Ids(t) ==> ParentLinkMoved(a, b, ParentIn(k, id, x), x, RootId(s)))
    ensures var k' := Replace(k, x, s);
      Represents(if leftSide then Node(k', id, o) else Node(o, id, k'), par, b)
    decreases Size(k) + 1 + Size(o), 0
  {
    var t := if leftSide then Node(k, id, o) else Node(o, id, k);
    var q := ParentIn(k, id, x);
    FindFacts(k, x);
    RepresentsIds(t, par, a, x);
    assert Represents(k, id, a) && Represents(o, id, a);
    if x != RootId(k) {
      ParentInCases(k, id, x);
      FindFacts(k, q);
    }
    assert q == id || q in Ids(k);
    RepresentsReplace(k, id, a, b, x, s);
    forall y | y in Ids(o)
      ensures Left(b, y) == Left(a, y) && Right(b, y) == Right(a, y) && Parent(b, y) == Parent(a, y)
    {
      assert y in Ids(t);
    }
    RepresentsFrame(o, id, a, b);
    var k' := Replace(k, x, s);
    assert RootId(k') == if x == RootId(k) then RootId(s) else RootId(k);
    assert Child(b, id, leftSide) == RootId(k');
    assert Child(b, id, !leftSide) == RootId(o);
  }

  // ---------------------------------------------------------------------
  // What a rotation does to the links

  /** The arena around child `c` and parent `p` looks like part of a tree:
      distinct nodes, consistent parent links, and `p`'s parent is null
      exactly when `p` is the root. */
  ghost predicate RotationSite(a: Rb, c: int, p: int) {
    Wf(a) && 0 <= c < |a.left| && 0 <= p < |a.left| && c != p && Parent(a, c) == p
    && (Left(a, p) == c) != (Right(a, p) == c)
    && var s := Left(a, p) == c;
       var beta := Child(a, c, !s);
       var gp := Parent(a, p);
       beta != c && beta != p && (beta != -1 ==> 0 <= beta < |a.left|)
       && gp != c && gp != p && (gp != -1 ==> 0 <= gp < |a.left| && gp != beta)
       && (gp == -1 <==> p == a.root)
       && (gp != -1 ==> (Left(a, gp) == p) != (Right(a, gp) == p))
  }

  /** The links after `Turn`, before `p`'s old parent is relinked. */
  lemma TurnFields(a: Rb, c: int, p: int, s: bool)
    requires Wf(a) && 0 <= c < |a.left| && 0 <= p < |a.left| && c != p
    requires var beta := Child(a, c, !s); beta != c && beta != p && beta >= -1 && beta < |a.left|
    ensures var r := Turn(a, c, p, s);
      var beta := Child(a, c, !s);
      Wf(r) && r.root == (if a.root == p then c else a.root)
      && (forall y :: Left(r, y) ==
            if y == p && s then beta else if y == c && !s then p else Left(a, y))
      && (forall y :: Right(r, y) ==
            if y == p && !s then beta else if y == c && s then p else Right(a, y))
      && (forall y :: Parent(r, y) ==
            if y == p then c else if y == beta && beta != -1 then p else Parent(a, y))
  {
    var beta := Child(a, c, !s);
    var r := Turn(a, c, p, s);
    forall y
      ensures Left(r, y) == if y == p && s then beta else if y == c && !s then p else Left(a, y)
      ensures Right(r, y) == if y == p && !s then beta else if y == c && s then p else Right(a, y)
      ensures Parent(r, y) == if y == p then c else if y == beta && beta != -1 then p else Parent(a, y)
    {
      TurnAt(a, c, p, s, y);
    }
  }

  lemma TurnAt(a: Rb, c: int, p: int, s: bool, y: int)
    requires Wf(a) && 0 <= c < |a.left| && 0 <= p < |a.left| && c != p
    requires var beta := Child(a, c, !s); beta != c && beta != p && beta >= -1 && beta < |a.left|
    ensures var r := Turn(a, c, p, s);
      var beta := Child(a, c, !s);
      Left(r, y) == (if y == p && s then beta else if y == c && !s then p else Left(a, y))
      && Right(r, y) == (if y == p && !s then beta else if y == c && s then p else Right(a, y))
      && Parent(r, y) == (if y == p then c else if y == beta && beta != -1 then p else Parent(a, y))
  {
    var beta := Child(a, c, !s);
    var a1 := SetChild(a, p, s, beta);
    var a2 := if beta != -1 then SetParent(a1, beta, p) else a1;
    DetachAt(a, c, p, s, y);
    var a3 :=
      if p == a2.root then
        var r := a2.(root := c);
        SetChild(SetChild(r, c, s, Child(r, c, s)), c, !s, p)
      else a2;
    RerootAt(a2, c, p, s, y);
    FinishAt(a3, c, p, s, y);
  }

  lemma DetachAt(a: Rb, c: int, p: int, s: bool, y: int)
    requires Wf(a) && 0 <= c < |a.left| && 0 <= p < |a.left| && c != p
    requires var beta := Child(a, c, !s); beta != c && beta != p && beta >= -1 && beta < |a.left|
    ensures var beta := Child(a, c, !s);
      var a1 := SetChild(a, p, s, beta);
      var a2 := if beta != -1 then SetParent(a1, beta, p) else a1;
      Wf(a2) && a2.root == a.root && Child(a1, c, !s) == beta
      && Left(a2, y) == (if y == p && s then beta else Left(a, y))
      && Right(a2, y) == (if y == p && !s then beta else Right(a, y))
      && Parent(a2, y) == (if y == beta && beta != -1 then p else Parent(a, y))
  {
  }

  lemma RerootAt(a2: Rb, c: int, p: int, s: bool, y: int)
    requires Wf(a2) && 0 <= c < |a2.left| && 0 <= p < |a2.left| && c != p
    ensures var a3 :=
      if p == a2.root then
        var r := a2.(root := c);
        SetChild(SetChild(r, c, s, Child(r, c, s)), c, !s, p)
      else a2;
      Wf(a3) && a3.root == (if p == a2.root then c else a2.root)
      && Parent(a3, y) == Parent(a2, y) && Child(a3, y, s) == Child(a2, y, s)
      && Child(a3, y, !s) == (if y == c && p == a2.root then p else Child(a2, y, !s))
  {
  }

  lemma FinishAt(a3: Rb, c: int, p: int, s: bool, y: int)
    requires Wf(a3) && 0 <= c < |a3.left| && 0 <= p < |a3.left| && c != p
    ensures var r := SetParent(SetChild(a3, c, !s, p), p, c);
      Wf(r) && r.root == a3.root
      && Child(r, y, s) == Child(a3, y, s)
      && Child(r, y, !s) == (if y == c then p else Child(a3, y, !s))
      && Parent(r, y) == (if y == p then c else Parent(a3, y))
  {
  }

  /** After `rotate(c, p)`: `c` takes `p`'s place (the root or the same link
      of `p`'s old parent), `p` becomes `c`'s child on the far side, and
      `c`'s inner subtree `beta` moves under `p`. Nothing else changes. */
  lemma RotateFields(a: Rb, c: int, p: int)
    requires RotationSite(a, c, p)
    ensures var r := Rotate(a, c, p);
      var s := Left(a, p) == c;
      var beta := Child(a, c, !s);
      var gp := Parent(a, p);
      Wf(r) && |r.left| == |a.left| && r.black == a.black
      && r.root == (if a.root == p then c else a.root)
      && (forall y :: Left(r, y) ==
            if y == p && s then beta
            else if y == c && !s then p
            else if y == gp && Left(a, gp) == p then c
            else Left(a, y))
      && (forall y :: Right(r, y) ==
            if y == p && !s then beta
            else if y == c && s then p
            else if y == gp && Right(a, gp) == p then c
            else Right(a, y))
      && (forall y :: Parent(r, y) ==
            if y == p then c
            else if y == c then gp
            else if y == beta && beta != -1 then p
            else Parent(a, y))
  {
    forall y
      ensures Left(Rotate(a, c, p), y) ==
            if y == p && Left(a, p) == c then Child(a, c, Left(a, p) != c)
            else if y == c && Left(a, p) != c then p
            else if y == Parent(a, p) && Left(a, Parent(a, p)) == p then c
            else Left(a, y)
      ensures Right(Rotate(a, c, p), y) ==
            if y == p && Left(a, p) != c then Child(a, c, Left(a, p) != c)
            else if y == c && Left(a, p) == c then p
            else if y == Parent(a, p) && Right(a, Parent(a, p)) == p then c
            else Right(a, y)
      ensures Parent(Rotate(a, c, p), y) ==
            if y == p then c
            else if y == c then Parent(a, p)
            else if y == Child(a, c, Left(a, p) != c) && Child(a, c, Left(a, p) != c) != -1 then p
            else Parent(a, y)
    {
      RotateAt(a, c, p, y);
    }
    RotateAt(a, c, p, 0);
  }

  /** `RotateFields` at the single node `y`. */
  lemma RotateAt(a: Rb, c: int, p: int, y: int)
    requires RotationSite(a, c, p)
    ensures var r := Rotate(a, c, p);
      var s := Left(a, p) == c;
      var beta := Child(a, c, !s);
      var gp := Parent(a, p);
      Wf(r) && |r.left| == |a.left| && r.black == a.black
      && r.root == (if a.root == p then c else a.root)
      && Left(r, y) == (if y == p && s then beta
            else if y == c && !s then p
            else if y == gp && Left(a, gp) == p then c
            else Left(a, y))
      && Right(r, y) == (if y == p && !s then beta
            else if y == c && s then p
            else if y == gp && Right(a, gp) == p then c
            else Right(a, y))
      && Parent(r, y) == (if y == p then c
            else if y == c then gp
            else if y == beta && beta != -1 then p
            else Parent(a, y))
  {
    var s := Left(a, p) == c;
    assert IsLeftChild(a, c) == s;
    var gp := Parent(a, p);
    TurnFields(a, c, p, s);
    var a1 := Turn(a, c, p, s);
    assert Rotate(a, c, p) == Relink(a1, c, p, gp);
    TurnAt(a, c, p, s, y);
    TurnAt(a, c, p, s, gp);
    RelinkAt(a1, c, p, gp, y);
  }

  /** The last part of the corrected `rotate`: `c` hangs under `gp` in `p`'s place. */
  function Relink(a1: Rb, c: int, p: int, gp: int): Rb {
    if gp != -1 then
      var a2 := SetParent(a1, c, gp);
      if Left(a2, gp) == p then SetLeft(a2, gp, c) else SetRight(a2, gp, c)
    else SetParent(a1, c, -1)
  }

  lemma RelinkAt(a1: Rb, c: int, p: int, gp: int, y: int)
    requires Wf(a1) && 0 <= c < |a1.left| && gp != c && -1 <= gp < |a1.left|
    ensures var r := Relink(a1, c, p, gp);
      Wf(r) && r.root == a1.root && r.black == a1.black
      && Left(r, y) == (if y == gp && gp != -1 && Left(a1, gp) == p then c else Left(a1, y))
      && Right(r, y) == (if y == gp && gp != -1 && Left(a1, gp) != p then c else Right(a1, y))
      && Parent(r, y) == (if y == c then gp else Parent(a1, y))
  {
  }

  // ---------------------------------------------------------------------
  // Rotations keep the arena a tree

  /** In a modelled arena every related pair is a rotation site. */
  lemma ModelsSite(t: Tree, a: Rb, c: int, p: int)
    requires Models(t, a) && Related(a, c, p)
    ensures RotationSite(a, c, p)
    ensures p in Ids(t) && c in Ids(Find(t, p)) && c != p
    ensures Parent(a, p) != -1 ==> Parent(a, p) in Ids(t) && Parent(a, p) !in Ids(Find(t, p))
  {
    assert p in Ids(t);
    var P := Find(t, p);
    FindFacts(t, p);
    FindChild(t, p);
    RepresentsAt(t, -1, a, p);
    var s := Left(a, p) == c;
    ParentInOfChild(t, -1, p, c);
    RepresentsAt(t, -1, a, c);
    assert Find(t, c) == ChildOf(P, s);
    var beta := Child(a, c, !s);
    assert beta == RootId(ChildOf(Find(t, c), !s));
    if beta != -1 {
      FindFacts(t, c);
      assert beta in Ids(Find(t, c));
    }
    var gp := Parent(a, p);
    ParentInCases(t, -1, p);
    if gp != -1 {
      FindFacts(t, gp);
      RepresentsAt(t, -1, a, gp);
      ChildDepth(t, gp, p);
      if gp in Ids(P) { DepthBelow(t, p, gp); }
      assert p != RootId(t);
    }
  }

  /** `rotate` on a modelled arena yields the rotated tree. */
  lemma RotatePreservesModel(t: Tree, a: Rb, c: int, p: int)
    requires Models(t, a) && Related(a, c, p)
    ensures Models(RotTree(t, c, p), Rotate(a, c, p))
    ensures Ids(RotTree(t, c, p)) == Ids(t) && InOrder(RotTree(t, c, p)) == InOrder(t)
    ensures Size(RotTree(t, c, p)) == Size(t)
  {
    ModelsSite(t, a, c, p);
    var r := Rotate(a, c, p);
    var P := Find(t, p);
    FindFacts(t, p);
    RotLocalUnique(P, c);
    var S := RotLocal(P, c);
    var gp := Parent(a, p);
    RepresentsAt(t, -1, a, p);
    RotatedSubtree(t, a, c, p);
    RotateAt(a, c, p, gp);
    forall y | y in Ids(t) && y !in Ids(P) && y != gp
      ensures Left(r, y) == Left(a, y) && Right(r, y) == Right(a, y) && Parent(r, y) == Parent(a, y)
    {
      RotateOutside(t, a, c, p, y);
    }
    RepresentsReplace(t, -1, a, r, p, S);
    ReplaceFacts(t, p, S);
  }

  /** A rotation changes no link of a node outside the rotated subtree
      other than its parent. */
  lemma RotateOutside(t: Tree, a: Rb, c: int, p: int, y: int)
    requires Models(t, a) && Related(a, c, p)
    requires y in Ids(t) && y !in Ids(Find(t, p)) && y != Parent(a, p)
    ensures Left(Rotate(a, c, p), y) == Left(a, y) && Right(Rotate(a, c, p), y) == Right(a, y)
    ensures Parent(Rotate(a, c, p), y) == Parent(a, y)
  {
    ModelsSite(t, a, c, p);
    FindFacts(t, p);
    RotateAt(a, c, p, y);
    GrandchildInside(t, a, c, p, Left(a, p) != c);
  }

  /** A child of `c`, itself a child of `p`, lies in `p`'s subtree. */
  lemma GrandchildInside(t: Tree, a: Rb, c: int, p: int, side: bool)
    requires Models(t, a) && Related(a, c, p)
    ensures Child(a, c, side) != -1 ==> Child(a, c, side) in Ids(Find(t, p))
  {
    ModelsSite(t, a, c, p);
    FindFacts(t, p);
    FindChild(t, p);
    RepresentsAt(t, -1, a, p);
    RepresentsAt(t, -1, a, c);
  }

  /** The rotated subtree is described by the rotated arena. */
  lemma RotatedSubtree(t: Tree, a: Rb, c: int, p: int)
    requires Models(t, a) && Related(a, c, p)
    ensures Represents(RotLocal(Find(t, p), c), Parent(a, p), Rotate(a, c, p))
  {
    ModelsSite(t, a, c, p);
    FindFacts(t, p);
    FindChild(t, p);
    RepresentsAt(t, -1, a, p);
    RepresentsAt(t, -1, a, c);
    if Left(a, p) == c { RotatedRight(t, a, c, p); } else { RotatedLeft(t, a, c, p); }
  }

  lemma RotatedRight(t: Tree, a: Rb, c: int, p: int)
    requires Models(t, a) && Related(a, c, p) && RotationSite(a, c, p) && Left(a, p) == c
    requires p in Ids(t) && Find(t, p).Node? && Find(t, p).id == p && Unique(Find(t, p))
    requires Represents(Find(t, p), Parent(a, p), a) && c == RootId(Find(t, p).left)
    requires Parent(a, p) != -1 ==> Parent(a, p) !in Ids(Find(t, p))
    ensures Represents(RotLocal(Find(t, p), c), Parent(a, p), Rotate(a, c, p))
  {
    var r := Rotate(a, c, p);
    RotateAt(a, c, p, c);
    RotateAt(a, c, p, p);
    RotatedRightOuter(t, a, c, p);
    RotatedRightInner(t, a, c, p);
  }

  /** The subtrees that keep their parent in a right rotation. */
  lemma RotatedRightOuter(t: Tree, a: Rb, c: int, p: int)
    requires Models(t, a) && Related(a, c, p) && RotationSite(a, c, p) && Left(a, p) == c
    requires p in Ids(t) && Find(t, p).Node? && Find(t, p).id == p && Unique(Find(t, p))
    requires Represents(Find(t, p), Parent(a, p), a) && c == RootId(Find(t, p).left)
    requires Parent(a, p) != -1 ==> Parent(a, p) !in Ids(Find(t, p))
    ensures Represents(Find(t, p).left.left, c, Rotate(a, c, p))
    ensures Represents(Find(t, p).right, p, Rotate(a, c, p))
  {
    var r := Rotate(a, c, p);
    var Node(L, _, R) := Find(t, p);
    var al := L.left;
    forall y | y in Ids(al) || y in Ids(R)
      ensures Left(r, y) == Left(a, y) && Right(r, y) == Right(a, y) && Parent(r, y) == Parent(a, y)
    {
      if y in Ids(al) { assert y in Ids(L); }
      RotateAt(a, c, p, y);
    }
    RotateAt(a, c, p, c);
    RepresentsFrame(al, c, a, r);
    RepresentsFrame(R, p, a, r);
  }

  /** The inner subtree moves from `c` to `p` in a right rotation. */
  lemma RotatedRightInner(t: Tree, a: Rb, c: int, p: int)
    requires Models(t, a) && Related(a, c, p) && RotationSite(a, c, p) && Left(a, p) == c
    requires p in Ids(t) && Find(t, p).Node? && Find(t, p).id == p && Unique(Find(t, p))
    requires Represents(Find(t, p), Parent(a, p), a) && c == RootId(Find(t, p).left)
    requires Parent(a, p) != -1 ==> Parent(a, p) !in Ids(Find(t, p))
    ensures Represents(Find(t, p).left.right, p, Rotate(a, c, p))
  {
    var r := Rotate(a, c, p);
    var L := Find(t, p).left;
    var be := L.right;
    forall y | y in Ids(be)
      ensures Left(r, y) == Left(a, y) && Right(r, y) == Right(a, y)
      ensures y != RootId(be) ==> Parent(r, y) == Parent(a, y)
    {
      assert y in Ids(L);
      RotateAt(a, c, p, y);
    }
    RotateAt(a, c, p, RootId(be));
    RotateAt(a, c, p, c);
    RepresentsReparent(be, c, p, a, r);
  }

  lemma RotatedLeft(t: Tree, a: Rb, c: int, p: int)
    requires Models(t, a) && Related(a, c, p) && RotationSite(a, c, p) && Left(a, p) != c
    requires p in Ids(t) && Find(t, p).Node? && Find(t, p).id == p && Unique(Find(t, p))
    requires Represents(Find(t, p), Parent(a, p), a) && c == RootId(Find(t, p).right)
    requires Parent(a, p) != -1 ==> Parent(a, p) !in Ids(Find(t, p))
    ensures Represents(RotLocal(Find(t, p), c), Parent(a, p), Rotate(a, c, p))
  {
    var r := Rotate(a, c, p);
    RotateAt(a, c, p, c);
    RotateAt(a, c, p, p);
    RotatedLeftOuter(t, a, c, p);
    RotatedLeftInner(t, a, c, p);
  }

  /** The subtrees that keep their parent in a left rotation. */
  lemma RotatedLeftOuter(t: Tree, a: Rb, c: int, p: int)
    requires Models(t, a) && Related(a, c, p) && RotationSite(a, c, p) && Left(a, p) != c
    requires p in Ids(t) && Find(t, p).Node? && Find(t, p).id == p && Unique(Find(t, p))
    requires Represents(Find(t, p), Parent(a, p), a) && c == RootId(Find(t, p).right)
    requires Parent(a, p) != -1 ==> Parent(a, p) !in Ids(Find(t, p))
    ensures Represents(Find(t, p).right.right, c, Rotate(a, c, p))
    ensures Represents(Find(t, p).left, p, Rotate(a, c, p))
  {
    var r := Rotate(a, c, p);
    var Node(L, _, R) := Find(t, p);
    var ar := R.right;
    forall y | y in Ids(ar) || y in Ids(L)
      ensures Left(r, y) == Left(a, y) && Right(r, y) == Right(a, y) && Parent(r, y) == Parent(a, y)
    {
      if y in Ids(ar) { assert y in Ids(R); }
      RotateAt(a, c, p, y);
    }
    RotateAt(a, c, p, c);
    RepresentsFrame(ar, c, a, r);
    RepresentsFrame(L, p, a, r);
  }

  /** The inner subtree moves from `c` to `p` in a left rotation. */
  lemma RotatedLeftInner(t: Tree, a: Rb, c: int, p: int)
    requires Models(t, a) && Related(a, c, p) && RotationSite(a, c, p) && Left(a, p) != c
    requires p in Ids(t) && Find(t, p).Node? && Find(t, p).id == p && Unique(Find(t, p))
    requires Represents(Find(t, p), Parent(a, p), a) && c == RootId(Find(t, p).right)
    requires Parent(a, p) != -1 ==> Parent(a, p) !in Ids(Find(t, p))
    ensures Represents(Find(t, p).right.left, p, Rotate(a, c, p))
  {
    var r := Rotate(a, c, p);
    var R := Find(t, p).right;
    var be := R.left;
    forall y | y in Ids(be)
      ensures Left(r, y) == Left(a, y) && Right(r, y) == Right(a, y)
      ensures y != RootId(be) ==> Parent(r, y) == Parent(a, y)
    {
      assert y in Ids(R);
      RotateAt(a, c, p, y);
    }
    RotateAt(a, c, p, RootId(be));
    RotateAt(a, c, p, c);
    RepresentsReparent(be, c, p, a, r);
  }

  // ---------------------------------------------------------------------
  // enforceRBTreePropertiesAfterInsert

  /** One pass of the fix-up at red node `z`: the new links and colours, and
      the node the source calls itself on next (-1 when it stops). `side`
      is true when `z`'s parent is a left child; the two mirrored branches
      of the source are this one function with left and right exchanged.
      `fixed` selects the corrected recursion test and rotation. */
  function FixStep(a: Rb, z: int, fixed: bool): (Rb, int) {
    if IsBlack(a, z) || IsBlack(a, Parent(a, z)) then (a, -1)
    else
      var side := IsLeftChild(a, Parent(a, z));
      var p := Parent(a, z);
      var g := Parent(a, p);
      var inner := IsLeftChild(a, z) != side
        && (Child(a, g, !side) == -1 || IsBlack(a, Child(a, g, !side)));
      var a1 := if inner then RotateWith(a, z, p, fixed) else a;
      var n := if inner then p else z;
      var uncle := Child(a1, Parent(a1, Parent(a1, n)), !side);
      if uncle == -1 || IsBlack(a1, uncle) then
        (RotateAndPaint(a1, n, side, fixed), -1)
      else
        var a2 := Paint(a1, uncle, true);
        var a3 := Paint(a2, Parent(a2, n), true);
        var a4 := Paint(a3, Parent(a3, Parent(a3, n)), false);
        var recurse := if fixed then Parent(a4, n) != a4.root else Parent(a4, n) == a4.root;
        (a4, if recurse then Parent(a4, Parent(a4, n)) else -1)
  }

  /** Rotate `n`'s parent over its grandparent, then colour `n` red, its
      parent black and that parent's far child red. */
  function RotateAndPaint(a1: Rb, n: int, side: bool, fixed: bool): Rb {
    var a2 := RotateWith(a1, Parent(a1, n), Parent(a1, Parent(a1, n)), fixed);
    var a3 := Paint(a2, n, false);
    var a4 := Paint(a3, Parent(a3, n), true);
    Paint(a4, Child(a4, Parent(a4, n), !side), false)
  }

  /** The fix-up with its recursion, at most `fuel` passes. */
  function FixUpWith(a: Rb, z: int, fuel: nat, fixed: bool): Rb
    decreases fuel
  {
    if fuel == 0 then a
    else
      var (a', next) := FixStep(a, z, fixed);
      if next == -1 then a' else FixUpWith(a', next, fuel - 1, fixed)
  }

  function FixUp(a: Rb, z: int, fuel: nat): Rb { FixUpWith(a, z, fuel, true) }

  function FixUpAsWritten(a: Rb, z: int, fuel: nat): Rb { FixUpWith(a, z, fuel, false) }

  // ---------------------------------------------------------------------
  // Red-black properties, node by node

  function Bl(a: Rb, x: int): nat { if IsBlack(a, x) then 1 else 0 }

  function H(h: seq<nat>, x: int): nat { if 0 <= x < |h| then h[x] else 0 }

  /** `h[x]` is the number of black nodes on every path from `x` down to a
      null link: `x`'s own colour plus the count of either child. */
  ghost predicate HeightAt(a: Rb, h: seq<nat>, x: int) {
    0 <= x < |h| ==> h[x] == Bl(a, x) + H(h, Left(a, x)) && h[x] == Bl(a, x) + H(h, Right(a, x))
  }

  ghost predicate BlackHeights(a: Rb, h: seq<nat>) {
    |h| == |a.left| && forall x :: HeightAt(a, h, x)
  }

  /** A red node `x` has a black (or null) parent. */
  ghost predicate RedAt(a: Rb, x: int) {
    0 <= x < |a.black| && !a.black[x] ==> IsBlack(a, Parent(a, x))
  }

  /** No red node has a red parent, except possibly node `z`. */
  ghost predicate RedOKExcept(a: Rb, z: int) {
    forall x :: x != z ==> RedAt(a, x)
  }

  ghost predicate RedOK(a: Rb) { RedOKExcept(a, -1) }

  /** `c` is a child of `x`. */
  predicate IsChildOf(a: Rb, c: int, x: int) {
    c != -1 && (Left(a, x) == c || Right(a, x) == c)
  }

  /** Every link is in range, a node's two children differ, and `c` is a
      child of `x` exactly when `x` is `c`'s parent. */
  ghost predicate Linked(a: Rb) {
    Wf(a)
    && (forall x :: 0 <= x < |a.left| ==>
         -1 <= Left(a, x) < |a.left| && -1 <= Right(a, x) < |a.left| && -1 <= Parent(a, x) < |a.left|
         && (Left(a, x) != -1 ==> Left(a, x) != Right(a, x)))
    && (forall x, c {:trigger IsChildOf(a, c, x)} :: 0 <= x < |a.left| && 0 <= c < |a.left| ==>
         (IsChildOf(a, c, x) <==> Parent(a, c) == x))
  }

  lemma ModelsLinked(t: Tree, a: Rb)
    requires Models(t, a)
    ensures Linked(a)
  {
    forall x | 0 <= x < |a.left|
      ensures -1 <= Left(a, x) < |a.left| && -1 <= Right(a, x) < |a.left| && -1 <= Parent(a, x) < |a.left|
      ensures Left(a, x) != -1 ==> Left(a, x) != Right(a, x)
    {
      assert x in Ids(t);
      RepresentsAt(t, -1, a, x);
      FindFacts(t, x);
      if Left(a, x) != -1 { assert Left(a, x) in Ids(t); }
      if Right(a, x) != -1 { assert Right(a, x) in Ids(t); }
      ParentInCases(t, -1, x);
    }
    forall x, c | 0 <= x < |a.left| && 0 <= c < |a.left|
      ensures IsChildOf(a, c, x) <==> Parent(a, c) == x
    {
      assert x in Ids(t) && c in Ids(t);
      RepresentsAt(t, -1, a, x);
      RepresentsAt(t, -1, a, c);
      if IsChildOf(a, c, x) {
        ParentInOfChild(t, -1, x, c);
      }
      if Parent(a, c) == x {
        ParentInCases(t, -1, c);
      }
    }
  }

  // ---------------------------------------------------------------------
  // The colour changes of one fix-up pass

  /** Uncle red: painting parent `p` and uncle `u` black and grandparent `g`
      red keeps every black height and moves the only red-red spot to `g`. */
  lemma RecolourColours(a: Rb, h: seq<nat>, z: int, p: int, g: int, u: int)
    requires Linked(a) && BlackHeights(a, h) && RedOKExcept(a, z)
    requires 0 <= z < |a.left| && 0 <= p < |a.left| && 0 <= u < |a.left|
    requires Parent(a, z) == p && Parent(a, p) == g && Parent(a, u) == g && p != u && g != -1 && z != p
    requires !IsBlack(a, z) && !IsBlack(a, p) && !IsBlack(a, u)
    ensures 0 <= g < |a.left| && IsBlack(a, g)
    ensures var b := Paint(Paint(Paint(a, u, true), p, true), g, false);
      BlackHeights(b, h[p := h[p] + 1][u := h[u] + 1]) && RedOKExcept(b, g)
  {
    assert -1 <= Parent(a, p) < |a.left|;
    assert IsChildOf(a, p, g);
    assert RedAt(a, p);
    RecolourHeights(a, h, p, g, u);
    RecolourRed(a, z, p, g, u);
  }

  lemma RecolourHeights(a: Rb, h: seq<nat>, p: int, g: int, u: int)
    requires Linked(a) && BlackHeights(a, h)
    requires 0 <= p < |a.left| && 0 <= u < |a.left| && 0 <= g < |a.left|
    requires Parent(a, p) == g && Parent(a, u) == g && p != u
    requires !IsBlack(a, p) && !IsBlack(a, u) && IsBlack(a, g)
    ensures var b := Paint(Paint(Paint(a, u, true), p, true), g, false);
      BlackHeights(b, h[p := h[p] + 1][u := h[u] + 1])
  {
    var b := Paint(Paint(Paint(a, u, true), p, true), g, false);
    var h' := h[p := h[p] + 1][u := h[u] + 1];
    assert IsChildOf(a, p, g) && IsChildOf(a, u, g);
    forall x
      ensures HeightAt(b, h', x)
    {
      if 0 <= x < |a.left| {
        assert HeightAt(a, h, x);
        assert (IsChildOf(a, p, x) || IsChildOf(a, u, x)) ==> x == g;
        RecolourHeightAt(a, h, p, g, u, x);
      }
    }
  }

  lemma RecolourHeightAt(a: Rb, h: seq<nat>, p: int, g: int, u: int, x: int)
    requires |h| == |a.left| == |a.black| && 0 <= p < |h| && 0 <= u < |h| && 0 <= g < |h| && 0 <= x < |h| && p != u
    requires HeightAt(a, h, x) && HeightAt(a, h, g) && IsChildOf(a, p, g) && IsChildOf(a, u, g)
    requires (IsChildOf(a, p, x) || IsChildOf(a, u, x)) ==> x == g
    requires !IsBlack(a, p) && !IsBlack(a, u) && IsBlack(a, g)
    ensures HeightAt(Paint(Paint(Paint(a, u, true), p, true), g, false), h[p := h[p] + 1][u := h[u] + 1], x)
  {
    assert Paint(Paint(Paint(a, u, true), p, true), g, false).black == a.black[u := true][p := true][g := false];
  }

  lemma RecolourRed(a: Rb, z: int, p: int, g: int, u: int)
    requires Linked(a) && RedOKExcept(a, z)
    requires 0 <= p < |a.left| && 0 <= u < |a.left| && 0 <= g < |a.left|
    requires Parent(a, z) == p && Parent(a, p) == g && Parent(a, u) == g && p != u
    ensures var b := Paint(Paint(Paint(a, u, true), p, true), g, false);
      RedOKExcept(b, g)
  {
    var b := Paint(Paint(Paint(a, u, true), p, true), g, false);
    forall x | x != g
      ensures RedAt(b, x)
    {
      assert x != z ==> RedAt(a, x);
      if 0 <= x < |a.left| && Parent(a, x) == g { assert IsChildOf(a, x, g) && IsChildOf(a, p, g) && IsChildOf(a, u, g); }
    }
  }

  /** Uncle black, `z` on the same side of `p` as `p` of `g`: after rotating
      `p` over `g` and painting `p` black and `g` red, every black height
      is kept (with `p` and `g` trading counts) and no red node has a red
      parent. */
  lemma OuterColours(a: Rb, h: seq<nat>, z: int, p: int, g: int, s: bool)
    requires Linked(a) && BlackHeights(a, h) && RedOKExcept(a, z) && RotationSite(a, p, g)
    requires 0 <= z < |a.left| && Parent(a, z) == p && Child(a, p, s) == z && Child(a, g, s) == p
    requires z != p && z != g && Parent(a, g) != z
    requires !IsBlack(a, z) && !IsBlack(a, p) && IsBlack(a, Child(a, g, !s))
    ensures var b := Paint(Paint(Paint(Rotate(a, p, g), z, false), p, true), g, false);
      BlackHeights(b, h[g := h[p]][p := h[g]]) && RedOK(b)
  {
    assert IsChildOf(a, z, p) && IsChildOf(a, p, g);
    assert RedAt(a, p);
    OuterHeights(a, h, z, p, g, s);
    OuterRed(a, z, p, g, s);
  }

  lemma OuterHeights(a: Rb, h: seq<nat>, z: int, p: int, g: int, s: bool)
    requires Linked(a) && BlackHeights(a, h) && RotationSite(a, p, g)
    requires 0 <= z < |a.left| && Parent(a, z) == p && Child(a, p, s) == z && Child(a, g, s) == p
    requires z != p && z != g && Parent(a, g) != z
    requires !IsBlack(a, z) && !IsBlack(a, p) && IsBlack(a, g) && IsBlack(a, Child(a, g, !s))
    requires IsChildOf(a, z, p) && IsChildOf(a, p, g)
    ensures var b := Paint(Paint(Paint(Rotate(a, p, g), z, false), p, true), g, false);
      BlackHeights(b, h[g := h[p]][p := h[g]])
  {
    var b := Paint(Paint(Paint(Rotate(a, p, g), z, false), p, true), g, false);
    var h' := h[g := h[p]][p := h[g]];
    assert HeightAt(a, h, p) && HeightAt(a, h, g);
    RotateAt(a, p, g, 0);
    forall x
      ensures HeightAt(b, h', x)
    {
      OuterHeightAt(a, h, z, p, g, s, x);
    }
  }

  lemma OuterHeightAt(a: Rb, h: seq<nat>, z: int, p: int, g: int, s: bool, x: int)
    requires Linked(a) && |h| == |a.left| && RotationSite(a, p, g)
    requires HeightAt(a, h, p) && HeightAt(a, h, g) && HeightAt(a, h, x)
    requires 0 <= z < |a.left| && Parent(a, z) == p && Child(a, p, s) == z && Child(a, g, s) == p
    requires z != p && z != g && Parent(a, g) != z
    requires !IsBlack(a, z) && !IsBlack(a, p) && IsBlack(a, g) && IsBlack(a, Child(a, g, !s))
    ensures var b := Paint(Paint(Paint(Rotate(a, p, g), z, false), p, true), g, false);
      HeightAt(b, h[g := h[p]][p := h[g]], x)
  {
    if x == p || x == g {
      OuterHeightSite(a, h, z, p, g, s, x);
    } else if 0 <= x < |a.left| {
      OuterHeightAround(a, h, z, p, g, s, x);
    }
  }

  /** `OuterHeightAt` at the two rotated nodes. */
  lemma OuterHeightSite(a: Rb, h: seq<nat>, z: int, p: int, g: int, s: bool, x: int)
    requires Linked(a) && |h| == |a.left| && RotationSite(a, p, g)
    requires HeightAt(a, h, p) && HeightAt(a, h, g)
    requires 0 <= z < |a.left| && Parent(a, z) == p && Child(a, p, s) == z && Child(a, g, s) == p
    requires z != p && z != g && Parent(a, g) != z
    requires !IsBlack(a, p) && IsBlack(a, g) && IsBlack(a, Child(a, g, !s))
    requires x == p || x == g
    ensures var b := Paint(Paint(Paint(Rotate(a, p, g), z, false), p, true), g, false);
      HeightAt(b, h[g := h[p]][p := h[g]], x)
  {
    var r := Rotate(a, p, g);
    var b := Paint(Paint(Paint(r, z, false), p, true), g, false);
    assert b.black == a.black[z := false][p := true][g := false];
    RotateAt(a, p, g, x);
    if x == p {
      OuterHeightTop(a, b, h, z, p, g, s);
    } else {
      OuterHeightBelow(a, b, h, p, g, s);
    }
  }

  /** `OuterHeightAt` at every other node. */
  lemma OuterHeightAround(a: Rb, h: seq<nat>, z: int, p: int, g: int, s: bool, x: int)
    requires Linked(a) && |h| == |a.left| && RotationSite(a, p, g) && HeightAt(a, h, x)
    requires 0 <= z < |a.left| && Parent(a, z) == p && Child(a, p, s) == z && Child(a, g, s) == p
    requires z != p && z != g && !IsBlack(a, z)
    requires 0 <= x < |a.left| && x != p && x != g
    ensures var b := Paint(Paint(Paint(Rotate(a, p, g), z, false), p, true), g, false);
      HeightAt(b, h[g := h[p]][p := h[g]], x)
  {
    var r := Rotate(a, p, g);
    var b := Paint(Paint(Paint(r, z, false), p, true), g, false);
    assert b.black == a.black[z := false][p := true][g := false];
    RotateAt(a, p, g, x);
    assert !IsChildOf(a, p, x);
    if x == Parent(a, g) {
      assert IsChildOf(a, g, x);
      OuterHeightAbove(a, b, h, p, g, x);
    } else {
      assert !IsChildOf(a, g, x);
      OuterHeightElsewhere(a, b, h, p, g, x);
    }
  }

  /** `p`, now black, has `z` and `g` below it. */
  lemma OuterHeightTop(a: Rb, b: Rb, h: seq<nat>, z: int, p: int, g: int, s: bool)
    requires |h| == |a.left| && 0 <= z < |h| && 0 <= p < |h| && 0 <= g < |h|
    requires z != p && z != g && p != g
    requires HeightAt(a, h, p) && HeightAt(a, h, g)
    requires Child(a, p, s) == z && Child(a, g, s) == p
    requires Child(b, p, s) == z && Child(b, p, !s) == g
    requires !IsBlack(a, p) && IsBlack(a, g) && Bl(b, p) == 1
    ensures HeightAt(b, h[g := h[p]][p := h[g]], p)
  {
  }

  /** `g`, now red, has `p`'s former inner child and the uncle below it. */
  lemma OuterHeightBelow(a: Rb, b: Rb, h: seq<nat>, p: int, g: int, s: bool)
    requires |h| == |a.left| && 0 <= p < |h| && 0 <= g < |h| && p != g
    requires HeightAt(a, h, p) && HeightAt(a, h, g)
    requires Child(a, g, s) == p
    requires Child(b, g, s) == Child(a, p, !s) && Child(b, g, !s) == Child(a, g, !s)
    requires Child(a, p, !s) != p && Child(a, p, !s) != g && Child(a, g, !s) != p && Child(a, g, !s) != g
    requires !IsBlack(a, p) && IsBlack(a, g) && Bl(b, g) == 0
    ensures HeightAt(b, h[g := h[p]][p := h[g]], g)
  {
  }

  /** `g`'s former parent now has `p` where it had `g`. */
  lemma OuterHeightAbove(a: Rb, b: Rb, h: seq<nat>, p: int, g: int, x: int)
    requires |h| == |a.left| && 0 <= p < |h| && 0 <= g < |h| && 0 <= x < |h|
    requires x != p && x != g && p != g && HeightAt(a, h, x)
    requires Left(b, x) == (if Left(a, x) == g then p else Left(a, x))
    requires Right(b, x) == (if Right(a, x) == g then p else Right(a, x))
    requires Left(a, x) != p && Right(a, x) != p && Bl(b, x) == Bl(a, x)
    ensures HeightAt(b, h[g := h[p]][p := h[g]], x)
  {
  }

  /** A node other than `p`, `g` and `g`'s parent keeps its children and
      colour, and none of its children is `p` or `g`. */
  lemma OuterHeightElsewhere(a: Rb, b: Rb, h: seq<nat>, p: int, g: int, x: int)
    requires 0 <= x < |h| && 0 <= p < |h| && 0 <= g < |h| && x != p && x != g
    requires HeightAt(a, h, x)
    requires Left(b, x) == Left(a, x) && Right(b, x) == Right(a, x) && Bl(b, x) == Bl(a, x)
    requires !IsChildOf(a, p, x) && !IsChildOf(a, g, x)
    ensures HeightAt(b, h[g := h[p]][p := h[g]], x)
  {
  }

  lemma OuterRed(a: Rb, z: int, p: int, g: int, s: bool)
    requires Linked(a) && RedOKExcept(a, z) && RotationSite(a, p, g)
    requires 0 <= z < |a.left| && Parent(a, z) == p && Child(a, p, s) == z && Child(a, g, s) == p
    requires z != p && z != g
    requires !IsBlack(a, z) && !IsBlack(a, p) && IsBlack(a, Child(a, g, !s))
    requires IsChildOf(a, z, p) && IsChildOf(a, p, g)
    ensures var b := Paint(Paint(Paint(Rotate(a, p, g), z, false), p, true), g, false);
      RedOK(b)
  {
    var b := Paint(Paint(Paint(Rotate(a, p, g), z, false), p, true), g, false);
    var beta := Child(a, p, !s);
    assert z != beta;
    if beta != -1 {
      assert IsChildOf(a, beta, p) && RedAt(a, beta);
    }
    RotateAt(a, p, g, 0);
    forall x | x != -1
      ensures RedAt(b, x)
    {
      OuterRedAt(a, z, p, g, s, x);
    }
  }

  lemma OuterRedAt(a: Rb, z: int, p: int, g: int, s: bool, x: int)
    requires Linked(a) && RotationSite(a, p, g) && (x != z ==> RedAt(a, x))
    requires 0 <= z < |a.left| && Parent(a, z) == p && Child(a, p, s) == z && Child(a, g, s) == p
    requires z != p && z != g && z != Child(a, p, !s)
    requires !IsBlack(a, z) && !IsBlack(a, p) && IsBlack(a, Child(a, g, !s)) && IsBlack(a, Child(a, p, !s))
    ensures var b := Paint(Paint(Paint(Rotate(a, p, g), z, false), p, true), g, false);
      RedAt(b, x)
  {
    if x == z || x == g || x == Child(a, p, !s) {
      OuterRedNear(a, z, p, g, s, x);
    } else if 0 <= x < |a.left| {
      OuterRedFar(a, z, p, g, s, x);
    }
  }

  /** `OuterRedAt` at `z`, `g` and the subtree that changes parent. */
  lemma OuterRedNear(a: Rb, z: int, p: int, g: int, s: bool, x: int)
    requires Linked(a) && RotationSite(a, p, g) && (x != z ==> RedAt(a, x))
    requires 0 <= z < |a.left| && Parent(a, z) == p && Child(a, p, s) == z && Child(a, g, s) == p
    requires z != p && z != g && z != Child(a, p, !s)
    requires !IsBlack(a, z) && !IsBlack(a, p) && IsBlack(a, Child(a, g, !s)) && IsBlack(a, Child(a, p, !s))
    requires x == z || x == g || x == Child(a, p, !s)
    ensures var b := Paint(Paint(Paint(Rotate(a, p, g), z, false), p, true), g, false);
      RedAt(b, x)
  {
    var r := Rotate(a, p, g);
    var b := Paint(Paint(Paint(r, z, false), p, true), g, false);
    RotateAt(a, p, g, x);
    if 0 <= x < |a.left| && !b.black[x] {
      assert Parent(b, x) == Parent(r, x);
      if x == z || x == g {
        assert Parent(b, x) == p;
      }
    }
  }

  /** `OuterRedAt` at every other node: its parent and colours are kept. */
  lemma OuterRedFar(a: Rb, z: int, p: int, g: int, s: bool, x: int)
    requires Linked(a) && RotationSite(a, p, g) && (x != z ==> RedAt(a, x))
    requires 0 <= z < |a.left| && Parent(a, z) == p && Child(a, p, s) == z && Child(a, g, s) == p
    requires z != p && z != g && z != Child(a, p, !s)
    requires !IsBlack(a, z) && !IsBlack(a, p) && IsBlack(a, Child(a, g, !s)) && IsBlack(a, Child(a, p, !s))
    requires 0 <= x < |a.left| && x != z && x != g && x != Child(a, p, !s)
    ensures var b := Paint(Paint(Paint(Rotate(a, p, g), z, false), p, true), g, false);
      RedAt(b, x)
  {
    var r := Rotate(a, p, g);
    var b := Paint(Paint(Paint(r, z, false), p, true), g, false);
    RotateAt(a, p, g, x);
    if !b.black[x] {
      assert Parent(b, x) == Parent(r, x);
      assert x != p && !a.black[x];
      var q := Parent(a, x);
      assert Parent(b, x) == q;
      assert Parent(a, x) == g <==> IsChildOf(a, x, g);
      assert q != p && q != z && q != g;
    }
  }

  /** Uncle black, `z` on the inner side: rotating `z` over its red parent
      `p` keeps every black height (both are red and carry the same
      count) and moves the one red-red pair to `p` under `z`, which is the
      outer case with the roles of `z` and `p` exchanged. */
  lemma InnerFirstColours(a: Rb, h: seq<nat>, z: int, p: int, g: int, s: bool)
    requires Linked(a) && BlackHeights(a, h) && RedOKExcept(a, z) && RotationSite(a, z, p)
    requires Child(a, p, !s) == z && Child(a, g, s) == p && Parent(a, p) == g && g != -1
    requires !IsBlack(a, z) && !IsBlack(a, p)
    ensures BlackHeights(Rotate(a, z, p), h) && RedOKExcept(Rotate(a, z, p), p)
  {
    var a1 := Rotate(a, z, p);
    assert IsChildOf(a, z, p) && IsChildOf(a, p, g);
    assert RedAt(a, p) && HeightAt(a, h, p) && HeightAt(a, h, z);
    RotateAt(a, z, p, 0);
    forall x
      ensures HeightAt(a1, h, x)
    {
      InnerFirstHeightAt(a, h, z, p, g, s, x);
    }
    forall x | x != p
      ensures RedAt(a1, x)
    {
      InnerFirstRedAt(a, z, p, g, s, x);
    }
  }

  lemma InnerFirstHeightAt(a: Rb, h: seq<nat>, z: int, p: int, g: int, s: bool, x: int)
    requires Linked(a) && |h| == |a.left| && RotationSite(a, z, p)
    requires HeightAt(a, h, p) && HeightAt(a, h, z) && HeightAt(a, h, x)
    requires Child(a, p, !s) == z && Child(a, g, s) == p && Parent(a, p) == g && g != -1
    requires !IsBlack(a, z) && !IsBlack(a, p)
    ensures HeightAt(Rotate(a, z, p), h, x)
  {
    var a1 := Rotate(a, z, p);
    RotateAt(a, z, p, x);
    if 0 <= x < |a.left| {
      if x == z || x == p || x == g {
      } else {
        assert !IsChildOf(a, z, x) && !IsChildOf(a, p, x);
      }
    }
  }

  lemma InnerFirstRedAt(a: Rb, z: int, p: int, g: int, s: bool, x: int)
    requires Linked(a) && RotationSite(a, z, p) && RedAt(a, p) && (x != z ==> RedAt(a, x))
    requires Child(a, p, !s) == z && Child(a, g, s) == p && Parent(a, p) == g && g != -1
    requires !IsBlack(a, z) && !IsBlack(a, p) && x != p
    ensures RedAt(Rotate(a, z, p), x)
  {
    var a1 := Rotate(a, z, p);
    RotateAt(a, z, p, x);
    if 0 <= x < |a.left| && !a.black[x] && x != z {
      assert Parent(a, x) == z <==> IsChildOf(a, x, z);
      assert Parent(a, x) == p <==> IsChildOf(a, x, p);
    }
  }
}
