/** `insert` and `insertHelper`: ordered descent to an empty slot, a new red
    leaf there, the fix-up pass, and a black root. */
module RbInsert {
  import opened Strings
  import opened RbShape
  import opened RbArena
  import opened RbFixUp
  import opened Wrappers

  /** The key stored at node `x` (empty for a null node). */
  function Key(keys: seq<string>, x: int): string {
    if 0 <= x < |keys| then keys[x] else []
  }

  /** The nodes of `s` carry strictly ascending keys. */
  predicate SortedBy(s: seq<int>, keys: seq<string>) {
    forall i, j :: 0 <= i < j < |s| ==> Less(Key(keys, s[i]), Key(keys, s[j]))
  }

  /** Every node of `s` has a key below `k`. */
  predicate AllBelow(s: seq<int>, keys: seq<string>, k: string) {
    forall y :: y in s ==> Less(Key(keys, y), k)
  }

  /** Every node of `s` has a key above `k`. */
  predicate AllAbove(s: seq<int>, keys: seq<string>, k: string) {
    forall y :: y in s ==> Less(k, Key(keys, y))
  }

  /** The keys stored in `t`. */
  ghost function KeysOf(t: Tree, keys: seq<string>): set<string> {
    set y | y in Ids(t) :: Key(keys, y)
  }

  /** An in-order sequence around a node is sorted exactly when both sides
      are sorted and lie below and above that node's key. */
  lemma SortedSplit(A: seq<int>, x: int, B: seq<int>, keys: seq<string>)
    ensures SortedBy(A + [x] + B, keys) <==>
      SortedBy(A, keys) && SortedBy(B, keys)
      && AllBelow(A, keys, Key(keys, x)) && AllAbove(B, keys, Key(keys, x))
  {
    if SortedBy(A, keys) && SortedBy(B, keys)
       && AllBelow(A, keys, Key(keys, x)) && AllAbove(B, keys, Key(keys, x)) {
      SortedJoin(A, x, B, keys);
    }
    if SortedBy(A + [x] + B, keys) {
      SortedParts(A, x, B, keys);
    }
  }

  lemma SortedJoin(A: seq<int>, x: int, B: seq<int>, keys: seq<string>)
    requires SortedBy(A, keys) && SortedBy(B, keys)
    requires AllBelow(A, keys, Key(keys, x)) && AllAbove(B, keys, Key(keys, x))
    ensures SortedBy(A + [x] + B, keys)
  {
    var s := A + [x] + B;
    forall i, j | 0 <= i < j < |s|
      ensures Less(Key(keys, s[i]), Key(keys, s[j]))
    {
      JoinPair(A, x, B, keys, i, j);
    }
  }

  /** `SortedJoin` for the positions `i` and `j`. */
  lemma JoinPair(A: seq<int>, x: int, B: seq<int>, keys: seq<string>, i: int, j: int)
    requires SortedBy(A, keys) && SortedBy(B, keys)
    requires AllBelow(A, keys, Key(keys, x)) && AllAbove(B, keys, Key(keys, x))
    requires 0 <= i < j < |A| + 1 + |B|
    ensures Less(Key(keys, (A + [x] + B)[i]), Key(keys, (A + [x] + B)[j]))
  {
    var s := A + [x] + B;
    var n := |A|;
    if j < n {
      assert s[i] == A[i] && s[j] == A[j];
    } else if j == n {
      assert s[i] == A[i] && s[j] == x && A[i] in A;
    } else if i < n {
      assert s[i] == A[i] && s[j] == B[j - n - 1];
      assert A[i] in A && B[j - n - 1] in B;
      LessTransitive(Key(keys, A[i]), Key(keys, x), Key(keys, B[j - n - 1]));
    } else if i == n {
      assert s[i] == x && s[j] == B[j - n - 1] && B[j - n - 1] in B;
    } else {
      assert s[i] == B[i - n - 1] && s[j] == B[j - n - 1];
    }
  }

  lemma SortedParts(A: seq<int>, x: int, B: seq<int>, keys: seq<string>)
    requires SortedBy(A + [x] + B, keys)
    ensures SortedBy(A, keys) && SortedBy(B, keys)
    ensures AllBelow(A, keys, Key(keys, x)) && AllAbove(B, keys, Key(keys, x))
  {
    var s := A + [x] + B;
    var n := |A|;
    forall y | y in A ensures Less(Key(keys, y), Key(keys, x)) {
      var i :| 0 <= i < n && A[i] == y;
      assert s[i] == A[i] && s[n] == x;
    }
    forall y | y in B ensures Less(Key(keys, x), Key(keys, y)) {
      var j :| 0 <= j < |B| && B[j] == y;
      assert s[n] == x && s[n + 1 + j] == B[j];
    }
    forall i, j | 0 <= i < j < n ensures Less(Key(keys, A[i]), Key(keys, A[j])) {
      assert s[i] == A[i] && s[j] == A[j];
    }
    forall i, j | 0 <= i < j < |B| ensures Less(Key(keys, B[i]), Key(keys, B[j])) {
      assert s[n + 1 + i] == B[i] && s[n + 1 + j] == B[j];
    }
  }

  // ---------------------------------------------------------------------
  // insertHelper: the descent

  /** Where `insertHelper` puts a new key: nowhere (equal key found), at
      the root of an empty tree, or as the `leftSide` child of `q`. */
  datatype Slot = Duplicate | AtRoot | Under(q: int, leftSide: bool)

  /** The descent of `insertHelper` from the root: smaller keys go left,
      larger ones right, until an empty link or an equal key. */
  function SlotFor(t: Tree, keys: seq<string>, k: string): (r: Slot)
    ensures r == AtRoot <==> t.Leaf?
    ensures r.Under? ==> r.q in Ids(t)
  {
    match t
    case Leaf => AtRoot
    case Node(l, x, rt) =>
      var c := CompareTo(k, Key(keys, x));
      if c == 0 then Duplicate
      else if c < 0 then (if l.Leaf? then Under(x, true) else SlotFor(l, keys, k))
      else (if rt.Leaf? then Under(x, false) else SlotFor(rt, keys, k))
  }

  /** The shape after the new node `n` is hung where `SlotFor` leads. */
  function AttachTree(t: Tree, keys: seq<string>, k: string, n: int): Tree {
    match t
    case Leaf => Node(Leaf, n, Leaf)
    case Node(l, x, rt) =>
      var c := CompareTo(k, Key(keys, x));
      if c == 0 then t
      else if c < 0 then Node(AttachTree(l, keys, k, n), x, rt)
      else Node(l, x, AttachTree(rt, keys, k, n))
  }

  lemma {:induction false} InOrderIds(t: Tree)
    ensures forall y :: y in InOrder(t) <==> y in Ids(t)
  {
    match t
    case Leaf =>
    case Node(l, x, r) =>
      InOrderIds(l);
      InOrderIds(r);
  }

  /** On a search tree the descent meets an equal key exactly when the key
      is already stored. */
  lemma {:induction false} SlotPresent(t: Tree, keys: seq<string>, k: string)
    requires SortedBy(InOrder(t), keys)
    ensures SlotFor(t, keys, k) == Duplicate <==> k in KeysOf(t, keys)
  {
    match t
    case Leaf =>
    case Node(l, x, r) =>
      SortedSplit(InOrder(l), x, InOrder(r), keys);
      InOrderIds(l);
      InOrderIds(r);
      var c := CompareTo(k, Key(keys, x));
      CompareAntisymmetric(k, Key(keys, x));
      if c < 0 {
        SlotPresent(l, keys, k);
        if k in KeysOf(t, keys) {
          var y :| y in Ids(t) && Key(keys, y) == k;
          if y in Ids(r) {
            LessTrichotomy(k, Key(keys, x));
          }
          assert k in KeysOf(l, keys);
        }
      } else if c > 0 {
        SlotPresent(r, keys, k);
        if k in KeysOf(t, keys) {
          var y :| y in Ids(t) && Key(keys, y) == k;
          if y in Ids(l) {
            LessTrichotomy(k, Key(keys, x));
          }
          assert k in KeysOf(r, keys);
        }
      }
  }

  /** Hanging a new node adds exactly that node to the shape. */
  lemma {:induction false} AttachIds(t: Tree, keys: seq<string>, k: string, n: int)
    requires Unique(t) && SlotFor(t, keys, k) != Duplicate && n !in Ids(t)
    ensures var t' := AttachTree(t, keys, k, n);
      Ids(t') == Ids(t) + {n} && Unique(t') && Size(t') == Size(t) + 1
  {
    match t
    case Leaf =>
    case Node(l, x, r) =>
      var c := CompareTo(k, Key(keys, x));
      if c < 0 {
        AttachIds(l, keys, k, n);
        assert AttachTree(t, keys, k, n) == Node(AttachTree(l, keys, k, n), x, r);
      } else {
        assert c != 0;
        AttachIds(r, keys, k, n);
        assert AttachTree(t, keys, k, n) == Node(l, x, AttachTree(r, keys, k, n));
      }
  }

  /** Hanging a new node with a fresh key `k` keeps the in-order sequence
      sorted. */
  lemma {:induction false} AttachOrder(t: Tree, keys: seq<string>, k: string, n: int)
    requires Unique(t) && SortedBy(InOrder(t), keys) && SlotFor(t, keys, k) != Duplicate
    requires n !in Ids(t) && Key(keys, n) == k
    ensures SortedBy(InOrder(AttachTree(t, keys, k, n)), keys)
  {
    match t
    case Leaf =>
    case Node(l, x, r) =>
      SortedSplit(InOrder(l), x, InOrder(r), keys);
      var c := CompareTo(k, Key(keys, x));
      CompareAntisymmetric(k, Key(keys, x));
      if c < 0 {
        AttachOrder(l, keys, k, n);
        AttachIds(l, keys, k, n);
        var l' := AttachTree(l, keys, k, n);
        assert AttachTree(t, keys, k, n) == Node(l', x, r);
        InOrderIds(l);
        InOrderIds(l');
        assert forall y :: y in InOrder(l') ==> y in InOrder(l) || y == n;
        SortedSplit(InOrder(l'), x, InOrder(r), keys);
      } else {
        assert c != 0;
        AttachOrder(r, keys, k, n);
        AttachIds(r, keys, k, n);
        var r' := AttachTree(r, keys, k, n);
        assert AttachTree(t, keys, k, n) == Node(l, x, r');
        InOrderIds(r);
        InOrderIds(r');
        assert forall y :: y in InOrder(r') ==> y in InOrder(r) || y == n;
        SortedSplit(InOrder(l), x, InOrder(r'), keys);
      }
  }

  /** The new red node, index `|a.left|`, with null children, hung as the
      `leftSide` child of `q`, or as the root when `q` is null. */
  function Attach(a: Rb, q: int, leftSide: bool): Rb {
    var n := |a.left|;
    var a1 := Rb(a.left + [-1], a.right + [-1], a.parent + [q], a.black + [false],
                 if q == -1 then n else a.root);
    if q == -1 then a1 else SetChild(a1, q, leftSide, n)
  }

  /** Every link after `Attach`, node by node. */
  lemma AttachAt(a: Rb, q: int, leftSide: bool, y: int)
    requires Wf(a) && -1 <= q < |a.left|
    ensures Wf(Attach(a, q, leftSide)) && |Attach(a, q, leftSide).left| == |a.left| + 1
    ensures Attach(a, q, leftSide).root == (if q == -1 then |a.left| else a.root)
    ensures Attach(a, q, leftSide).black == a.black + [false]
    ensures Left(Attach(a, q, leftSide), y) == (if y == q != -1 && leftSide then |a.left| else Left(a, y))
    ensures Right(Attach(a, q, leftSide), y) == (if y == q != -1 && !leftSide then |a.left| else Right(a, y))
    ensures Parent(Attach(a, q, leftSide), y) == (if y == |a.left| then q else Parent(a, y))
  {
    var n := |a.left|;
    var a1 := Rb(a.left + [-1], a.right + [-1], a.parent + [q], a.black + [false],
                 if q == -1 then n else a.root);
    if q != -1 {
      if leftSide {
        assert Attach(a, q, leftSide) == a1.(left := a1.left[q := n]);
      } else {
        assert Attach(a, q, leftSide) == a1.(right := a1.right[q := n]);
      }
    }
    if 0 <= y < n {
      assert a1.left[y] == a.left[y] && a1.right[y] == a.right[y] && a1.parent[y] == a.parent[y];
    } else if y == n {
      assert a1.left[n] == -1 && a1.right[n] == -1 && a1.parent[n] == q;
    }
  }

  /** The attached arena describes the attached shape, below any node. */
  lemma {:induction false} AttachRepresents(t: Tree, par: int, a: Rb, keys: seq<string>, k: string)
    requires Wf(a) && Unique(t) && Represents(t, par, a) && SlotFor(t, keys, k).Under?
    ensures var s := SlotFor(t, keys, k);
      Represents(AttachTree(t, keys, k, |a.left|), par, Attach(a, s.q, s.leftSide))
  {
    var s := SlotFor(t, keys, k);
    var n := |a.left|;
    var b := Attach(a, s.q, s.leftSide);
    RepresentsIds(t, par, a, s.q);
    forall y ensures Left(b, y) == (if y == s.q && s.leftSide then n else Left(a, y))
      && Right(b, y) == (if y == s.q && !s.leftSide then n else Right(a, y))
      && Parent(b, y) == (if y == n then s.q else Parent(a, y))
    {
      AttachAt(a, s.q, s.leftSide, y);
    }
    AttachAt(a, s.q, s.leftSide, 0);
    match t
    case Node(l, x, r) =>
      var c := CompareTo(k, Key(keys, x));
      forall y | y in Ids(t) ensures y < n { RepresentsIds(t, par, a, y); }
      if c < 0 {
        if l.Leaf? {
          RepresentsFrame(r, x, a, b);
        } else {
          AttachRepresents(l, x, a, keys, k);
          RepresentsFrame(r, x, a, b);
        }
        assert AttachTree(t, keys, k, n) == Node(AttachTree(l, keys, k, n), x, r);
      } else {
        assert c != 0;
        if r.Leaf? {
          RepresentsFrame(l, x, a, b);
        } else {
          AttachRepresents(r, x, a, keys, k);
          RepresentsFrame(l, x, a, b);
        }
        assert AttachTree(t, keys, k, n) == Node(l, x, AttachTree(r, keys, k, n));
      }
  }

  /** The descent stops at an empty link. */
  lemma {:induction false} SlotEmpty(t: Tree, keys: seq<string>, k: string)
    requires Unique(t) && SlotFor(t, keys, k).Under?
    ensures var s := SlotFor(t, keys, k);
      ChildOf(Find(t, s.q), s.leftSide) == Leaf
  {
    match t
    case Node(l, x, r) =>
      var c := CompareTo(k, Key(keys, x));
      if c < 0 && !l.Leaf? {
        SlotEmpty(l, keys, k);
        FindFacts(l, SlotFor(l, keys, k).q);
      } else if c > 0 && !r.Leaf? {
        SlotEmpty(r, keys, k);
        FindFacts(r, SlotFor(r, keys, k).q);
      }
  }

  /** The arena after attaching, where the descent leads. */
  function AttachFor(a: Rb, s: Slot): Rb {
    if s.Under? then Attach(a, s.q, s.leftSide) else Attach(a, -1, true)
  }

  /** Attaching where the descent leads keeps the arena a tree: the
      attached shape. */
  lemma AttachModels(t: Tree, a: Rb, keys: seq<string>, k: string)
    requires Models(t, a) && SlotFor(t, keys, k) != Duplicate
    ensures Models(AttachTree(t, keys, k, |a.left|), AttachFor(a, SlotFor(t, keys, k)))
  {
    var n := |a.left|;
    var s := SlotFor(t, keys, k);
    var b := AttachFor(a, s);
    var t' := AttachTree(t, keys, k, n);
    assert n !in Ids(t);
    AttachIds(t, keys, k, n);
    if s.AtRoot? {
      assert 0 in Ids(t) <==> 0 < n;
      assert n == 0;
      AttachAt(a, -1, true, 0);
    } else {
      AttachRepresents(t, -1, a, keys, k);
      AttachAt(a, s.q, s.leftSide, 0);
      assert t' == Node(t'.left, t.id, t'.right);
    }
  }

  /** The new red leaf is the only possible red-red violation, black
      heights are kept (the leaf counts 0), and the root stays black. */
  lemma AttachFixInv(t: Tree, a: Rb, keys: seq<string>, k: string)
    requires Models(t, a) && HasBlackHeights(a) && RedOK(a) && IsBlack(a, a.root)
    requires SlotFor(t, keys, k).Under?
    ensures var s := SlotFor(t, keys, k);
      FixInv(AttachTree(t, keys, k, |a.left|), Attach(a, s.q, s.leftSide), |a.left|)
  {
    var n := |a.left|;
    var s := SlotFor(t, keys, k);
    var b := Attach(a, s.q, s.leftSide);
    var t' := AttachTree(t, keys, k, n);
    AttachModels(t, a, keys, k);
    AttachIds(t, keys, k, n);
    assert n !in Ids(t);
    SlotEmpty(t, keys, k);
    RepresentsAt(t, -1, a, s.q);
    assert Child(a, s.q, s.leftSide) == -1;
    ModelsLinked(t, a);
    var h :| BlackHeights(a, h);
    AttachHeights(a, h, s.q, s.leftSide);
    AttachRed(a, s.q, s.leftSide);
    AttachAt(a, s.q, s.leftSide, 0);
    assert IsBlack(b, b.root) == IsBlack(a, a.root);
  }

  /** The new node, black height 0, keeps the heights uniform. */
  lemma AttachHeights(a: Rb, h: seq<nat>, q: int, leftSide: bool)
    requires Linked(a) && BlackHeights(a, h) && 0 <= q < |a.left| && Child(a, q, leftSide) == -1
    ensures BlackHeights(Attach(a, q, leftSide), h + [0])
  {
    var b := Attach(a, q, leftSide);
    var n := |a.left|;
    forall y
      ensures HeightAt(b, h + [0], y)
    {
      AttachAt(a, q, leftSide, y);
      assert HeightAt(a, h, y);
      if 0 <= y < n {
        assert Bl(b, y) == Bl(a, y);
      }
    }
  }

  /** Only the new red node can have a red parent. */
  lemma AttachRed(a: Rb, q: int, leftSide: bool)
    requires Linked(a) && RedOK(a) && 0 <= q < |a.left|
    ensures RedOKExcept(Attach(a, q, leftSide), |a.left|)
  {
    var b := Attach(a, q, leftSide);
    var n := |a.left|;
    forall y | y != n
      ensures RedAt(b, y)
    {
      AttachAt(a, q, leftSide, y);
      assert RedAt(a, y);
      if 0 <= y < n {
        assert b.black[y] == a.black[y];
        assert IsBlack(b, Parent(a, y)) == IsBlack(a, Parent(a, y));
      }
    }
  }

  /** Attaching the new node below `q` sets up the fix-up: its invariant
      holds at the new node, and the new node is shallower than the tree
      has nodes plus one. */
  lemma HangReady(t: Tree, a: Rb, keys: seq<string>, k: string)
    requires RbValid(t, a, keys) && SlotFor(t, keys, k).Under?
    ensures var s := SlotFor(t, keys, k);
      var t1 := AttachTree(t, keys, k, |a.left|);
      0 <= s.q < |a.left| && |keys| == |a.left|
      && FixInv(t1, Attach(a, s.q, s.leftSide), |a.left|) && Size(t) + 1 > Depth(t1, |a.left|)
  {
    var n := |a.left|;
    AttachFixInv(t, a, keys, k);
    assert n !in Ids(t);
    AttachIds(t, keys, k, n);
    DepthBound(AttachTree(t, keys, k, n), n);
  }

  /** The last statement of `insert`: painting the root black keeps every
      invariant and makes the root black. */
  lemma PaintRootBlack(t: Tree, c: Rb)
    requires Models(t, c) && HasBlackHeights(c) && RedOK(c)
    ensures var d := Paint(c, c.root, true);
      Models(t, d) && HasBlackHeights(d) && RedOK(d) && IsBlack(d, d.root)
  {
    var d := Paint(c, c.root, true);
    ModelsPaint(t, c, c.root, true);
    ModelsLinked(t, c);
    var h :| BlackHeights(c, h);
    if 0 <= c.root < |c.left| {
      var h' := h[c.root := h[c.root] + 1 - Bl(c, c.root)];
      forall y
        ensures HeightAt(d, h', y)
      {
        assert HeightAt(c, h, y);
        if 0 <= y < |c.left| {
          ModelsParent(t, c, y);
          if Left(c, y) == c.root { assert IsChildOf(c, c.root, y); }
          if Right(c, y) == c.root { assert IsChildOf(c, c.root, y); }
          ModelsParent(t, c, c.root);
        }
      }
      assert BlackHeights(d, h');
    } else {
      assert d == c;
    }
    forall y | y != -1
      ensures RedAt(d, y)
    {
      assert RedAt(c, y);
    }
  }

  /** The descent and the attached shape only read the keys of nodes in
      the tree. */
  lemma {:induction false} KeysFrame(t: Tree, keys: seq<string>, keys': seq<string>, k: string, n: int)
    requires forall y :: y in Ids(t) ==> Key(keys, y) == Key(keys', y)
    ensures SlotFor(t, keys, k) == SlotFor(t, keys', k)
    ensures AttachTree(t, keys, k, n) == AttachTree(t, keys', k, n)
  {
    match t
    case Leaf =>
    case Node(l, x, r) =>
      KeysFrame(l, keys, keys', k, n);
      KeysFrame(r, keys, keys', k, n);
  }

  // ---------------------------------------------------------------------
  // insert

  /** A red-black tree over the keys `keys` (one per node): the arena
      stores a shape whose in-order keys ascend strictly, black heights are
      uniform, no red node has a red parent, and the root is black. */
  ghost predicate RbValid(t: Tree, a: Rb, keys: seq<string>) {
    Models(t, a) && |keys| == |a.left| && SortedBy(InOrder(t), keys)
    && HasBlackHeights(a) && RedOK(a) && IsBlack(a, a.root)
  }

  /** `insert(data)` with key `k` on the corrected fix-up: `None` when an
      equal key is stored (the source throws before changing anything);
      otherwise the arena with the new node as index `|a.left|`, repaired,
      with a black root. The fix-up gets one pass more than the tree has
      nodes, which is never exhausted. */
  function InsertInto(t: Tree, a: Rb, keys: seq<string>, k: string): Option<Rb> {
    var s := SlotFor(t, keys, k);
    if s == Duplicate then None
    else
      var c := BeforeRoot(t, a, s);
      Some(Paint(c, c.root, true))
  }

  /** The arena before the root is painted: the attached red node, after
      the fix-up pass when it has a parent. */
  function BeforeRoot(t: Tree, a: Rb, s: Slot): Rb {
    if s.Under? then FixUp(Attach(a, s.q, s.leftSide), |a.left|, Size(t) + 1)
    else Attach(a, -1, true)
  }

  /** `insert` fails exactly on a stored key; otherwise the result is a
      red-black tree over the old keys plus `k`, whose in-order sequence is
      the one the plain search-tree insertion gives. */
  lemma InsertCorrect(t: Tree, a: Rb, keys: seq<string>, k: string)
    requires RbValid(t, a, keys)
    ensures InsertInto(t, a, keys, k).None? <==> k in KeysOf(t, keys)
    ensures InsertInto(t, a, keys, k).Some? ==>
      exists t' :: RbValid(t', InsertInto(t, a, keys, k).value, keys + [k])
        && InOrder(t') == InOrder(AttachTree(t, keys, k, |keys|))
        && KeysOf(t', keys + [k]) == KeysOf(t, keys) + {k}
  {
    SlotPresent(t, keys, k);
    if SlotFor(t, keys, k) != Duplicate {
      InsertSome(t, a, keys, k);
    }
  }

  /** The successful insertion of `InsertCorrect`. */
  lemma InsertSome(t: Tree, a: Rb, keys: seq<string>, k: string)
    requires RbValid(t, a, keys) && SlotFor(t, keys, k) != Duplicate
    ensures InsertInto(t, a, keys, k).Some?
    ensures exists t' ::
      (RbValid(t', InsertInto(t, a, keys, k).value, keys + [k])
       && InOrder(t') == InOrder(AttachTree(t, keys, k, |keys|))
       && KeysOf(t', keys + [k]) == KeysOf(t, keys) + {k})
  {
    var t1 := AttachTree(t, keys, k, |keys|);
    AttachKeys(t, keys, k);
    InsertRepaired(t, a, keys, k);
    var c := BeforeRoot(t, a, SlotFor(t, keys, k));
    var t' :| Models(t', c) && InOrder(t') == InOrder(t1);
    InsertFinish(t, t1, t', c, keys, k);
    assert InsertInto(t, a, keys, k) == Some(Paint(c, c.root, true));
  }

  /** Painting the root of the repaired arena gives a red-black tree over
      the old keys and `k`. */
  lemma InsertFinish(t: Tree, t1: Tree, t': Tree, c: Rb, keys: seq<string>, k: string)
    requires Models(t', c) && InOrder(t') == InOrder(t1) && HasBlackHeights(c) && RedOK(c)
    requires SortedBy(InOrder(t1), keys + [k]) && Ids(t1) == Ids(t) + {|keys|}
    requires forall y :: y in Ids(t) <==> 0 <= y < |keys|
    ensures RbValid(t', Paint(c, c.root, true), keys + [k])
    ensures KeysOf(t', keys + [k]) == KeysOf(t, keys) + {k}
  {
    var n := |keys|;
    PaintRootBlack(t', c);
    SameInOrderSameIds(t', t1);
    assert n in Ids(t') && n + 1 !in Ids(t');
    assert n + 1 in Ids(t') <==> n + 1 < |c.left|;
    KeysOfAppend(t, t', keys, k);
  }

  lemma SameInOrderSameIds(t: Tree, u: Tree)
    requires InOrder(t) == InOrder(u)
    ensures Ids(t) == Ids(u)
  {
    InOrderIds(t);
    InOrderIds(u);
    forall y ensures y in Ids(t) <==> y in Ids(u) {
      assert y in InOrder(t) <==> y in InOrder(u);
    }
  }

  /** The keys of a shape with one node more, whose key is `k`. */
  lemma KeysOfAppend(t: Tree, t': Tree, keys: seq<string>, k: string)
    requires Ids(t') == Ids(t) + {|keys|}
    requires forall y :: y in Ids(t) ==> 0 <= y < |keys|
    ensures KeysOf(t', keys + [k]) == KeysOf(t, keys) + {k}
  {
    var keys' := keys + [k];
    assert Key(keys', |keys|) == k;
    forall y | y in Ids(t) ensures Key(keys, y) == Key(keys', y) {
      assert 0 <= y < |keys|;
    }
    forall v | v in KeysOf(t, keys) + {k} ensures v in KeysOf(t', keys') {
      if v != k {
        var y :| y in Ids(t) && Key(keys, y) == v;
        assert y in Ids(t');
      } else {
        assert |keys| in Ids(t');
      }
    }
  }

  /** The attached shape over the keys with `k` appended: sorted, one node
      more, and the same as with the old keys. */
  lemma AttachKeys(t: Tree, keys: seq<string>, k: string)
    requires Unique(t) && (forall y :: y in Ids(t) <==> 0 <= y < |keys|)
    requires SortedBy(InOrder(t), keys) && SlotFor(t, keys, k) != Duplicate
    ensures var t1 := AttachTree(t, keys, k, |keys|);
      t1 == AttachTree(t, keys + [k], k, |keys|)
      && SortedBy(InOrder(t1), keys + [k]) && Ids(t1) == Ids(t) + {|keys|}
      && Unique(t1) && Size(t1) == Size(t) + 1
  {
    var n := |keys|;
    var keys' := keys + [k];
    forall y | y in Ids(t) ensures Key(keys, y) == Key(keys', y) {
      assert 0 <= y < n;
    }
    KeysFrame(t, keys, keys', k, n);
    AttachIds(t, keys, k, n);
    assert n !in Ids(t);
    InOrderIds(t);
    assert SortedBy(InOrder(t), keys') by {
      forall i, j | 0 <= i < j < |InOrder(t)|
        ensures Less(Key(keys', InOrder(t)[i]), Key(keys', InOrder(t)[j]))
      {
        assert InOrder(t)[i] in InOrder(t) && InOrder(t)[j] in InOrder(t);
      }
    }
    AttachOrder(t, keys', k, n);
  }

  /** The arena just before the root is painted: the attached node, and
      after the fix-up pass when it has a parent. It stores the attached
      shape's in-order sequence and satisfies every invariant but the
      colour of the root. */
  lemma InsertRepaired(t: Tree, a: Rb, keys: seq<string>, k: string)
    requires RbValid(t, a, keys) && SlotFor(t, keys, k) != Duplicate
    ensures Repaired(AttachTree(t, keys, k, |keys|), BeforeRoot(t, a, SlotFor(t, keys, k)))
  {
    if SlotFor(t, keys, k).AtRoot? {
      RootRepaired(t, a, keys, k);
    } else {
      UnderRepaired(t, a, keys, k);
    }
  }

  lemma RootRepaired(t: Tree, a: Rb, keys: seq<string>, k: string)
    requires Models(t, a) && SlotFor(t, keys, k).AtRoot?
    ensures Repaired(AttachTree(t, keys, k, |a.left|), Attach(a, -1, true))
  {
    var t1 := AttachTree(t, keys, k, |a.left|);
    var c := Attach(a, -1, true);
    AttachModels(t, a, keys, k);
    assert 0 in Ids(t) <==> 0 < |a.left|;
    AttachAt(a, -1, true, 0);
    assert |c.left| == 1 && Left(c, 0) == -1 && Right(c, 0) == -1 && !IsBlack(c, 0);
    assert HeightAt(c, [0], 0);
    assert BlackHeights(c, [0]);
    assert Models(t1, c) && InOrder(t1) == InOrder(t1);
  }

  lemma UnderRepaired(t: Tree, a: Rb, keys: seq<string>, k: string)
    requires Models(t, a) && HasBlackHeights(a) && RedOK(a) && IsBlack(a, a.root)
    requires SlotFor(t, keys, k).Under?
    ensures var s := SlotFor(t, keys, k);
      Repaired(AttachTree(t, keys, k, |a.left|), FixUp(Attach(a, s.q, s.leftSide), |a.left|, Size(t) + 1))
  {
    var n := |a.left|;
    var s := SlotFor(t, keys, k);
    var t1 := AttachTree(t, keys, k, n);
    AttachIds(t, keys, k, n);
    assert n !in Ids(t);
    AttachFixInv(t, a, keys, k);
    DepthBound(t1, n);
    FixUpCorrect(t1, Attach(a, s.q, s.leftSide), n, Size(t) + 1);
  }

  // ---------------------------------------------------------------------
  // The invariant read on the shape

  /** Black nodes on the leftmost path of `t`. */
  ghost function BlackHeight(t: Tree, a: Rb): nat {
    match t
    case Leaf => 0
    case Node(l, x, _) => Bl(a, x) + BlackHeight(l, a)
  }

  /** Every node's two subtrees have the same black height. */
  ghost predicate Balanced(t: Tree, a: Rb) {
    match t
    case Leaf => true
    case Node(l, _, r) => BlackHeight(l, a) == BlackHeight(r, a) && Balanced(l, a) && Balanced(r, a)
  }

  /** No red node of `t` has a red child. */
  ghost predicate NoRedRed(t: Tree, a: Rb) {
    match t
    case Leaf => true
    case Node(l, x, r) =>
      (!IsBlack(a, x) ==> IsBlack(a, RootId(l)) && IsBlack(a, RootId(r)))
      && NoRedRed(l, a) && NoRedRed(r, a)
  }

  lemma {:induction false} HeightsBalanced(t: Tree, par: int, a: Rb, h: seq<nat>)
    requires Represents(t, par, a) && BlackHeights(a, h)
    ensures Balanced(t, a) && H(h, RootId(t)) == BlackHeight(t, a)
  {
    match t
    case Leaf =>
    case Node(l, x, r) =>
      HeightsBalanced(l, x, a, h);
      HeightsBalanced(r, x, a, h);
      assert HeightAt(a, h, x);
  }

  lemma {:induction false} RedOKNoRedRed(t: Tree, par: int, a: Rb)
    requires Represents(t, par, a) && RedOK(a)
    ensures NoRedRed(t, a)
  {
    match t
    case Leaf =>
    case Node(l, x, r) =>
      RedOKNoRedRed(l, x, a);
      RedOKNoRedRed(r, x, a);
      assert RedAt(a, RootId(l)) && RedAt(a, RootId(r));
  }

  /** What `RbValid` says about the stored shape: the classic red-black
      properties (black root, no red node with a red child, equal black
      height on both sides of every node) and strictly ascending in-order
      keys. */
  lemma RbValidShape(t: Tree, a: Rb, keys: seq<string>)
    requires RbValid(t, a, keys)
    ensures IsBlack(a, RootId(t)) && NoRedRed(t, a) && Balanced(t, a) && SortedBy(InOrder(t), keys)
  {
    var h :| BlackHeights(a, h);
    HeightsBalanced(t, -1, a, h);
    RedOKNoRedRed(t, -1, a);
  }
}
