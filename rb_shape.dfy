/** The shape of a red-black tree as a value: which node (by its index in the
    node arena) sits where. Colours are kept apart, in a sequence indexed by
    node, so that recolouring never changes the shape. */
module RbShape {

  datatype Tree = Leaf | Node(left: Tree, id: int, right: Tree)

  /** The index of the node at the top of `t`, or -1 (null) for an empty tree. */
  function RootId(t: Tree): int {
    if t.Leaf? then -1 else t.id
  }

  function Ids(t: Tree): set<int> {
    match t
    case Leaf => {}
    case Node(l, id, r) => Ids(l) + {id} + Ids(r)
  }

  function Size(t: Tree): nat {
    match t
    case Leaf => 0
    case Node(l, _, r) => Size(l) + 1 + Size(r)
  }

  /** No node index occurs twice. */
  ghost predicate Unique(t: Tree) {
    match t
    case Leaf => true
    case Node(l, id, r) =>
      Unique(l) && Unique(r) && id !in Ids(l) && id !in Ids(r) && Ids(l) !! Ids(r)
  }

  /** The node indices in in-order (left, node, right). */
  function InOrder(t: Tree): seq<int> {
    match t
    case Leaf => []
    case Node(l, id, r) => InOrder(l) + [id] + InOrder(r)
  }

  /** The subtree whose top node is `x` (empty when `x` is absent). */
  function Find(t: Tree, x: int): Tree {
    match t
    case Leaf => Leaf
    case Node(l, id, r) =>
      if x == id then t else if x in Ids(l) then Find(l, x) else Find(r, x)
  }

  /** `t` with the subtree whose top node is `x` replaced by `s`. */
  function Replace(t: Tree, x: int, s: Tree): Tree {
    match t
    case Leaf => Leaf
    case Node(l, id, r) =>
      if x == id then s
      else if x in Ids(l) then Node(Replace(l, x, s), id, r)
      else if x in Ids(r) then Node(l, id, Replace(r, x, s))
      else t
  }

  /** Number of links from the top of `t` down to node `x`. */
  function Depth(t: Tree, x: int): nat {
    match t
    case Leaf => 0
    case Node(l, id, r) =>
      if x == id then 0 else if x in Ids(l) then 1 + Depth(l, x) else 1 + Depth(r, x)
  }

  /** Rotation of the child `c` of the top node of `t` into the top position:
      a right rotation when `c` is the left child, a left rotation otherwise. */
  function RotLocal(t: Tree, c: int): (r: Tree)
    ensures Ids(r) == Ids(t) && InOrder(r) == InOrder(t) && Size(r) == Size(t)
  {
    if t.Node? && t.left.Node? && t.left.id == c then
      Node(t.left.left, c, Node(t.left.right, t.id, t.right))
    else if t.Node? && t.right.Node? && t.right.id == c then
      Node(Node(t.left, t.id, t.right.left), c, t.right.right)
    else t
  }

  function LeftOf(t: Tree): Tree { if t.Node? then t.left else Leaf }

  function RightOf(t: Tree): Tree { if t.Node? then t.right else Leaf }

  function ChildOf(t: Tree, leftSide: bool): Tree {
    if leftSide then LeftOf(t) else RightOf(t)
  }

  /** The index of the parent of node `x`, where the top of `t` hangs under `par`. */
  function ParentIn(t: Tree, par: int, x: int): int {
    match t
    case Leaf => -1
    case Node(l, id, r) =>
      if x == id then par else if x in Ids(l) then ParentIn(l, id, x) else ParentIn(r, id, x)
  }

  /** The whole tree after rotating child `c` over its parent `p`. */
  function RotTree(t: Tree, c: int, p: int): Tree {
    Replace(t, p, RotLocal(Find(t, p), c))
  }

  // ---------------------------------------------------------------------
  // Structural lemmas

  lemma {:induction false} FindFacts(t: Tree, x: int)
    requires Unique(t) && x in Ids(t)
    ensures Find(t, x).Node? && Find(t, x).id == x
    ensures Ids(Find(t, x)) <= Ids(t) && Unique(Find(t, x))
    ensures Size(Find(t, x)) <= Size(t)
  {
    match t
    case Node(l, id, r) =>
      if x != id {
        if x in Ids(l) { FindFacts(l, x); } else { FindFacts(r, x); }
      }
  }

  /** The subtree below a node's child link is found under the child's index. */
  lemma {:induction false} FindChild(t: Tree, q: int)
    requires Unique(t) && q in Ids(t)
    ensures LeftOf(Find(t, q)).Node? ==> Find(t, LeftOf(Find(t, q)).id) == LeftOf(Find(t, q))
    ensures RightOf(Find(t, q)).Node? ==> Find(t, RightOf(Find(t, q)).id) == RightOf(Find(t, q))
  {
    match t
    case Node(l, id, r) =>
      if q == id {
        if l.Node? { FindTop(l); }
        if r.Node? { FindTop(r); }
      } else if q in Ids(l) {
        FindFacts(l, q);
        FindChild(l, q);
      } else {
        FindFacts(r, q);
        FindChild(r, q);
      }
  }

  lemma FindTop(t: Tree)
    requires t.Node?
    ensures Find(t, t.id) == t
  {
  }

  /** Nodes below `q` are nodes of `t` below `q`'s own subtree. */
  lemma {:induction false} FindNested(t: Tree, q: int, x: int)
    requires Unique(t) && q in Ids(t) && x in Ids(Find(t, q))
    ensures Find(t, x) == Find(Find(t, q), x)
  {
    match t
    case Node(l, id, r) =>
      if q == id {
      } else if q in Ids(l) {
        FindFacts(l, q);
        FindNested(l, q, x);
      } else {
        FindFacts(r, q);
        FindNested(r, q, x);
      }
  }

  lemma {:induction false} ReplaceFacts(t: Tree, x: int, s: Tree)
    requires Unique(t) && x in Ids(t) && Unique(s) && Ids(s) == Ids(Find(t, x))
    ensures Ids(Replace(t, x, s)) == Ids(t) && Unique(Replace(t, x, s))
    ensures InOrder(s) == InOrder(Find(t, x)) ==> InOrder(Replace(t, x, s)) == InOrder(t)
    ensures Size(s) == Size(Find(t, x)) ==> Size(Replace(t, x, s)) == Size(t)
  {
    match t
    case Node(l, id, r) =>
      if x == id {
      } else if x in Ids(l) {
        ReplaceFacts(l, x, s);
      } else {
        ReplaceFacts(r, x, s);
      }
  }

  /** Looking up an ancestor `g` of `p` after replacing `p`'s subtree. */
  lemma {:induction false} FindAfterReplace(t: Tree, g: int, p: int, s: Tree)
    requires Unique(t) && g in Ids(t) && p in Ids(Find(t, g)) && p != g
    requires Ids(s) == Ids(Find(t, p))
    ensures Find(Replace(t, p, s), g) == Replace(Find(t, g), p, s)
  {
    FindFacts(t, g);
    FindNested(t, g, p);
    match t
    case Node(l, id, r) =>
      if g == id {
      } else if g in Ids(l) {
        FindFacts(l, g);
        FindFacts(l, p);
        ReplaceFacts'(l, p, s);
        FindAfterReplace(l, g, p, s);
      } else {
        FindFacts(r, g);
        FindFacts(r, p);
        ReplaceFacts'(r, p, s);
        FindAfterReplace(r, g, p, s);
      }
  }

  /** A replacement below `g` is absorbed by a later replacement at `g`. */
  lemma {:induction false} ReplaceAbsorb(t: Tree, g: int, p: int, s: Tree, u: Tree)
    requires Unique(t) && g in Ids(t) && p in Ids(Find(t, g)) && p != g
    requires Ids(s) == Ids(Find(t, p))
    ensures Replace(Replace(t, p, s), g, u) == Replace(t, g, u)
  {
    FindFacts(t, g);
    FindNested(t, g, p);
    match t
    case Node(l, id, r) =>
      if g == id {
      } else if g in Ids(l) {
        FindFacts(l, g);
        FindFacts(l, p);
        ReplaceFacts'(l, p, s);
        ReplaceAbsorb(l, g, p, s, u);
      } else {
        FindFacts(r, g);
        FindFacts(r, p);
        ReplaceFacts'(r, p, s);
        ReplaceAbsorb(r, g, p, s, u);
      }
  }

  /** Replacing keeps the index set when the new subtree has the old one's indices
      (no uniqueness of `s` needed). */
  lemma {:induction false} ReplaceFacts'(t: Tree, x: int, s: Tree)
    requires Unique(t) && x in Ids(t) && Ids(s) == Ids(Find(t, x))
    ensures Ids(Replace(t, x, s)) == Ids(t)
  {
    match t
    case Node(l, id, r) =>
      if x == id {
      } else if x in Ids(l) {
        ReplaceFacts'(l, x, s);
      } else {
        ReplaceFacts'(r, x, s);
      }
  }

  /** A node one link below `q` is one level deeper than `q`. */
  lemma {:induction false} ChildDepth(t: Tree, q: int, c: int)
    requires Unique(t) && q in Ids(t)
    requires c != -1 && (c == RootId(LeftOf(Find(t, q))) || c == RootId(RightOf(Find(t, q))))
    ensures c in Ids(t) && Depth(t, c) == Depth(t, q) + 1
  {
    match t
    case Node(l, id, r) =>
      if q == id {
        if c == RootId(l) { assert c in Ids(l); } else { assert c in Ids(r); }
      } else if q in Ids(l) {
        FindFacts(l, q);
        ChildDepth(l, q, c);
      } else {
        FindFacts(r, q);
        ChildDepth(r, q, c);
      }
  }

  lemma {:induction false} DepthBound(t: Tree, x: int)
    requires Unique(t) && x in Ids(t)
    ensures Depth(t, x) < Size(t)
  {
    match t
    case Node(l, id, r) =>
      if x != id {
        if x in Ids(l) { DepthBound(l, x); } else { DepthBound(r, x); }
      }
  }

  /** The parent of a child of `q` is `q`. */
  lemma {:induction false} ParentInOfChild(t: Tree, par: int, q: int, c: int)
    requires Unique(t) && q in Ids(t) && c != -1
    requires c == RootId(LeftOf(Find(t, q))) || c == RootId(RightOf(Find(t, q)))
    ensures c in Ids(t) && ParentIn(t, par, c) == q
  {
    match t
    case Node(l, id, r) =>
      if q == id {
        if c == RootId(l) { assert c in Ids(l); } else { assert c in Ids(r); }
      } else if q in Ids(l) {
        FindFacts(l, q);
        ParentInOfChild(l, id, q, c);
      } else {
        FindFacts(r, q);
        ParentInOfChild(r, id, q, c);
      }
  }

  /** A node is either the top of the tree or a child of its parent. */
  lemma {:induction false} ParentInCases(t: Tree, par: int, x: int)
    requires Unique(t) && x in Ids(t)
    ensures (x == RootId(t) && ParentIn(t, par, x) == par)
         || (ParentIn(t, par, x) in Ids(t) &&
             (x == RootId(LeftOf(Find(t, ParentIn(t, par, x)))) ||
              x == RootId(RightOf(Find(t, ParentIn(t, par, x))))))
  {
    match t
    case Node(l, id, r) =>
      if x == id {
      } else if x in Ids(l) {
        if x != RootId(l) { ParentInCases(l, id, x); FindFacts(l, ParentIn(l, id, x)); }
      } else {
        if x != RootId(r) { ParentInCases(r, id, x); FindFacts(r, ParentIn(r, id, x)); }
      }
  }

  /** Nodes below `x` lie at least as deep as `x`. */
  lemma {:induction false} DepthBelow(t: Tree, x: int, y: int)
    requires Unique(t) && x in Ids(t) && y in Ids(Find(t, x))
    ensures y in Ids(t) && Depth(t, y) >= Depth(t, x)
  {
    FindFacts(t, x);
    match t
    case Node(l, id, r) =>
      if x == id {
      } else if x in Ids(l) {
        FindFacts(l, x);
        DepthBelow(l, x, y);
      } else {
        FindFacts(r, x);
        DepthBelow(r, x, y);
      }
  }

  lemma RotLocalUnique(t: Tree, c: int)
    requires Unique(t)
    ensures Unique(RotLocal(t, c))
  {
    if t.Node? && t.left.Node? && t.left.id == c {
      var Node(Node(a, _, b), p, r) := t;
      assert Unique(Node(b, p, r));
    } else if t.Node? && t.right.Node? && t.right.id == c {
      var Node(l, p, Node(b, _, a)) := t;
      assert Unique(Node(l, p, b));
    }
  }
}
