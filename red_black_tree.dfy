/** The `RedBlackTree` class: the nodes' keys, links and colours are fields
    updated in place, one entry per node (a node is its index; -1 is
    null). Each method is proved to leave exactly the state the functional
    model of the same operation computes, so the properties proved about
    that model hold of the class. */
module RedBlackTreeClass {
  import opened Strings
  import opened RbShape
  import opened RbArena
  import opened RbFixUp
  import opened RbInsert
  import opened Wrappers

  class RedBlackTree {
    var keys: seq<string>
    var left: seq<int>
    var right: seq<int>
    var parent: seq<int>
    var black: seq<bool>
    var root: int
    /** The tree the links describe. */
    ghost var shape: Tree

    /** The links and colours as a value. */
    function Snapshot(): Rb
      reads this
    {
      Rb(left, right, parent, black, root)
    }

    /** A red-black search tree over `keys`. */
    ghost predicate Valid()
      reads this
    {
      RbValid(shape, Snapshot(), keys)
    }

    /** The keys stored. */
    ghost function Contents(): set<string>
      reads this
    {
      KeysOf(shape, keys)
    }

    /** A new tree is empty (`root` is null). */
    constructor ()
      ensures Valid() && Contents() == {} && root == -1 && keys == []
    {
      keys, left, right, parent, black, root := [], [], [], [], [], -1;
      shape := Leaf;
      new;
      assert BlackHeights(Snapshot(), []);
    }

    // -------------------------------------------------------------------
    // Single field writes through a possibly null node

    method SetChildLink(x: int, leftSide: bool, v: int)
      modifies this
      ensures Snapshot() == SetChild(old(Snapshot()), x, leftSide, v)
      ensures keys == old(keys) && shape == old(shape)
    {
      if leftSide {
        if 0 <= x < |left| { left := left[x := v]; }
      } else {
        if 0 <= x < |right| { right := right[x := v]; }
      }
    }

    method SetParentLink(x: int, v: int)
      modifies this
      ensures Snapshot() == SetParent(old(Snapshot()), x, v)
      ensures keys == old(keys) && shape == old(shape)
    {
      if 0 <= x < |parent| { parent := parent[x := v]; }
    }

    method PaintNode(x: int, isBlack: bool)
      modifies this
      ensures Snapshot() == Paint(old(Snapshot()), x, isBlack)
      ensures keys == old(keys) && shape == old(shape)
    {
      if 0 <= x < |black| { black := black[x := isBlack]; }
    }

    // -------------------------------------------------------------------
    // rotate

    /** `rotate(c, p)`: `related` is false, and nothing changes, unless `c`
        is a child of `p` (the source throws then). Otherwise `c` takes
        `p`'s place and `p` becomes its child on the far side; unlike the
        source, a child rotated into the root position gets a null parent
        (see `RotateAsWritten`). */
    method Rotate(c: int, p: int) returns (related: bool)
      modifies this
      ensures related == Related(old(Snapshot()), c, p)
      ensures !related ==> Snapshot() == old(Snapshot())
      ensures Snapshot() == RbArena.Rotate(old(Snapshot()), c, p)
      ensures keys == old(keys) && shape == old(shape)
    {
      if c == -1 || (Left(Snapshot(), p) != c && Right(Snapshot(), p) != c) {
        return false;
      }
      ghost var a := Snapshot();
      var gp := Parent(Snapshot(), p);
      var side := IsLeftChild(Snapshot(), c);
      SetChildLink(p, side, Child(Snapshot(), c, !side));
      var inner := Child(Snapshot(), c, !side);
      if inner != -1 {
        SetParentLink(inner, p);
      }
      if p == root {
        root := c;
        SetChildLink(c, side, Child(Snapshot(), c, side));
        SetChildLink(c, !side, p);
      }
      SetChildLink(c, !side, p);
      SetParentLink(p, c);
      assert Snapshot() == Turn(a, c, p, side);
      if gp != -1 {
        SetParentLink(c, gp);
        if Left(Snapshot(), gp) == p {
          SetChildLink(gp, true, c);
        } else {
          SetChildLink(gp, false, c);
        }
      } else {
        SetParentLink(c, -1);
      }
      return true;
    }

    // -------------------------------------------------------------------
    // enforceRBTreePropertiesAfterInsert

    /** The fix-up at red node `z`, with the corrected recursion test: it
        recurses on the grandparent after recolouring whenever the parent
        is not the root. `fuel` only bounds the proof: it exceeds the depth
        of `z`, and each recursive call is at least one level higher. */
    method FixUp(z: int, ghost fuel: nat)
      requires FixInv(shape, Snapshot(), z) && (z != -1 ==> fuel > Depth(shape, z))
      modifies this
      decreases fuel
      ensures Snapshot() == RbArena.FixUp(old(Snapshot()), z, fuel)
      ensures Repaired(old(shape), Snapshot())
      ensures keys == old(keys) && shape == old(shape)
    {
      FixPassFacts(shape, Snapshot(), z, fuel);
      var next := FixPass(z);
      if next != -1 {
        FixUp(next, fuel - 1);
      }
    }

    /** One pass of the fix-up at `z`, up to the recursive call, whose
        argument it returns (-1 when the source does not recurse). */
    method FixPass(z: int) returns (next: int)
      modifies this
      ensures (Snapshot(), next) == FixStep(old(Snapshot()), z, true)
      ensures keys == old(keys) && shape == old(shape)
    {
      next := -1;
      if IsBlack(Snapshot(), z) || IsBlack(Snapshot(), Parent(Snapshot(), z)) {
        return;
      }
      var p := Parent(Snapshot(), z);
      var side := IsLeftChild(Snapshot(), p);
      var g := Parent(Snapshot(), p);
      var n := z;
      if IsLeftChild(Snapshot(), z) != side
         && (Child(Snapshot(), g, !side) == -1 || IsBlack(Snapshot(), Child(Snapshot(), g, !side))) {
        var _ := Rotate(z, p);
        n := p;
      }
      var uncle := Child(Snapshot(), Parent(Snapshot(), Parent(Snapshot(), n)), !side);
      if uncle == -1 || IsBlack(Snapshot(), uncle) {
        var _ := Rotate(Parent(Snapshot(), n), Parent(Snapshot(), Parent(Snapshot(), n)));
        PaintNode(n, false);
        PaintNode(Parent(Snapshot(), n), true);
        PaintNode(Child(Snapshot(), Parent(Snapshot(), n), !side), false);
      } else {
        PaintNode(uncle, true);
        PaintNode(Parent(Snapshot(), n), true);
        PaintNode(Parent(Snapshot(), Parent(Snapshot(), n)), false);
        if Parent(Snapshot(), n) != root {
          next := Parent(Snapshot(), Parent(Snapshot(), n));
        }
      }
    }

    // -------------------------------------------------------------------
    // insert and insertHelper

    /** `insert(k)`: false, with nothing changed, when `k` is already
        stored (the source throws); otherwise the new node is attached
        where the ordered descent ends, the fix-up runs, and the root is
        painted black. The tree stays a red-black search tree, now holding
        `k` as well. */
    method Insert(k: string) returns (ok: bool)
      requires Valid()
      modifies this
      ensures Valid()
      ensures ok <==> k !in old(Contents())
      ensures Contents() == old(Contents()) + {k}
      ensures ok ==> (keys == old(keys) + [k]
        && InsertInto(old(shape), old(Snapshot()), old(keys), k) == Some(Snapshot()))
      ensures !ok ==> Snapshot() == old(Snapshot()) && keys == old(keys) && shape == old(shape)
    {
      ghost var t, a, ks := shape, Snapshot(), keys;
      InsertCorrect(t, a, keys, k);
      if root == -1 {
        var n := |left|;
        keys, left, right, parent, black := keys + [k], left + [-1], right + [-1], parent + [-1], black + [false];
        root := n;
        assert t == Leaf;
        assert Snapshot() == BeforeRoot(t, a, SlotFor(t, ks, k));
      } else {
        ok := InsertHelper(k, root, shape, -1);
        if !ok {
          return;
        }
      }
      PaintNode(root, true);
      ok := true;
      assert Snapshot() == InsertInto(t, a, ks, k).value;
      ghost var t' :| RbValid(t', Snapshot(), keys)
        && InOrder(t') == InOrder(AttachTree(t, ks, k, |ks|))
        && KeysOf(t', keys) == KeysOf(t, ks) + {k};
      shape := t';
    }

    /** `insertHelper`: the descent from `subtree`, a node of the tree;
        `sub` is the part of the tree below it, and the descent from the
        root leads through it. On an equal key nothing changes (the source
        throws); at an empty link the new node is hung there and the
        fix-up runs. */
    method InsertHelper(k: string, subtree: int, ghost sub: Tree, ghost par: int) returns (inserted: bool)
      requires Valid()
      requires sub.Node? && sub.id == subtree && Represents(sub, par, Snapshot())
      requires SlotFor(sub, keys, k) == SlotFor(shape, keys, k)
      modifies this
      decreases sub
      ensures inserted <==> SlotFor(old(shape), old(keys), k) != Duplicate
      ensures !inserted ==> Snapshot() == old(Snapshot()) && keys == old(keys) && shape == old(shape)
      ensures inserted ==> (keys == old(keys) + [k]
        && Snapshot() == BeforeRoot(old(shape), old(Snapshot()), SlotFor(old(shape), old(keys), k)))
    {
      var c := CompareTo(k, keys[subtree]);
      if c == 0 {
        return false;
      } else if c < 0 {
        if Left(Snapshot(), subtree) == -1 {
          Hang(k, subtree, true);
          return true;
        }
        inserted := InsertHelper(k, Left(Snapshot(), subtree), sub.left, subtree);
      } else {
        if Right(Snapshot(), subtree) == -1 {
          Hang(k, subtree, false);
          return true;
        }
        inserted := InsertHelper(k, Right(Snapshot(), subtree), sub.right, subtree);
      }
    }

    /** The new red node for `k` becomes the `leftSide` child of `q`, where
        the descent ended, and the fix-up runs on it. */
    method Hang(k: string, q: int, leftSide: bool)
      requires Valid() && SlotFor(shape, keys, k) == Under(q, leftSide)
      modifies this
      ensures keys == old(keys) + [k]
      ensures Snapshot() == BeforeRoot(old(shape), old(Snapshot()), Under(q, leftSide))
    {
      ghost var t, a, ks := shape, Snapshot(), keys;
      var n := |left|;
      HangReady(t, a, ks, k);
      ghost var t1 := AttachTree(t, ks, k, n);
      ghost var fuel := Size(t) + 1;
      assert BeforeRoot(t, a, Under(q, leftSide)) == RbArena.FixUp(Attach(a, q, leftSide), n, fuel);
      AddNode(k, q, leftSide);
      shape := t1;
      FixUp(n, fuel);
    }

    /** `new Node(k)`: a red node with null links, appended, and linked as
        the `leftSide` child of `q`. */
    method AddNode(k: string, q: int, leftSide: bool)
      requires 0 <= q < |left|
      modifies this
      ensures keys == old(keys) + [k] && shape == old(shape)
      ensures Snapshot() == Attach(old(Snapshot()), q, leftSide)
    {
      ghost var a := Snapshot();
      var n := |left|;
      keys, left, right, parent, black := keys + [k], left + [-1], right + [-1], parent + [q], black + [false];
      SetChildLink(q, leftSide, n);
    }
  }
}
