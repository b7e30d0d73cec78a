/** `rt::RedBlackTree`: insertion with rebalancing, on the nodes in place. The source derives the
    class from the plain search tree; here it owns one. */
module RedBlackTree {
  import opened TreeShape
  import opened TreeOrder
  import opened RedBlackTheory
  import BST = BinarySearchTree

  function Opposite(s: Side): Side {
    if s == Left then Right else Left
  }

  /** What the repair loop sees around the focus: parent, grandparent and uncle, whose sides can be
      told apart by comparing pointers. */
  lemma Neighbours<V>(m: Mem<V>, p: Path<V>, t: Tree<V>, root: Node?<V>)
    requires p.Step? && p.up.Step? && t.T? && HoldsZip(m, p, t, root) && DistinctZip(p, t)
    ensures var q, parent, grand := p.up, p.n, p.up.n;
      && t.n in m && parent in m && grand in m && m[t.n].parent == parent && m[parent].parent == grand
      && (m[parent].left == t.n <==> p.side == Left) && (m[parent].right == t.n <==> p.side == Right)
      && (m[grand].left == parent <==> q.side == Left) && (m[grand].right == parent <==> q.side == Right)
      && Root(q.sib) == (if q.side == Left then m[grand].right else m[grand].left)
      && (q.sib.T? ==> q.sib.n in m && m[q.sib.n].data == q.sib.data)
  {
    RootInRefs(p.sib);
    RootInRefs(p.up.sib);
    assert HoldsPath(m, p.up, p.n, root);
  }

  /** The loop guard sees the colour of the parent on the path. */
  ghost predicate ParentSeen<V>(m: Mem<V>, leaf: Node<V>, p: Path<V>)
  {
    && leaf in m && (m[leaf].parent != null ==> m[leaf].parent in m)
    && (ParentRed(p) <==> m[leaf].parent != null && m[m[leaf].parent].data.color == Red)
  }

  lemma FocusParent<V>(m: Mem<V>, p: Path<V>, t: Tree<V>, root: Node?<V>)
    requires t.T? && HoldsZip(m, p, t, root) && DistinctZip(p, t)
    ensures ParentSeen(m, t.n, p) && (t.n == root ==> p.Top?)
  {
    if p.Step? { RootOnPath(m, p, t.n, root); }
  }

  lemma ParentChain<V>(m: Mem<V>, p: Path<V>, t: Tree<V>, root: Node?<V>)
    requires t.T? && HoldsZip(m, p, t, root)
    ensures t.n in m && m[t.n].parent == Parent(p)
    ensures p.Step? ==> p.n in m && m[p.n].parent == Parent(p.up)
  {
  }

  class RedBlackTree<V> {
    const bst: BST.BinarySearchTree<V>

    /** A linked search tree that is red-black. */
    ghost predicate Valid()
      reads this, bst, bst.mem.Keys
    {
      bst.Valid() && RedBlack(bst.shape)
    }

    ghost function Contents(): seq<Entry<V>>
      reads this, bst
    {
      bst.Contents()
    }

    constructor ()
      ensures Valid() && Contents() == [] && bst.mem == map[] && fresh(bst)
    {
      bst := new BST.BinarySearchTree<V>();
    }

    // ---------------------------------------------------------------- steps of the repair

    /** Red uncle: uncle and parent turn black, the grandparent red. */
    method Recolor(leaf: Node<V>, uncle: Node<V>, ghost p: Path<V>, ghost t: Tree<V>)
      returns (ghost g: Tree<V>)
      requires bst.Zipped(p, t) && t.T? && t.n == leaf && p.Step? && p.up.Step? && p.up.sib.T? && p.up.sib.n == uncle
      modifies bst`mem, bst.mem.Keys
      ensures g == Join(p.up.side, Join(p.side, t, p.n, Paint(p.data, Black), p.sib), p.up.n,
                        Paint(p.up.data, Red), PaintRoot(p.up.sib, Black))
      ensures bst.Zipped(p.up.up, g) && bst.mem.Keys == old(bst.mem.Keys)
    {
      ghost var q, p0 := p.up, Join(p.side, t, p.n, p.data, p.sib);
      ZipUp(bst.mem, p, t, bst.root);
      ZipUp(bst.mem, q, p0, bst.root);
      ghost var u := Step(Opposite(q.side), q.n, q.data, p0, q.up);
      ZipUp(bst.mem, u, q.sib, bst.root);
      var parent := bst.ParentOf(leaf);
      var grand := bst.ParentOf(parent);
      assert parent == p.n && grand == q.n;
      hide Snapshot, HoldsZip, DistinctZip;
      bst.PaintAt(uncle, Black, u, q.sib);
      ghost var u1 := PaintRoot(q.sib, Black);
      ZipUp(bst.mem, u, u1, bst.root);
      ghost var q1 := q.(sib := u1);
      ZipUp(bst.mem, q1, p0, bst.root);
      bst.PaintAt(parent, Black, q1, p0);
      ghost var p1 := PaintRoot(p0, Black);
      ZipUp(bst.mem, q1, p1, bst.root);
      g := Join(q.side, p1, q.n, q.data, u1);
      bst.PaintAt(grand, Red, q.up, g);
      g := PaintRoot(g, Red);
    }

    /** Focus on the inner side: rotating its parent the other way makes the parent the new focus,
        on the outer side. */
    method RotateInner(leaf: Node<V>, side: Side, ghost p: Path<V>, ghost t: Tree<V>)
      returns (leaf': Node<V>, ghost p': Path<V>, ghost t': Tree<V>)
      requires bst.Zipped(p, t) && t.T? && t.n == leaf && p.Step? && p.side == side
      modifies bst`mem, bst`root, bst.mem.Keys
      ensures leaf' == p.n && bst.Zipped(p', t') && bst.mem.Keys == old(bst.mem.Keys)
      ensures p.side == Right ==> p' == Step(Left, t.n, t.data, t.r, p.up) && t' == T(p.sib, p.n, p.data, t.l)
      ensures p.side == Left ==> p' == Step(Right, t.n, t.data, t.l, p.up) && t' == T(t.r, p.n, p.data, p.sib)
    {
      ZipUp(bst.mem, p, t, bst.root);
      leaf' := bst.ParentOf(leaf);
      hide Snapshot, HoldsZip, DistinctZip;
      if side == Right {
        assert Join(p.side, t, p.n, p.data, p.sib) == T(p.sib, p.n, p.data, T(t.l, t.n, t.data, t.r));
        bst.RotateLeftAt(leaf', p.up, p.sib, p.data, t.l, t.n, t.data, t.r);
        p', t' := Step(Left, t.n, t.data, t.r, p.up), T(p.sib, p.n, p.data, t.l);
      } else {
        assert Join(p.side, t, p.n, p.data, p.sib) == T(T(t.l, t.n, t.data, t.r), p.n, p.data, p.sib);
        bst.RotateRightAt(leaf', p.up, t.l, t.n, t.data, t.r, p.data, p.sib);
        p', t' := Step(Right, t.n, t.data, t.l, p.up), T(t.r, p.n, p.data, p.sib);
      }
      ZipUp(bst.mem, p', t', bst.root);
    }

    /** Focus on the outer side: the parent turns black, the grandparent red and below it. */
    method RotateOuter(leaf: Node<V>, side: Side, ghost p: Path<V>, ghost t: Tree<V>) returns (ghost p': Path<V>)
      requires bst.Zipped(p, t) && t.T? && t.n == leaf && p.Step? && p.up.Step? && p.side == p.up.side == side
      modifies bst`mem, bst`root, bst.mem.Keys
      ensures p' == Step(p.side, p.n, Paint(p.data, Black),
                         Join(p.side, p.sib, p.up.n, Paint(p.up.data, Red), p.up.sib), p.up.up)
      ensures bst.Zipped(p', t) && bst.mem.Keys == old(bst.mem.Keys)
    {
      ghost var q, p0 := p.up, Join(p.side, t, p.n, p.data, p.sib);
      ZipUp(bst.mem, p, t, bst.root);
      ZipUp(bst.mem, q, p0, bst.root);
      var parent := bst.ParentOf(leaf);
      var grand := bst.ParentOf(parent);
      assert parent == p.n && grand == q.n;
      hide Snapshot, HoldsZip, DistinctZip;
      bst.PaintAt(parent, Black, q, p0);
      ghost var dp, dg := Paint(p.data, Black), Paint(q.data, Red);
      ghost var p1 := Join(p.side, t, p.n, dp, p.sib);
      ZipUp(bst.mem, q, p1, bst.root);
      bst.PaintAt(grand, Red, q.up, Join(q.side, p1, q.n, q.data, q.sib));
      if side == Left {
        bst.RotateRightAt(grand, q.up, t, p.n, dp, p.sib, dg, q.sib);
      } else {
        bst.RotateLeftAt(grand, q.up, q.sib, dg, p.sib, p.n, dp, t);
      }
      p' := Step(p.side, p.n, dp, Join(p.side, p.sib, q.n, dg, q.sib), q.up);
      ZipUp(bst.mem, p', t, bst.root);
    }

    /** One round of the repair loop. */
    method RepairStep(leaf: Node<V>, ghost p: Path<V>, ghost t: Tree<V>)
      returns (leaf': Node<V>, ghost p': Path<V>, ghost t': Tree<V>)
      requires bst.Zipped(p, t) && Repairing(p, t) && t.n == leaf && ParentRed(p)
      modifies bst`mem, bst`root, bst.mem.Keys
      ensures bst.Zipped(p', t') && Repairing(p', t') && t'.n == leaf' && bst.mem.Keys == old(bst.mem.Keys)
      ensures Depth(p') < Depth(p) && Entries(Plug(p', t')) == Entries(Plug(p, t))
    {
      Grandparent(p);
      Neighbours(bst.mem, p, t, bst.root);
      ghost var q := p.up;
      var parent := bst.ParentOf(leaf);
      var grand := bst.ParentOf(parent);
      var side := if parent == bst.RightOf(grand) then Right else Left;
      var uncle := if side == Right then bst.LeftOf(grand) else bst.RightOf(grand);
      assert side == q.side && uncle == Root(q.sib);
      var inner := leaf == (if side == Right then bst.LeftOf(parent) else bst.RightOf(parent));
      assert inner <==> p.side != q.side;
      if uncle != null && bst.DataOf(uncle).color == Red {
        RecolorMovesUp(p, t);
        RecolorEntries(p, t);
        hide Snapshot, HoldsZip, DistinctZip, Repairing;
        t' := Recolor(leaf, uncle, p, t);
        leaf', p' := grand, q.up;
      } else {
        assert !IsRed(q.sib);
        leaf', p', t' := leaf, p, t;
        if inner {
          InnerRotation(p, t);
          InnerEntries(p, t);
          leaf', p', t' := RotateInner(leaf, Opposite(side), p, t);
        }
        OuterRotation(p', t');
        OuterEntries(p', t');
        hide Snapshot, HoldsZip, DistinctZip, Repairing;
        p' := RotateOuter(leaf', side, p', t');
      }
    }

    /** `repairPostInsert`: moves the violation up until it is gone, then blackens the root. */
    method RepairPostInsert(leaf0: Node<V>, ghost p0: Path<V>, ghost t0: Tree<V>)
      requires bst.Zipped(p0, t0) && Repairing(p0, t0) && t0.n == leaf0
      modifies bst, bst.mem.Keys
      ensures bst.Zipped(Top, bst.shape) && RedBlack(bst.shape) && bst.mem.Keys == old(bst.mem.Keys)
      ensures Entries(bst.shape) == Entries(Plug(p0, t0))
    {
      var leaf := leaf0;
      ghost var p, t := p0, t0;
      FocusParent(bst.mem, p, t, bst.root);
      hide Snapshot, HoldsZip, DistinctZip, Repairing;
      while bst.ParentOf(leaf) != null && bst.DataOf(bst.ParentOf(leaf)).color == Red
        invariant bst.Zipped(p, t) && Repairing(p, t) && t.T? && t.n == leaf && bst.mem.Keys == old(bst.mem.Keys)
        invariant ParentSeen(bst.mem, leaf, p)
        invariant Entries(Plug(p, t)) == Entries(Plug(p0, t0))
        decreases Depth(p)
      {
        leaf, p, t := RepairStep(leaf, p, t);
        FocusParent(bst.mem, p, t, bst.root);
        if leaf == bst.root {
          break;
        }
      }
      Blacken(p, t);
    }

    /** The final statement of the repair: the root turns black. */
    method Blacken(ghost p: Path<V>, ghost t: Tree<V>)
      requires bst.Zipped(p, t) && Repairing(p, t) && !ParentRed(p)
      modifies bst, bst.mem.Keys
      ensures bst.Zipped(Top, bst.shape) && RedBlack(bst.shape) && bst.mem.Keys == old(bst.mem.Keys)
      ensures Entries(bst.shape) == Entries(Plug(p, t))
    {
      hide Snapshot, HoldsZip, DistinctZip, Repairing, RedBlack, Plug;
      BlackenEnds(p, t);
      ZipClose(bst.mem, p, t, bst.root);
      bst.PaintAt(bst.root, Black, Top, Plug(p, t));
      bst.shape := PaintRoot(Plug(p, t), Black);
    }

    // ---------------------------------------------------------------- insertion

    /** Inserts a node. The source panics when the key is taken (`ok` is false); otherwise the tree
        stays red-black and gains exactly the entry of the node. */
    method Insert(leaf: Node<V>) returns (ok: bool)
      requires Valid() && leaf !in bst.mem && leaf.left == null && leaf.right == null
      modifies bst, bst.mem.Keys, leaf
      ensures ok <==> !HasKey(old(Contents()), old(leaf.data.key))
      ensures ok ==> Valid() && bst.mem.Keys == old(bst.mem.Keys) + {leaf}
      ensures ok ==> WithEntry(old(Contents()), Contents(), old(EntryOf(leaf.data)))
    {
      ghost var d := leaf.data;
      ghost var q;
      ok, q := bst.InsertAt(leaf, bst.root, null, Left, Top, bst.shape);
      if !ok {
        return;
      }
      FillHole(q, leaf, d);
      FillHole(q, leaf, Paint(d, Red));
      RedLeaf(q, leaf, Paint(d, Red));
      hide Snapshot, HoldsZip, DistinctZip, Repairing, RedBlack, Plug;
      PaintAndRepair(leaf, q, d);
    }

    /** The part of `insert` after linking: a new node is red; a root turns black, a child of the
        root stays, any other starts the repair. */
    method PaintAndRepair(leaf: Node<V>, ghost q: Path<V>, ghost d: Data<V>)
      requires bst.Zipped(q, T(Nil, leaf, d, Nil)) && Repairing(q, T(Nil, leaf, Paint(d, Red), Nil))
      requires q.Step? && q.up.Top? ==> !ParentRed(q)
      modifies bst, bst.mem.Keys
      ensures bst.Zipped(Top, bst.shape) && RedBlack(bst.shape) && bst.mem.Keys == old(bst.mem.Keys)
      ensures Entries(bst.shape) == Entries(Plug(q, T(Nil, leaf, Paint(d, Red), Nil)))
    {
      ghost var t := T(Nil, leaf, Paint(d, Red), Nil);
      hide Snapshot, HoldsZip, DistinctZip, Repairing, RedBlack;
      bst.PaintAt(leaf, Red, q, T(Nil, leaf, d, Nil));
      ParentChain(bst.mem, q, t, bst.root);
      var parent := bst.ParentOf(leaf);
      if parent == null {
        BlackenEnds(q, t);
        bst.PaintAt(leaf, Black, q, t);
        bst.shape := PaintRoot(t, Black);
        return;
      }
      hide Plug;
      if bst.ParentOf(parent) == null {
        RepairDone(q, t);
        ZipClose(bst.mem, q, t, bst.root);
        bst.shape := Plug(q, t);
        return;
      }
      RepairPostInsert(leaf, q, t);
    }
  }
}
