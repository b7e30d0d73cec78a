/** Red-black balance of trees, and of trees with a single violation at a focus. */
module RedBlackTheory {
  import opened Bits
  import opened TreeShape
  import opened TreeOrder

  predicate IsRed<V>(t: Tree<V>) {
    t.T? && t.data.color == Red
  }

  /** Black nodes on the leftmost way down; on every way down when `Balanced`. */
  ghost function BlackHeight<V>(t: Tree<V>): nat {
    if t.Nil? then 0 else BlackHeight(t.l) + (if t.data.color == Black then 1 else 0)
  }

  /** Every node is coloured and has equal black heights on both sides. */
  ghost predicate Balanced<V>(t: Tree<V>) {
    t.T? ==>
      && t.data.color != Unset && BlackHeight(t.l) == BlackHeight(t.r)
      && Balanced(t.l) && Balanced(t.r)
  }

  /** No red node has a red child. */
  ghost predicate NoRedRed<V>(t: Tree<V>) {
    t.T? ==>
      && (IsRed(t) ==> !IsRed(t.l) && !IsRed(t.r))
      && NoRedRed(t.l) && NoRedRed(t.r)
  }

  ghost predicate RedBlack<V>(t: Tree<V>) {
    Balanced(t) && NoRedRed(t) && !IsRed(t)
  }

  function Paint<V>(d: Data<V>, c: Color): Data<V> {
    d.(color := c)
  }

  function PaintRoot<V>(t: Tree<V>, c: Color): Tree<V>
    requires t.T?
  {
    t.(data := Paint(t.data, c))
  }

  ghost predicate ParentRed<V>(p: Path<V>) {
    p.Step? && p.data.color == Red
  }

  /** A focus of black height `h` keeps the whole balanced. */
  ghost predicate BalancedPath<V>(p: Path<V>, h: nat) {
    p.Step? ==>
      && p.data.color != Unset && Balanced(p.sib) && BlackHeight(p.sib) == h
      && BalancedPath(p.up, h + (if p.data.color == Black then 1 else 0))
  }

  /** No red node on the path has a red parent or a red child off the path. */
  ghost predicate CalmPath<V>(p: Path<V>) {
    p.Step? ==>
      && NoRedRed(p.sib) && (p.data.color == Red ==> !IsRed(p.sib) && !ParentRed(p.up))
      && CalmPath(p.up)
  }

  ghost predicate RootBlack<V>(p: Path<V>) {
    p.Step? ==> if p.up.Top? then p.data.color == Black else RootBlack(p.up)
  }

  /** A red-black tree but for its red focus, which may be the root or have a red parent. */
  ghost predicate Repairing<V>(p: Path<V>, t: Tree<V>) {
    && IsRed(t) && Balanced(t) && NoRedRed(t)
    && BalancedPath(p, BlackHeight(t)) && CalmPath(p) && RootBlack(p)
  }

  lemma {:induction false} PlugBalanced<V>(p: Path<V>, t: Tree<V>)
    requires Balanced(t) && NoRedRed(t) && BalancedPath(p, BlackHeight(t)) && CalmPath(p) && RootBlack(p)
    requires ParentRed(p) ==> !IsRed(t)
    requires p.Top? ==> !IsRed(t)
    ensures RedBlack(Plug(p, t))
  {
    if p.Step? {
      PlugBalanced(p.up, Join(p.side, t, p.n, p.data, p.sib));
    }
  }

  lemma {:induction false} UnplugBalanced<V>(p: Path<V>, t: Tree<V>)
    requires RedBlack(Plug(p, t))
    ensures Balanced(t) && NoRedRed(t) && BalancedPath(p, BlackHeight(t)) && CalmPath(p) && RootBlack(p)
    ensures ParentRed(p) ==> !IsRed(t)
  {
    if p.Step? {
      UnplugBalanced(p.up, Join(p.side, t, p.n, p.data, p.sib));
    }
  }

  /** A red focus under a black parent, or a focus at the root painted black, is no violation. */
  lemma RepairDone<V>(p: Path<V>, t: Tree<V>)
    requires Repairing(p, t) && !ParentRed(p)
    ensures p.Step? ==> RedBlack(Plug(p, t))
    ensures p.Top? ==> RedBlack(Plug(p, PaintRoot(t, Black)))
  {
    if p.Step? { PlugBalanced(p, t); } else { PlugBalanced(p, PaintRoot(t, Black)); }
  }

  /** A red parent is not the root, and the grandparent is black. */
  lemma Grandparent<V>(p: Path<V>)
    requires ParentRed(p) && CalmPath(p) && RootBlack(p)
    ensures p.up.Step? && p.up.data.color != Red
  {
  }

  /** With a red uncle, repainting moves the violation two levels up. */
  lemma RecolorMovesUp<V>(p: Path<V>, t: Tree<V>)
    requires Repairing(p, t) && ParentRed(p) && p.up.Step? && IsRed(p.up.sib)
    ensures Repairing(p.up.up,
      Join(p.up.side, Join(p.side, t, p.n, Paint(p.data, Black), p.sib), p.up.n,
           Paint(p.up.data, Red), PaintRoot(p.up.sib, Black)))
  {
    var q := p.up;
    assert BalancedPath(q, BlackHeight(t)) && CalmPath(q) && RootBlack(q);
    var pt := Join(p.side, t, p.n, Paint(p.data, Black), p.sib);
    assert Balanced(pt) && NoRedRed(pt) && BlackHeight(pt) == BlackHeight(t) + 1;
    var u := PaintRoot(p.up.sib, Black);
    assert Balanced(u) && NoRedRed(u) && BlackHeight(u) == BlackHeight(t) + 1;
  }

  /** With a black uncle and the focus on the outer side, one rotation ends the repair. */
  lemma OuterRotation<V>(p: Path<V>, t: Tree<V>)
    requires Repairing(p, t) && ParentRed(p) && p.up.Step? && !IsRed(p.up.sib)
    ensures Repairing(Step(p.side, p.n, Paint(p.data, Black),
                           Join(p.side, p.sib, p.up.n, Paint(p.up.data, Red), p.up.sib), p.up.up), t)
  {
    var q := p.up;
    assert BalancedPath(q, BlackHeight(t)) && CalmPath(q) && RootBlack(q);
    var g := Join(p.side, p.sib, p.up.n, Paint(p.up.data, Red), p.up.sib);
    assert Balanced(g) && NoRedRed(g) && BlackHeight(g) == BlackHeight(t);
  }

  /** Rotating an inner focus below its parent puts the old parent on the outer side. */
  lemma InnerRotation<V>(p: Path<V>, t: Tree<V>)
    requires Repairing(p, t) && ParentRed(p)
    ensures p.side == Right ==>
      Repairing(Step(Left, t.n, t.data, t.r, p.up), T(p.sib, p.n, p.data, t.l))
    ensures p.side == Left ==>
      Repairing(Step(Right, t.n, t.data, t.l, p.up), T(t.r, p.n, p.data, p.sib))
  {
    var f := if p.side == Right then T(p.sib, p.n, p.data, t.l) else T(t.r, p.n, p.data, p.sib);
    assert IsRed(f) && Balanced(f) && NoRedRed(f) && BlackHeight(f) == BlackHeight(t);
  }

  /** Blackening the root ends the repair. */
  lemma BlackenEnds<V>(p: Path<V>, t: Tree<V>)
    requires Repairing(p, t) && !ParentRed(p)
    ensures Plug(p, t).T? && RedBlack(PaintRoot(Plug(p, t), Black))
    ensures Entries(PaintRoot(Plug(p, t), Black)) == Entries(Plug(p, t))
  {
    RepairDone(p, t);
    PlugIsNode(p, t);
  }

  lemma {:induction false} PlugIsNode<V>(p: Path<V>, t: Tree<V>)
    requires t.T?
    ensures Plug(p, t).T?
  {
    if p.Step? {
      PlugIsNode(p.up, Join(p.side, t, p.n, p.data, p.sib));
    }
  }

  /** A red leaf in place of an empty subtree of a red-black tree. */
  lemma RedLeaf<V>(q: Path<V>, leaf: Node<V>, d: Data<V>)
    requires RedBlack(Plug(q, Nil)) && d.color == Red
    ensures Repairing(q, T(Nil, leaf, d, Nil))
    ensures q.Step? && q.up.Top? ==> !ParentRed(q)
  {
    UnplugBalanced(q, Nil);
  }

  // ---------------------------------------------------------------- contents

  lemma PlugSameEntries<V>(p: Path<V>, t: Tree<V>, t': Tree<V>)
    requires Entries(t) == Entries(t')
    ensures Entries(Plug(p, t)) == Entries(Plug(p, t'))
  {
    PlugEntries(p, t);
    PlugEntries(p, t');
  }

  lemma RotationEntries<V>(a: Tree<V>, x: Node<V>, dx: Data<V>, b: Tree<V>, y: Node<V>, dy: Data<V>, c: Tree<V>)
    ensures Entries(T(T(a, x, dx, b), y, dy, c)) == Entries(T(a, x, dx, T(b, y, dy, c)))
  {
    assert Entries(T(a, x, dx, b)) == Entries(a) + [EntryOf(dx)] + Entries(b);
    assert Entries(T(b, y, dy, c)) == Entries(b) + [EntryOf(dy)] + Entries(c);
  }

  lemma RecolorEntries<V>(p: Path<V>, t: Tree<V>)
    requires p.Step? && p.up.Step? && p.up.sib.T?
    ensures Entries(Plug(p.up.up,
      Join(p.up.side, Join(p.side, t, p.n, Paint(p.data, Black), p.sib), p.up.n,
           Paint(p.up.data, Red), PaintRoot(p.up.sib, Black)))) == Entries(Plug(p, t))
  {
    var q := p.up;
    var p0, p1 := Join(p.side, t, p.n, p.data, p.sib), Join(p.side, t, p.n, Paint(p.data, Black), p.sib);
    assert Entries(p1) == Entries(p0);
    assert Entries(PaintRoot(q.sib, Black)) == Entries(q.sib);
    PlugSameEntries(q.up, Join(q.side, p0, q.n, q.data, q.sib),
                    Join(q.side, p1, q.n, Paint(q.data, Red), PaintRoot(q.sib, Black)));
    assert Plug(p, t) == Plug(q, p0) == Plug(q.up, Join(q.side, p0, q.n, q.data, q.sib));
  }

  lemma InnerEntries<V>(p: Path<V>, t: Tree<V>)
    requires p.Step? && t.T?
    ensures Entries(Plug(Step(Left, t.n, t.data, t.r, p.up), T(p.sib, p.n, p.data, t.l)))
         == Entries(Plug(p.(side := Right), t))
    ensures Entries(Plug(Step(Right, t.n, t.data, t.l, p.up), T(t.r, p.n, p.data, p.sib)))
         == Entries(Plug(p.(side := Left), t))
  {
    RotationEntries(p.sib, p.n, p.data, t.l, t.n, t.data, t.r);
    PlugSameEntries(p.up, T(p.sib, p.n, p.data, t), T(T(p.sib, p.n, p.data, t.l), t.n, t.data, t.r));
    RotationEntries(t.l, t.n, t.data, t.r, p.n, p.data, p.sib);
    PlugSameEntries(p.up, T(t, p.n, p.data, p.sib), T(t.l, t.n, t.data, T(t.r, p.n, p.data, p.sib)));
  }

  lemma OuterEntries<V>(p: Path<V>, t: Tree<V>)
    requires p.Step? && p.up.Step? && p.side == p.up.side
    ensures Entries(Plug(Step(p.side, p.n, Paint(p.data, Black),
                              Join(p.side, p.sib, p.up.n, Paint(p.up.data, Red), p.up.sib), p.up.up), t))
         == Entries(Plug(p, t))
  {
    var q := p.up;
    var dp, dg := Paint(p.data, Black), Paint(q.data, Red);
    var g := Join(p.side, p.sib, q.n, dg, q.sib);
    var before := Join(q.side, Join(p.side, t, p.n, p.data, p.sib), q.n, q.data, q.sib);
    assert Plug(p, t) == Plug(q, Join(p.side, t, p.n, p.data, p.sib)) == Plug(q.up, before);
    if p.side == Left {
      RotationEntries(t, p.n, p.data, p.sib, q.n, q.data, q.sib);
      assert Entries(g) == Entries(T(p.sib, q.n, q.data, q.sib));
    } else {
      RotationEntries(q.sib, q.n, q.data, p.sib, p.n, p.data, t);
      assert Entries(g) == Entries(T(q.sib, q.n, q.data, p.sib));
    }
    PlugSameEntries(q.up, before, Join(p.side, t, p.n, dp, g));
  }

  ghost function Depth<V>(p: Path<V>): nat {
    if p.Top? then 0 else 1 + Depth(p.up)
  }

  // ---------------------------------------------------------------- height

  lemma {:induction false} BlackHeightBounds<V>(t: Tree<V>)
    requires Balanced(t) && NoRedRed(t)
    ensures Size(t) + 1 >= Pow2(BlackHeight(t))
    ensures Height(t) <= 2 * BlackHeight(t) + (if IsRed(t) then 1 else 0)
  {
    if t.T? {
      BlackHeightBounds(t.l);
      BlackHeightBounds(t.r);
    }
  }

  /** The height is at most `2 * log2(n + 1)`. */
  lemma HeightBound<V>(t: Tree<V>)
    requires RedBlack(t)
    ensures Pow2(Height(t)) <= (Size(t) + 1) * (Size(t) + 1)
  {
    BlackHeightBounds(t);
    var h, n := BlackHeight(t), Size(t) + 1;
    Pow2Monotone(Height(t), 2 * h);
    Pow2Add(h, h);
    assert Pow2(h) * Pow2(h) <= n * n by {
      MulMonotone(Pow2(h), n);
    }
  }

  lemma MulMonotone(a: nat, b: nat)
    requires a <= b
    ensures a * a <= b * b
  {
    var d := b - a;
    assert b * b == (a + d) * b == a * b + d * b;
    assert a * b == a * (a + d) == a * a + a * d;
  }
}
