/** Intrusive binary trees with parent pointers. The nodes are heap objects; `Mem` is a snapshot
    of their fields, and `Tree` and `Path` (a tree with a hole) describe which shape a snapshot
    has. Everything here is about values, so that the methods on the heap only have to keep the
    snapshot up to date. */
module TreeShape {

  datatype Color = Unset | Red | Black

  /** Key, payload and colour of a node. */
  datatype Data<V> = Data(key: int, value: V, color: Color)

  class Node<V> {
    var data: Data<V>
    var parent: Node?<V>
    var left: Node?<V>
    var right: Node?<V>

    constructor (key: int, value: V)
      ensures data == Data(key, value, Unset) && parent == null && left == null && right == null
    {
      data := Data(key, value, Unset);
      parent := null;
      left := null;
      right := null;
    }
  }

  datatype Cell<V> = Cell(data: Data<V>, parent: Node?<V>, left: Node?<V>, right: Node?<V>)

  type Mem<V> = map<Node<V>, Cell<V>>

  /** The heap agrees with the snapshot. */
  ghost predicate Snapshot<V>(m: Mem<V>)
    reads m.Keys
  {
    forall n :: n in m ==>
      n.data == m[n].data && n.parent == m[n].parent && n.left == m[n].left && n.right == m[n].right
  }

  datatype Tree<V> = Nil | T(l: Tree<V>, n: Node<V>, data: Data<V>, r: Tree<V>)

  datatype Side = Left | Right

  /** A tree with a hole where the focus goes; `n` is the parent of the focus, which is its child
      on `side`, and `sib` is the other child. */
  datatype Path<V> = Top | Step(side: Side, n: Node<V>, data: Data<V>, sib: Tree<V>, up: Path<V>)

  ghost function Root<V>(t: Tree<V>): Node?<V> {
    if t.Nil? then null else t.n
  }

  ghost function Parent<V>(p: Path<V>): Node?<V> {
    if p.Top? then null else p.n
  }

  ghost function Plug<V>(p: Path<V>, t: Tree<V>): Tree<V> {
    match p
    case Top => t
    case Step(Left, n, d, sib, up) => Plug(up, T(t, n, d, sib))
    case Step(Right, n, d, sib, up) => Plug(up, T(sib, n, d, t))
  }

  ghost function Refs<V>(t: Tree<V>): set<Node<V>> {
    if t.Nil? then {} else Refs(t.l) + {t.n} + Refs(t.r)
  }

  ghost function PathRefs<V>(p: Path<V>): set<Node<V>> {
    if p.Top? then {} else {p.n} + Refs(p.sib) + PathRefs(p.up)
  }

  /** No node occurs twice. */
  ghost predicate Distinct<V>(t: Tree<V>) {
    t.T? ==>
      && t.n !in Refs(t.l) && t.n !in Refs(t.r) && Refs(t.l) !! Refs(t.r)
      && Distinct(t.l) && Distinct(t.r)
  }

  ghost predicate DistinctPath<V>(p: Path<V>) {
    p.Step? ==>
      && p.n !in Refs(p.sib) && p.n !in PathRefs(p.up) && Refs(p.sib) !! PathRefs(p.up)
      && Distinct(p.sib) && DistinctPath(p.up)
  }

  ghost predicate DistinctZip<V>(p: Path<V>, t: Tree<V>) {
    Distinct(t) && DistinctPath(p) && Refs(t) !! PathRefs(p)
  }

  /** The snapshot holds tree `t` under parent `parent`. */
  ghost predicate Holds<V>(m: Mem<V>, t: Tree<V>, parent: Node?<V>) {
    t.T? ==>
      && t.n in m && m[t.n] == Cell(t.data, parent, Root(t.l), Root(t.r))
      && Holds(m, t.l, t.n) && Holds(m, t.r, t.n)
  }

  /** The snapshot holds path `p` around a focus rooted at `focus`, in the tree rooted at `root`. */
  ghost predicate HoldsPath<V>(m: Mem<V>, p: Path<V>, focus: Node?<V>, root: Node?<V>) {
    match p
    case Top => focus == root
    case Step(side, n, d, sib, up) =>
      && n in m
      && m[n] == (if side == Left then Cell(d, Parent(up), focus, Root(sib))
                  else Cell(d, Parent(up), Root(sib), focus))
      && Holds(m, sib, n)
      && HoldsPath(m, up, n, root)
  }

  ghost predicate HoldsZip<V>(m: Mem<V>, p: Path<V>, t: Tree<V>, root: Node?<V>) {
    Holds(m, t, Parent(p)) && HoldsPath(m, p, Root(t), root)
  }

  /** The two snapshots agree on `refs`. */
  ghost predicate Same<V>(m: Mem<V>, m': Mem<V>, refs: set<Node<V>>) {
    forall n :: n in refs && n in m ==> n in m' && m'[n] == m[n]
  }

  // ---------------------------------------------------------------- frame lemmas

  lemma {:induction false} HoldsSame<V>(m: Mem<V>, m': Mem<V>, t: Tree<V>, parent: Node?<V>)
    requires Holds(m, t, parent) && Same(m, m', Refs(t))
    ensures Holds(m', t, parent)
  {
    if t.T? {
      HoldsSame(m, m', t.l, t.n);
      HoldsSame(m, m', t.r, t.n);
    }
  }

  lemma {:induction false} HoldsPathSame<V>(m: Mem<V>, m': Mem<V>, p: Path<V>, focus: Node?<V>, root: Node?<V>)
    requires HoldsPath(m, p, focus, root) && Same(m, m', PathRefs(p))
    ensures HoldsPath(m', p, focus, root)
  {
    if p.Step? {
      HoldsSame(m, m', p.sib, p.n);
      HoldsPathSame(m, m', p.up, p.n, root);
    }
  }

  /** The tree keeps its shape when only the parent pointer of its root changes. */
  lemma HoldsReparent<V>(m: Mem<V>, m': Mem<V>, t: Tree<V>, parent: Node?<V>, parent': Node?<V>)
    requires Holds(m, t, parent) && Distinct(t)
    requires Same(m, m', Refs(t) - (if t.T? then {t.n} else {}))
    requires t.T? ==> t.n in m' && m'[t.n] == m[t.n].(parent := parent')
    ensures Holds(m', t, parent')
  {
    if t.T? {
      HoldsSame(m, m', t.l, t.n);
      HoldsSame(m, m', t.r, t.n);
    }
  }

  /** A different focus root at the same place: only the parent's child pointer (or the tree root)
      changes. */
  lemma HoldsPathRefocus<V>(m: Mem<V>, m': Mem<V>, p: Path<V>, focus: Node?<V>, focus': Node?<V>,
                            root: Node?<V>, root': Node?<V>)
    requires HoldsPath(m, p, focus, root) && DistinctPath(p)
    requires Same(m, m', PathRefs(p) - (if p.Step? then {p.n} else {}))
    requires if p.Top? then root' == focus' else
      && root' == root && p.n in m'
      && m'[p.n] == (if p.side == Left then m[p.n].(left := focus') else m[p.n].(right := focus'))
    ensures HoldsPath(m', p, focus', root')
  {
    if p.Step? {
      HoldsSame(m, m', p.sib, p.n);
      HoldsPathSame(m, m', p.up, p.n, root);
    }
  }

  // ---------------------------------------------------------------- plugging

  lemma {:induction false} PlugHolds<V>(m: Mem<V>, p: Path<V>, t: Tree<V>, root: Node?<V>)
    requires HoldsZip(m, p, t, root)
    ensures Holds(m, Plug(p, t), null) && Root(Plug(p, t)) == root
  {
    if p.Step? {
      PlugHolds(m, p.up, if p.side == Left then T(t, p.n, p.data, p.sib) else T(p.sib, p.n, p.data, t), root);
    }
  }

  lemma {:induction false} PlugRefs<V>(p: Path<V>, t: Tree<V>)
    ensures Refs(Plug(p, t)) == PathRefs(p) + Refs(t)
  {
    if p.Step? {
      PlugRefs(p.up, if p.side == Left then T(t, p.n, p.data, p.sib) else T(p.sib, p.n, p.data, t));
    }
  }

  lemma {:induction false} PlugDistinct<V>(p: Path<V>, t: Tree<V>)
    requires DistinctZip(p, t)
    ensures Distinct(Plug(p, t))
  {
    if p.Step? {
      PlugDistinct(p.up, if p.side == Left then T(t, p.n, p.data, p.sib) else T(p.sib, p.n, p.data, t));
    }
  }

  lemma RootInRefs<V>(t: Tree<V>)
    ensures t.T? ==> t.n in Refs(t)
    ensures Root(t) != null ==> t.T?
  {
  }

  /** Node `n` with the focus on `side` and `sib` on the other. */
  ghost function Join<V>(side: Side, t: Tree<V>, n: Node<V>, d: Data<V>, sib: Tree<V>): Tree<V> {
    if side == Left then T(t, n, d, sib) else T(sib, n, d, t)
  }

  /** Moving the focus to its parent describes the same links. */
  lemma ZipUp<V>(m: Mem<V>, p: Path<V>, t: Tree<V>, root: Node?<V>)
    requires p.Step?
    ensures HoldsZip(m, p, t, root) <==> HoldsZip(m, p.up, Join(p.side, t, p.n, p.data, p.sib), root)
    ensures DistinctZip(p, t) <==> DistinctZip(p.up, Join(p.side, t, p.n, p.data, p.sib))
    ensures PathRefs(p) + Refs(t) == PathRefs(p.up) + Refs(Join(p.side, t, p.n, p.data, p.sib))
  {
  }

  /** Changing only the data at the root of the focus. */
  lemma PaintZip<V>(m: Mem<V>, p: Path<V>, t: Tree<V>, root: Node?<V>, d: Data<V>)
    requires t.T? && HoldsZip(m, p, t, root) && DistinctZip(p, t)
    ensures t.n in m
    ensures HoldsZip(m[t.n := m[t.n].(data := d)], p, t.(data := d), root)
    ensures DistinctZip(p, t.(data := d)) && Refs(t.(data := d)) == Refs(t)
  {
    var m' := m[t.n := m[t.n].(data := d)];
    HoldsSame(m, m', t.l, t.n);
    HoldsSame(m, m', t.r, t.n);
    HoldsPathSame(m, m', p, t.n, root);
  }

  /** Closing the path describes the same links as one tree. */
  lemma ZipClose<V>(m: Mem<V>, p: Path<V>, t: Tree<V>, root: Node?<V>)
    requires HoldsZip(m, p, t, root) && DistinctZip(p, t)
    ensures HoldsZip(m, Top, Plug(p, t), root) && DistinctZip(Top, Plug(p, t)) && Root(Plug(p, t)) == root
    ensures PathRefs<V>(Top) + Refs(Plug(p, t)) == PathRefs(p) + Refs(t)
  {
    PlugHolds(m, p, t, root);
    PlugRefs(p, t);
    PlugDistinct(p, t);
  }

  /** The root of the whole tree lies on a path that is not empty. */
  lemma {:induction false} RootOnPath<V>(m: Mem<V>, p: Path<V>, focus: Node?<V>, root: Node?<V>)
    requires HoldsPath(m, p, focus, root) && p.Step?
    ensures root != null && root in PathRefs(p)
  {
    if p.up.Step? {
      RootOnPath(m, p.up, p.n, root);
    }
  }
}
