/** `rt::BinarySearchTree`: an ordered tree over intrusive nodes, updated in place. */
module BinarySearchTree {
  import opened TreeShape
  import opened TreeOrder

  /** The five parts of a rotation and the path above it share no node. */
  ghost predicate Apart<V>(p: Path<V>, a: Tree<V>, x: Node<V>, b: Tree<V>, y: Node<V>, c: Tree<V>)
  {
    && x != y && {x, y} !! Refs(a) && {x, y} !! Refs(b) && {x, y} !! Refs(c) && {x, y} !! PathRefs(p)
    && Refs(a) !! Refs(b) && Refs(a) !! Refs(c) && Refs(b) !! Refs(c)
    && Refs(a) !! PathRefs(p) && Refs(b) !! PathRefs(p) && Refs(c) !! PathRefs(p)
    && Distinct(a) && Distinct(b) && Distinct(c) && DistinctPath(p)
  }

  /** The set conditions of two nested nodes, spelled out. */
  lemma ApartSets<X>(a: set<X>, b: set<X>, c: set<X>, p: set<X>, x: X, y: X)
    ensures var r := b + {y} + c;
      (x !in a && x !in r && a !! r && y !in b && y !in c && b !! c && (a + {x} + r) !! p) <==>
      (&& x != y && {x, y} !! a && {x, y} !! b && {x, y} !! c && {x, y} !! p
       && a !! b && a !! c && b !! c && a !! p && b !! p && c !! p)
  {
  }

  lemma DistinctNode<V>(l: Tree<V>, n: Node<V>, d: Data<V>, r: Tree<V>)
    ensures Refs(T(l, n, d, r)) == Refs(l) + {n} + Refs(r)
    ensures Distinct(T(l, n, d, r)) <==>
      n !in Refs(l) && n !in Refs(r) && Refs(l) !! Refs(r) && Distinct(l) && Distinct(r)
  {
  }

  lemma ApartLeft<V>(p: Path<V>, a: Tree<V>, x: Node<V>, dx: Data<V>, b: Tree<V>, y: Node<V>, dy: Data<V>, c: Tree<V>)
    ensures DistinctZip(p, T(T(a, x, dx, b), y, dy, c)) <==> Apart(p, a, x, b, y, c)
    ensures Refs(T(T(a, x, dx, b), y, dy, c)) == Refs(a) + Refs(b) + Refs(c) + {x, y}
  {
    hide Refs, Distinct, DistinctPath, PathRefs;
    DistinctNode(T(a, x, dx, b), y, dy, c);
    DistinctNode(a, x, dx, b);
    ApartSets(Refs(c), Refs(a), Refs(b), PathRefs(p), y, x);
  }

  lemma ApartRight<V>(p: Path<V>, a: Tree<V>, x: Node<V>, dx: Data<V>, b: Tree<V>, y: Node<V>, dy: Data<V>, c: Tree<V>)
    ensures DistinctZip(p, T(a, x, dx, T(b, y, dy, c))) <==> Apart(p, a, x, b, y, c)
    ensures Refs(T(a, x, dx, T(b, y, dy, c))) == Refs(a) + Refs(b) + Refs(c) + {x, y}
  {
    hide Refs, Distinct, DistinctPath, PathRefs;
    DistinctNode(a, x, dx, T(b, y, dy, c));
    DistinctNode(b, y, dy, c);
    ApartSets(Refs(a), Refs(b), Refs(c), PathRefs(p), x, y);
  }

  /** The child pointer of `parent` that refers to `n` refers to `v` instead. */
  ghost function Redirected<V>(m: Mem<V>, parent: Node?<V>, n: Node<V>, v: Node?<V>): Mem<V>
  {
    if parent == null || parent !in m then m
    else if m[parent].left == n then m[parent := m[parent].(left := v)]
    else m[parent := m[parent].(right := v)]
  }

  lemma RedirectedKeys<V>(m: Mem<V>, parent: Node?<V>, n: Node<V>, v: Node?<V>)
    ensures Redirected(m, parent, n, v).Keys == m.Keys
  {
  }

  ghost function WithLeft<V>(m: Mem<V>, n: Node<V>, v: Node?<V>): Mem<V>
    requires n in m
  {
    m[n := m[n].(left := v)]
  }

  ghost function WithRight<V>(m: Mem<V>, n: Node<V>, v: Node?<V>): Mem<V>
    requires n in m
  {
    m[n := m[n].(right := v)]
  }

  ghost function WithParent<V>(m: Mem<V>, n: Node<V>, v: Node?<V>): Mem<V>
    requires n in m
  {
    m[n := m[n].(parent := v)]
  }

  ghost function Reparented<V>(m: Mem<V>, n: Node?<V>, parent: Node?<V>): Mem<V>
  {
    if n == null || n !in m then m else WithParent(m, n, parent)
  }

  lemma ReparentedKeys<V>(m: Mem<V>, n: Node?<V>, parent: Node?<V>)
    ensures Reparented(m, n, parent).Keys == m.Keys
  {
  }

  ghost predicate CanRotateLeft<V>(m: Mem<V>, x: Node<V>)
  {
    && x in m && m[x].right != null && m[x].right in m && m[x].right != x
    && (var y := m[x].right;
        && (m[y].left != null ==> m[y].left in m && m[y].left != x && m[y].left != y)
        && (m[x].parent != null ==>
              m[x].parent in m && m[x].parent != x && m[x].parent != y && m[x].parent != m[y].left))
  }

  /** Snapshot after `LeftRotate(x)`. */
  ghost function RotatedLeft<V>(m: Mem<V>, x: Node<V>): Mem<V>
    requires CanRotateLeft(m, x)
  {
    var y, b, p := m[x].right, m[m[x].right].left, m[x].parent;
    var m3 := WithParent(Reparented(WithRight(m, x, b), b, x), y, p);
    WithParent(WithLeft(Redirected(m3, p, x, y), y, x), x, y)
  }

  ghost predicate CanRotateRight<V>(m: Mem<V>, y: Node<V>)
  {
    && y in m && m[y].left != null && m[y].left in m && m[y].left != y
    && (var x := m[y].left;
        && (m[x].right != null ==> m[x].right in m && m[x].right != y && m[x].right != x)
        && (m[y].parent != null ==>
              m[y].parent in m && m[y].parent != y && m[y].parent != x && m[y].parent != m[x].right))
  }

  /** Snapshot after `RightRotate(y)`. */
  ghost function RotatedRight<V>(m: Mem<V>, y: Node<V>): Mem<V>
    requires CanRotateRight(m, y)
  {
    var x, b, p := m[y].left, m[m[y].left].right, m[y].parent;
    var m3 := WithParent(Reparented(WithLeft(m, y, b), b, y), x, p);
    WithParent(WithRight(Redirected(m3, p, y, x), x, y), y, x)
  }

  /** What a left rotation does to each node. */
  lemma RotatedLeftCells<V>(m: Mem<V>, x: Node<V>)
    requires CanRotateLeft(m, x)
    ensures var m', y, b, p := RotatedLeft(m, x), m[x].right, m[m[x].right].left, m[x].parent;
      && m'.Keys == m.Keys
      && m'[x] == m[x].(right := b, parent := y) && m'[y] == m[y].(left := x, parent := p)
      && (b != null ==> m'[b] == m[b].(parent := x))
      && (p != null ==> m'[p] == if m[p].left == x then m[p].(left := y) else m[p].(right := y))
      && (forall n :: n in m && n != x && n != y && n != b && n != p ==> m'[n] == m[n])
  {
  }

  lemma RotatedRightCells<V>(m: Mem<V>, y: Node<V>)
    requires CanRotateRight(m, y)
    ensures var m', x, b, p := RotatedRight(m, y), m[y].left, m[m[y].left].right, m[y].parent;
      && m'.Keys == m.Keys
      && m'[y] == m[y].(left := b, parent := x) && m'[x] == m[x].(right := y, parent := p)
      && (b != null ==> m'[b] == m[b].(parent := y))
      && (p != null ==> m'[p] == if m[p].left == y then m[p].(left := x) else m[p].(right := x))
      && (forall n :: n in m && n != x && n != y && n != b && n != p ==> m'[n] == m[n])
  {
  }

  /** The moved subtree and the parent of a rotation are nodes of the snapshot, and different. */
  lemma RotationLinks<V>(m: Mem<V>, p: Path<V>, b: Tree<V>, y: Node<V>, focus: Node<V>)
    requires Holds(m, b, y) && (exists root :: HoldsPath(m, p, focus, root))
    requires Refs(b) !! PathRefs(p) && focus !in PathRefs(p)
    ensures b.T? ==> b.n in m && b.n in Refs(b)
    ensures p.Step? ==> p.n in m && (m[p.n].left == focus <==> p.side == Left)
    ensures p.Step? ==> p.n in PathRefs(p) && p.n !in Refs(b)
  {
    if p.Step? { RootInRefs(p.sib); }
  }

  lemma RotateLeftZip<V>(m: Mem<V>, p: Path<V>, a: Tree<V>, x: Node<V>, dx: Data<V>,
                         b: Tree<V>, y: Node<V>, dy: Data<V>, c: Tree<V>, root: Node?<V>)
    requires HoldsZip(m, p, T(a, x, dx, T(b, y, dy, c)), root) && Apart(p, a, x, b, y, c)
    ensures CanRotateLeft(m, x) && m[x].right == y && m[x].parent == Parent(p)
    ensures HoldsZip(RotatedLeft(m, x), p, T(T(a, x, dx, b), y, dy, c), if p.Top? then y else root)
  {
    hide RotatedLeft, Refs, PathRefs, Distinct, DistinctPath, HoldsPath;
    assert Holds(m, T(b, y, dy, c), x);
    RotationLinks(m, p, b, y, x);
    assert CanRotateLeft(m, x);
    var m' := RotatedLeft(m, x);
    RotatedLeftCells(m, x);
    HoldsSame(m, m', a, x);
    HoldsSame(m, m', c, y);
    HoldsReparent(m, m', b, y, x);
    assert Holds(m', T(a, x, dx, b), y);
    HoldsPathRefocus(m, m', p, x, y, root, if p.Top? then y else root);
  }

  lemma RotateRightZip<V>(m: Mem<V>, p: Path<V>, a: Tree<V>, x: Node<V>, dx: Data<V>,
                          b: Tree<V>, y: Node<V>, dy: Data<V>, c: Tree<V>, root: Node?<V>)
    requires HoldsZip(m, p, T(T(a, x, dx, b), y, dy, c), root) && Apart(p, a, x, b, y, c)
    ensures CanRotateRight(m, y) && m[y].left == x && m[y].parent == Parent(p)
    ensures HoldsZip(RotatedRight(m, y), p, T(a, x, dx, T(b, y, dy, c)), if p.Top? then x else root)
  {
    hide RotatedRight, Refs, PathRefs, Distinct, DistinctPath, HoldsPath;
    assert Holds(m, T(a, x, dx, b), y);
    RotationLinks(m, p, b, x, y);
    assert CanRotateRight(m, y);
    var m' := RotatedRight(m, y);
    RotatedRightCells(m, y);
    HoldsSame(m, m', a, x);
    HoldsSame(m, m', c, y);
    HoldsReparent(m, m', b, x, y);
    assert Holds(m', T(b, y, dy, c), x);
    HoldsPathRefocus(m, m', p, y, x, root, if p.Top? then x else root);
  }

  /** Linking a new leaf into the hole of a path. */
  lemma LinkZip<V>(m: Mem<V>, p: Path<V>, leaf: Node<V>, d: Data<V>, root: Node?<V>)
    requires HoldsZip(m, p, Nil, root) && DistinctZip(p, Nil) && leaf !in m && m.Keys == PathRefs(p)
    ensures p.Step? ==> p.n in m && p.n != leaf
    ensures var m1 := m[leaf := Cell(d, Parent(p), null, null)];
      var m' := if p.Top? then m1 else if p.side == Left then WithLeft(m1, p.n, leaf) else WithRight(m1, p.n, leaf);
      && HoldsZip(m', p, T(Nil, leaf, d, Nil), if p.Top? then leaf else root)
      && DistinctZip(p, T(Nil, leaf, d, Nil)) && m'.Keys == m.Keys + {leaf}
      && Refs(T(Nil, leaf, d, Nil)) == {leaf}
  {
    var m1 := m[leaf := Cell(d, Parent(p), null, null)];
    HoldsPathSame(m, m1, p, null, root);
    var m' := if p.Top? then m1 else if p.side == Left then WithLeft(m1, p.n, leaf) else WithRight(m1, p.n, leaf);
    HoldsPathRefocus(m1, m', p, null, leaf, root, if p.Top? then leaf else root);
    assert m'[leaf] == Cell(d, Parent(p), null, null);
  }

  /** In an ordered list a key can only be on its own side of an entry. */
  lemma KeySides<V>(a: seq<Entry<V>>, e: Entry<V>, b: seq<Entry<V>>, k: int)
    requires AllBelow(a, e.key) && AllAbove(b, e.key)
    ensures k < e.key ==> (HasKey(a + [e] + b, k) <==> HasKey(a, k))
    ensures k > e.key ==> (HasKey(a + [e] + b, k) <==> HasKey(b, k))
  {
    var s := a + [e] + b;
    if HasKey(a, k) {
      var i :| 0 <= i < |a| && a[i].key == k;
      assert s[i] == a[i];
    }
    if HasKey(b, k) {
      var i :| 0 <= i < |b| && b[i].key == k;
      assert s[|a| + 1 + i] == b[i];
    }
    if HasKey(s, k) {
      var i :| 0 <= i < |s| && s[i].key == k;
      assert s[i] == if i < |a| then a[i] else if i == |a| then e else b[i - |a| - 1];
    }
  }

  lemma BelowMore<V>(x: seq<Entry<V>>, a: seq<Entry<V>>, e: Entry<V>, k: int)
    requires AllBelow(x, k) && AllBelow(a, e.key) && e.key < k
    ensures AllBelow(x + (a + [e]), k)
  {
  }

  lemma AboveMore<V>(x: seq<Entry<V>>, b: seq<Entry<V>>, e: Entry<V>, k: int)
    requires AllAbove(x, k) && AllAbove(b, e.key) && e.key > k
    ensures AllAbove(([e] + b) + x, k)
  {
  }

  lemma RootKey<V>(t: Tree<V>, k: int)
    ensures t.Nil? ==> !HasKey(Entries(t), k)
    ensures t.T? && t.data.key == k ==> HasKey(Entries(t), k)
  {
    if t.T? { assert Entries(t)[|Entries(t.l)|] == EntryOf(t.data); }
  }

  lemma TopHasNothing<V>(k: int)
    ensures AllBelow(Before<V>(Top), k) && AllAbove(After<V>(Top), k)
  {
  }

  lemma DescendLeft<V>(p: Path<V>, t: Tree<V>, k: int)
    requires t.T? && Sorted(Entries(t)) && k < t.data.key && AllAbove(After(p), k)
    ensures AllAbove(After(Step(Left, t.n, t.data, t.r, p)), k)
    ensures HasKey(Entries(t), k) <==> HasKey(Entries(t.l), k)
  {
    hide Sorted, HasKey, AllBelow, AllAbove;
    SortedConcat(Entries(t.l), EntryOf(t.data), Entries(t.r));
    KeySides(Entries(t.l), EntryOf(t.data), Entries(t.r), k);
    AboveMore(After(p), Entries(t.r), EntryOf(t.data), k);
  }

  lemma DescendRight<V>(p: Path<V>, t: Tree<V>, k: int)
    requires t.T? && Sorted(Entries(t)) && k > t.data.key && AllBelow(Before(p), k)
    ensures AllBelow(Before(Step(Right, t.n, t.data, t.l, p)), k)
    ensures HasKey(Entries(t), k) <==> HasKey(Entries(t.r), k)
  {
    hide Sorted, HasKey, AllBelow, AllAbove;
    SortedConcat(Entries(t.l), EntryOf(t.data), Entries(t.r));
    KeySides(Entries(t.l), EntryOf(t.data), Entries(t.r), k);
    BelowMore(Before(p), Entries(t.l), EntryOf(t.data), k);
  }

  datatype RemoveResult = NotFound | Removed | NullParent

  lemma UnlinkFacts<V>(m: Mem<V>, p: Path<V>, t: Tree<V>, child: Tree<V>, root: Node?<V>)
    requires HoldsZip(m, p, t, root) && DistinctZip(p, t)
    requires t.T? && ((t.l == child && t.r.Nil?) || (t.r == child && t.l.Nil?))
    ensures t.n in m && m[t.n].parent == Parent(p)
    ensures p.Step? ==> p.n in m && p.n != t.n && p.n in PathRefs(p) && (m[p.n].left == t.n <==> p.side == Left)
    ensures child.T? ==> child.n in m && child.n != t.n && child.n in Refs(child)
    ensures Holds(m, child, t.n) && HoldsPath(m, p, t.n, root)
    ensures Distinct(child) && DistinctPath(p) && DistinctZip(p, child) && Refs(child) !! PathRefs(p)
    ensures Refs(t) == Refs(child) + {t.n} && t.n !in Refs(child) && t.n !in PathRefs(p)
  {
    if p.Step? { RootInRefs(p.sib); }
    assert Holds(m, child, t.n);
    RootInRefs(child);
  }

  /** What unlinking does to each node. */
  lemma UnlinkCells<V>(m: Mem<V>, p: Path<V>, n: Node<V>, child: Tree<V>)
    requires n in m && (p.Step? ==> p.n in m && p.n != n && ((m[p.n].left == n) <==> p.side == Left))
    requires child.T? ==> child.n in m && child.n != n && child.n != Parent(p)
    ensures var m' := Reparented(Redirected(m, Parent(p), n, Root(child)), Root(child), Parent(p)) - {n};
      && m'.Keys == m.Keys - {n}
      && (child.T? ==> m'[child.n] == m[child.n].(parent := Parent(p)))
      && (p.Step? ==> m'[p.n] == if p.side == Left then m[p.n].(left := Root(child)) else m[p.n].(right := Root(child)))
      && (forall k :: k in m && k != n && k != Root(child) && k != Parent(p) ==> m'[k] == m[k])
  {
  }

  /** Unlinking the root of the focus, which has `child` and no other child. */
  lemma UnlinkZip<V>(m: Mem<V>, p: Path<V>, t: Tree<V>, child: Tree<V>, root: Node?<V>)
    requires HoldsZip(m, p, t, root) && DistinctZip(p, t) && m.Keys == PathRefs(p) + Refs(t)
    requires t.T? && ((t.l == child && t.r.Nil?) || (t.r == child && t.l.Nil?))
    ensures t.n in m && m[t.n].parent == Parent(p) && (p.Step? ==> p.n in m)
    ensures child.T? ==> child.n in m && child.n != Parent(p)
    ensures var m' := Reparented(Redirected(m, Parent(p), t.n, Root(child)), Root(child), Parent(p)) - {t.n};
      && HoldsZip(m', p, child, if p.Top? then Root(child) else root) && DistinctZip(p, child)
      && m'.Keys == PathRefs(p) + Refs(child)
  {
    hide Redirected, Reparented, Refs, PathRefs, Distinct, DistinctPath, DistinctZip, Holds, HoldsPath;
    UnlinkFacts(m, p, t, child, root);
    var m' := Reparented(Redirected(m, Parent(p), t.n, Root(child)), Root(child), Parent(p)) - {t.n};
    UnlinkCells(m, p, t.n, child);
    HoldsReparent(m, m', child, t.n, Parent(p));
    HoldsPathRefocus(m, m', p, t.n, Root(child), root, if p.Top? then Root(child) else root);
  }

  lemma RemoveEntries<V>(t: Tree<V>, child: Tree<V>)
    requires t.T? && ((t.l == child && t.r.Nil?) || (t.r == child && t.l.Nil?))
    ensures Dropped(Entries(t), Entries(child), t.data.key)
  {
    DroppedAt(Entries(t.l), EntryOf(t.data), Entries(t.r));
    assert Entries(child) == Entries(t.l) + Entries(t.r);
  }

  /** Replacing a node's data by that of its successor and dropping the successor drops the node's
      own entry. */
  lemma ReplaceBySuccessor<V>(t: Tree<V>, d: Data<V>, r': Tree<V>)
    requires t.T? && Sorted(Entries(t.r)) && |Entries(t.r)| > 0 && EntryOf(d) == Entries(t.r)[0]
    requires Dropped(Entries(t.r), Entries(r'), d.key)
    ensures Dropped(Entries(t), Entries(T(t.l, t.n, d, r')), t.data.key)
  {
    var l, r := Entries(t.l), Entries(t.r);
    DroppedFirst(r, Entries(r'));
    DroppedAt(l, EntryOf(t.data), r);
    Reassociate(l, EntryOf(d), r, Entries(r'));
    hide Dropped, Sorted;
  }

  lemma Reassociate<X>(a: seq<X>, e: X, s: seq<X>, s': seq<X>)
    requires |s| > 0 && e == s[0] && s' == s[1..]
    ensures a + [e] + s' == a + s
  {
  }

  lemma DropLeft<V>(t: Tree<V>, l': Tree<V>, k: int)
    requires t.T? && Dropped(Entries(t.l), Entries(l'), k)
    ensures Dropped(Entries(t), Entries(t.(l := l')), k)
  {
    var e, r := [EntryOf(t.data)], Entries(t.r);
    DroppedInside([], Entries(t.l), Entries(l'), e + r, k);
    hide Dropped;
    Flatten3(Entries(t.l), e, r);
    Flatten3(Entries(l'), e, r);
  }

  lemma DropRight<V>(t: Tree<V>, r': Tree<V>, k: int)
    requires t.T? && Dropped(Entries(t.r), Entries(r'), k)
    ensures Dropped(Entries(t), Entries(t.(r := r')), k)
  {
    var l, e := Entries(t.l), [EntryOf(t.data)];
    DroppedInside(l + e, Entries(t.r), Entries(r'), [], k);
    hide Dropped;
    Flatten3(l, e, Entries(t.r));
    Flatten3(l, e, Entries(r'));
  }

  lemma Flatten3<X>(a: seq<X>, b: seq<X>, c: seq<X>)
    ensures [] + a + (b + c) == a + b + c && (a + b) + c + [] == a + b + c
  {
  }

  /** The side of a focus can be told by comparing pointers with its parent. */
  lemma SideSeen<V>(m: Mem<V>, p: Path<V>, t: Tree<V>, root: Node?<V>)
    requires p.Step? && t.T? && HoldsZip(m, p, t, root) && DistinctZip(p, t)
    ensures t.n in m && m[t.n].parent == p.n && p.n in m && m[p.n].parent == Parent(p.up)
    ensures m[p.n].right == t.n <==> p.side == Right
    ensures t.r.T? ==> t.r.n != p.n
  {
    RootInRefs(p.sib);
    RootInRefs(t.r);
  }

  /** Brings the node at position `i` of the in-order sequence into focus. */
  lemma {:induction false} Locate<V>(m: Mem<V>, p: Path<V>, t: Tree<V>, root: Node?<V>, i: int)
    returns (q: Path<V>, f: Tree<V>)
    requires HoldsZip(m, p, t, root) && DistinctZip(p, t) && 0 <= i < |Nodes(t)|
    ensures HoldsZip(m, q, f, root) && DistinctZip(q, f) && Plug(q, f) == Plug(p, t)
    ensures f.T? && f.n == Nodes(t)[i] && |NodesBefore(q)| + |Nodes(f.l)| == |NodesBefore(p)| + i
    decreases t
  {
    var k := |Nodes(t.l)|;
    if i < k {
      ZipUp(m, Step(Left, t.n, t.data, t.r, p), t.l, root);
      q, f := Locate(m, Step(Left, t.n, t.data, t.r, p), t.l, root, i);
    } else if i > k {
      ZipUp(m, Step(Right, t.n, t.data, t.l, p), t.r, root);
      q, f := Locate(m, Step(Right, t.n, t.data, t.l, p), t.r, root, i - k - 1);
    } else {
      q, f := p, t;
    }
  }

  /** What follows a focus without right child is what follows its path. */
  lemma NodesSplit<V>(p: Path<V>, t: Tree<V>, i: int)
    requires t.T? && i == |NodesBefore(p)| + |Nodes(t.l)|
    ensures var s := Nodes(Plug(p, t));
      && i < |s| && s[i] == t.n
      && (t.r.T? ==> |Nodes(t.r)| > 0 && i + 1 < |s| && s[i + 1] == Nodes(t.r)[0])
      && (t.r.Nil? ==> |s| - (i + 1) == |NodesAfter(p)| && (NodesAfter(p) != [] ==> s[i + 1] == NodesAfter(p)[0]))
  {
    PlugNodes(p, t);
    SizeIsLength(t.r);
  }

  class BinarySearchTree<V> {
    var root: Node?<V>
    ghost var mem: Mem<V>
    ghost var shape: Tree<V>

    /** The nodes are linked as `t` sitting in the hole of `p`. */
    ghost predicate Zipped(p: Path<V>, t: Tree<V>)
      reads this, mem.Keys
    {
      && Snapshot(mem) && mem.Keys == PathRefs(p) + Refs(t)
      && HoldsZip(mem, p, t, root) && DistinctZip(p, t)
    }

    /** Links mirror each other, no node occurs twice, keys strictly increase in order. */
    ghost predicate Valid()
      reads this, mem.Keys
    {
      Zipped(Top, shape) && Sorted(Entries(shape))
    }

    /** The entries of the tree in key order. */
    ghost function Contents(): seq<Entry<V>>
      reads this
    {
      Entries(shape)
    }

    constructor ()
      ensures Valid() && Contents() == [] && mem == map[]
    {
      root := null;
      mem := map[];
      shape := Nil;
    }

    // ---------------------------------------------------------------- field reads and writes

    function LeftOf(n: Node<V>): (v: Node?<V>)
      requires Snapshot(mem) && n in mem
      reads this, mem.Keys
      ensures v == mem[n].left
    {
      n.left
    }

    function RightOf(n: Node<V>): (v: Node?<V>)
      requires Snapshot(mem) && n in mem
      reads this, mem.Keys
      ensures v == mem[n].right
    {
      n.right
    }

    function ParentOf(n: Node<V>): (v: Node?<V>)
      requires Snapshot(mem) && n in mem
      reads this, mem.Keys
      ensures v == mem[n].parent
    {
      n.parent
    }

    function DataOf(n: Node<V>): (d: Data<V>)
      requires Snapshot(mem) && n in mem
      reads this, mem.Keys
      ensures d == mem[n].data
    {
      n.data
    }

    method SetLeft(n: Node<V>, v: Node?<V>)
      requires Snapshot(mem) && n in mem
      modifies this`mem, n
      ensures Snapshot(mem) && mem == WithLeft(old(mem), n, v)
    {
      n.left := v;
      mem := mem[n := mem[n].(left := v)];
    }

    method SetRight(n: Node<V>, v: Node?<V>)
      requires Snapshot(mem) && n in mem
      modifies this`mem, n
      ensures Snapshot(mem) && mem == WithRight(old(mem), n, v)
    {
      n.right := v;
      mem := mem[n := mem[n].(right := v)];
    }

    method SetParent(n: Node<V>, v: Node?<V>)
      requires Snapshot(mem) && n in mem
      modifies this`mem, n
      ensures Snapshot(mem) && mem == WithParent(old(mem), n, v)
    {
      n.parent := v;
      mem := mem[n := mem[n].(parent := v)];
    }

    method SetColor(n: Node<V>, c: Color)
      requires Snapshot(mem) && n in mem
      modifies this`mem, n
      ensures Snapshot(mem) && mem == old(mem)[n := old(mem)[n].(data := old(mem)[n].data.(color := c))]
    {
      n.data := n.data.(color := c);
      mem := mem[n := mem[n].(data := mem[n].data.(color := c))];
    }

    /** Makes the parent of `n` (or the root pointer) refer to `v` instead of `n`. */
    method ReplaceInParent(n: Node<V>, v: Node?<V>)
      requires Snapshot(mem) && n in mem && (mem[n].parent != null ==> mem[n].parent in mem)
      modifies this`mem, this`root, mem.Keys
      ensures Snapshot(mem) && mem == Redirected(old(mem), old(mem)[n].parent, n, v)
      ensures root == if old(mem)[n].parent == null then v else old(root)
    {
      if n.parent == null {
        root := v;
      } else if n == n.parent.left {
        SetLeft(n.parent, v);
      } else {
        SetRight(n.parent, v);
      }
    }

    // ---------------------------------------------------------------- rotations

    /** The first half of `leftRotate`: the inner subtree changes sides, and `y` gets the parent of `x`. */
    method LeftRotateInner(x: Node<V>) returns (y: Node<V>)
      requires Snapshot(mem) && CanRotateLeft(mem, x)
      modifies this`mem, mem.Keys
      ensures Snapshot(mem) && y == old(mem)[x].right && mem.Keys == old(mem.Keys)
      ensures var b, p := old(mem)[y].left, old(mem)[x].parent;
        mem == WithParent(Reparented(WithRight(old(mem), x, b), b, x), y, p) && mem[x].parent == p
    {
      hide Snapshot;
      y := RightOf(x);
      SetRight(x, LeftOf(y));
      if LeftOf(y) != null {
        SetParent(LeftOf(y), x);
      }
      SetParent(y, ParentOf(x));
    }

    method LeftRotate(x: Node<V>)
      requires Snapshot(mem) && CanRotateLeft(mem, x)
      modifies this`mem, this`root, mem.Keys
      ensures Snapshot(mem) && mem == RotatedLeft(old(mem), x)
      ensures root == if old(mem)[x].parent == null then old(mem)[x].right else old(root)
    {
      hide Snapshot, WithParent, Reparented;
      var y := LeftRotateInner(x);
      ReplaceInParent(x, y);
      SetLeft(y, x);
      SetParent(x, y);
    }

    /** The first half of `rightRotate`: the inner subtree changes sides, and `x` gets the parent of `y`. */
    method RightRotateInner(y: Node<V>) returns (x: Node<V>)
      requires Snapshot(mem) && CanRotateRight(mem, y)
      modifies this`mem, mem.Keys
      ensures Snapshot(mem) && x == old(mem)[y].left && mem.Keys == old(mem.Keys)
      ensures var b, p := old(mem)[x].right, old(mem)[y].parent;
        mem == WithParent(Reparented(WithLeft(old(mem), y, b), b, y), x, p) && mem[y].parent == p
    {
      hide Snapshot;
      x := LeftOf(y);
      SetLeft(y, RightOf(x));
      if RightOf(x) != null {
        SetParent(RightOf(x), y);
      }
      SetParent(x, ParentOf(y));
    }

    method RightRotate(y: Node<V>)
      requires Snapshot(mem) && CanRotateRight(mem, y)
      modifies this`mem, this`root, mem.Keys
      ensures Snapshot(mem) && mem == RotatedRight(old(mem), y)
      ensures root == if old(mem)[y].parent == null then old(mem)[y].left else old(root)
    {
      hide Snapshot, WithParent, Reparented;
      var x := RightRotateInner(y);
      ReplaceInParent(y, x);
      SetRight(x, y);
      SetParent(y, x);
    }

    /** `LeftRotate` on linked trees. */
    method RotateLeftAt(x: Node<V>, ghost p: Path<V>, ghost a: Tree<V>, ghost dx: Data<V>,
                        ghost b: Tree<V>, ghost y: Node<V>, ghost dy: Data<V>, ghost c: Tree<V>)
      requires Zipped(p, T(a, x, dx, T(b, y, dy, c)))
      modifies this`mem, this`root, mem.Keys
      ensures Zipped(p, T(T(a, x, dx, b), y, dy, c)) && mem.Keys == old(mem.Keys)
    {
      ApartLeft(p, a, x, dx, b, y, dy, c);
      ApartRight(p, a, x, dx, b, y, dy, c);
      hide Snapshot, HoldsZip, DistinctZip, Apart;
      ghost var m := mem;
      RotateLeftZip(m, p, a, x, dx, b, y, dy, c, root);
      LeftRotate(x);
      RotatedLeftCells(m, x);
    }

    method RotateRightAt(y: Node<V>, ghost p: Path<V>, ghost a: Tree<V>, ghost x: Node<V>, ghost dx: Data<V>,
                         ghost b: Tree<V>, ghost dy: Data<V>, ghost c: Tree<V>)
      requires Zipped(p, T(T(a, x, dx, b), y, dy, c))
      modifies this`mem, this`root, mem.Keys
      ensures Zipped(p, T(a, x, dx, T(b, y, dy, c))) && mem.Keys == old(mem.Keys)
    {
      ApartLeft(p, a, x, dx, b, y, dy, c);
      ApartRight(p, a, x, dx, b, y, dy, c);
      hide Snapshot, HoldsZip, DistinctZip, Apart;
      ghost var m := mem;
      RotateRightZip(m, p, a, x, dx, b, y, dy, c, root);
      RightRotate(y);
      RotatedRightCells(m, y);
    }

    /** Paints the node at the root of the focus. */
    method PaintAt(n: Node<V>, c: Color, ghost p: Path<V>, ghost t: Tree<V>)
      requires Zipped(p, t) && t.T? && t.n == n
      modifies this`mem, mem.Keys
      ensures Zipped(p, t.(data := t.data.(color := c))) && mem.Keys == old(mem.Keys)
    {
      PaintZip(mem, p, t, root, t.data.(color := c));
      assert mem[n].data == t.data;
      hide Snapshot, HoldsZip, DistinctZip;
      SetColor(n, c);
    }

    // ---------------------------------------------------------------- insertion

    /** Links `leaf` below `parent`, on `side`, or as the root: the empty-subtree case of `insert`. */
    method LinkLeaf(leaf: Node<V>, parent: Node?<V>, side: Side, ghost p: Path<V>)
      requires Zipped(p, Nil) && Parent(p) == parent && (p.Step? ==> p.side == side)
      requires leaf !in mem && leaf.left == null && leaf.right == null
      modifies this`mem, this`root, mem.Keys, leaf
      ensures Zipped(p, T(Nil, leaf, old(leaf.data), Nil)) && mem.Keys == old(mem.Keys) + {leaf}
    {
      hide Snapshot, HoldsZip, DistinctZip;
      LinkZip(mem, p, leaf, leaf.data, root);
      AdoptLeaf(leaf, parent);
      if parent == null {
        root := leaf;
      } else if side == Left {
        SetLeft(parent, leaf);
      } else {
        SetRight(parent, leaf);
      }
    }

    /** The leaf gets its parent and becomes a node of the tree. */
    method AdoptLeaf(leaf: Node<V>, parent: Node?<V>)
      requires Snapshot(mem) && leaf !in mem && leaf.left == null && leaf.right == null
      modifies this`mem, leaf
      ensures Snapshot(mem) && mem == old(mem)[leaf := Cell(old(leaf.data), parent, null, null)]
    {
      leaf.parent := parent;
      mem := mem[leaf := Cell(leaf.data, parent, null, null)];
    }

    /** `insert` below the slot of `node`: descends by key and links the leaf at an empty slot; an
        equal key makes the source panic (`ok` is false and nothing was linked). The slot is the
        child of `parent` on `side`, or the root pointer. */
    method InsertAt(leaf: Node<V>, node: Node?<V>, parent: Node?<V>, side: Side, ghost p: Path<V>, ghost t: Tree<V>)
      returns (ok: bool, ghost q: Path<V>)
      requires Zipped(p, t) && Root(t) == node && Parent(p) == parent && (p.Step? ==> p.side == side)
      requires leaf !in mem && leaf.left == null && leaf.right == null
      requires Sorted(Entries(t)) && AllBelow(Before(p), leaf.data.key) && AllAbove(After(p), leaf.data.key)
      modifies this`mem, this`root, mem.Keys, leaf
      ensures ok <==> !HasKey(Entries(t), old(leaf.data.key))
      ensures ok ==> Zipped(q, T(Nil, leaf, old(leaf.data), Nil)) && mem.Keys == old(mem.Keys) + {leaf}
      ensures ok ==> Plug(q, Nil) == Plug(p, t)
      ensures ok ==> AllBelow(Before(q), old(leaf.data.key)) && AllAbove(After(q), old(leaf.data.key))
      ensures !ok ==> mem == old(mem) && root == old(root) && Snapshot(mem)
      decreases t
    {
      ghost var key := leaf.data.key;
      if node == null {
        LinkLeaf(leaf, parent, side, p);
        return true, p;
      }
      SortedConcat(Entries(t.l), EntryOf(t.data), Entries(t.r));
      if node.data.key == leaf.data.key {
        assert Entries(t)[|Entries(t.l)|].key == key;
        return false, p;
      } else if node.data.key > leaf.data.key {
        ghost var p' := Step(Left, t.n, t.data, t.r, p);
        ZipUp(mem, p', t.l, root);
        DescendLeft(p, t, key);
        ok, q := InsertAt(leaf, node.left, node, Left, p', t.l);
      } else {
        ghost var p' := Step(Right, t.n, t.data, t.l, p);
        ZipUp(mem, p', t.r, root);
        DescendRight(p, t, key);
        ok, q := InsertAt(leaf, node.right, node, Right, p', t.r);
      }
    }

    // ---------------------------------------------------------------- search

    /** `findKey`: the node with the key, or null when no entry has it. */
    method FindKey(key: int) returns (n: Node?<V>)
      requires Valid()
      ensures n == null <==> !HasKey(Contents(), key)
      ensures n != null ==> n in mem && mem[n].data.key == key && EntryOf(mem[n].data) in Contents()
    {
      n := FindKeyAt(key, root, shape, null);
    }

    method FindKeyAt(key: int, node: Node?<V>, ghost t: Tree<V>, ghost parent: Node?<V>) returns (n: Node?<V>)
      requires Snapshot(mem) && Holds(mem, t, parent) && Root(t) == node && Sorted(Entries(t))
      ensures n == null <==> !HasKey(Entries(t), key)
      ensures n != null ==> n in mem && mem[n].data.key == key && EntryOf(mem[n].data) in Entries(t)
      decreases t
    {
      if node == null {
        return null;
      }
      SortedConcat(Entries(t.l), EntryOf(t.data), Entries(t.r));
      if node.data.key == key {
        assert Entries(t)[|Entries(t.l)|] == EntryOf(t.data);
        return node;
      }
      if key < node.data.key {
        DescendLeft(Top, t, key);
        n := FindKeyAt(key, node.left, t.l, t.n);
      } else {
        DescendRight(Top, t, key);
        n := FindKeyAt(key, node.right, t.r, t.n);
      }
    }

    /** `findMin`: the first node of a subtree. */
    method FindMin(node: Node?<V>, ghost t: Tree<V>, ghost parent: Node?<V>) returns (n: Node?<V>)
      requires Snapshot(mem) && Holds(mem, t, parent) && Root(t) == node
      ensures |Nodes(t)| == |Entries(t)|
      ensures if t.Nil? then n == null else
        |Nodes(t)| > 0 && n == Nodes(t)[0] && n in mem && EntryOf(mem[n].data) == Entries(t)[0]
      decreases t
    {
      SizeIsLength(t);
      if node == null {
        return null;
      }
      if node.left != null {
        n := FindMin(node.left, t.l, t.n);
      } else {
        n := node;
      }
    }

    // ---------------------------------------------------------------- removal

    method SetData(n: Node<V>, d: Data<V>, ghost p: Path<V>, ghost t: Tree<V>)
      requires Zipped(p, t) && t.T? && t.n == n
      modifies this`mem, mem.Keys
      ensures Zipped(p, t.(data := d)) && mem.Keys == old(mem.Keys)
    {
      hide Snapshot, HoldsZip, DistinctZip;
      PaintZip(mem, p, t, root, d);
      WriteData(n, d);
    }

    method WriteData(n: Node<V>, d: Data<V>)
      requires Snapshot(mem) && n in mem
      modifies this`mem, n
      ensures Snapshot(mem) && mem == old(mem)[n := old(mem)[n].(data := d)]
    {
      n.data := d;
      mem := mem[n := mem[n].(data := d)];
    }

    /** Takes `node`, which has at most the child `child`, out of the tree and frees it. The source
        dereferences the parent without a check when there is a child. */
    method Unlink(node: Node<V>, child: Node?<V>, parent: Node?<V>,
                  ghost p: Path<V>, ghost t: Tree<V>, ghost c: Tree<V>)
      requires Zipped(p, t) && t.T? && t.n == node && Parent(p) == parent && Root(c) == child
      requires (t.l == c && t.r.Nil?) || (t.r == c && t.l.Nil?)
      requires child != null ==> parent != null
      modifies this`mem, this`root, mem.Keys
      ensures Zipped(p, c) && mem.Keys == old(mem.Keys) - {node}
    {
      hide Snapshot, HoldsZip, DistinctZip, Redirected, WithParent, Refs, PathRefs;
      UnlinkZip(mem, p, t, c, root);
      RedirectedKeys(mem, parent, node, child);
      ReparentedKeys(Redirected(mem, parent, node, child), child, parent);
      ReplaceInParent(node, child);
      if child != null {
        SetParent(child, parent);
      }
      Forget(node);
    }

    /** `delete node`. */
    method Forget(node: Node<V>)
      requires Snapshot(mem)
      modifies this`mem
      ensures Snapshot(mem) && mem == old(mem) - {node}
    {
      mem := mem - {node};
    }

    /** `remove` below the slot of `node`. With two children the node takes over key and payload of
        its successor, which is then removed from the right subtree. */
    method RemoveAt(key: int, node: Node?<V>, parent: Node?<V>, ghost p: Path<V>, ghost t: Tree<V>)
      returns (r: RemoveResult, ghost t': Tree<V>, ghost freed: Node?<V>)
      requires Zipped(p, t) && Root(t) == node && Parent(p) == parent && Sorted(Entries(t))
      modifies this`mem, this`root, mem.Keys
      ensures r == NotFound <==> !HasKey(Entries(t), key)
      ensures r == NullParent <==> p.Top? && t.T? && t.data.key == key && t.l.Nil? != t.r.Nil?
      ensures Zipped(p, t')
      ensures r != Removed ==> t' == t && mem.Keys == old(mem.Keys)
      ensures r == Removed ==> freed in old(mem.Keys) && mem.Keys == old(mem.Keys) - {freed}
      ensures r == Removed ==> Dropped(Entries(t), Entries(t'), key)
      decreases t, 2
    {
      hide Snapshot, HoldsZip, DistinctZip, Sorted, HasKey, AllBelow, AllAbove, Dropped;
      t', freed := t, null;
      RootKey(t, key);
      if node == null {
        return NotFound, t', freed;
      }
      SortedConcat(Entries(t.l), EntryOf(t.data), Entries(t.r));
      RootFields(p, t);
      TopHasNothing<V>(key);
      if key < node.data.key {
        ghost var l';
        DescendLeft(Top, t, key);
        ZipUp(mem, Step(Left, t.n, t.data, t.r, p), t.l, root);
        r, l', freed := RemoveAt(key, node.left, node, Step(Left, t.n, t.data, t.r, p), t.l);
        ZipUp(mem, Step(Left, t.n, t.data, t.r, p), l', root);
        t' := t.(l := l');
        if r == Removed { DropLeft(t, l', key); }
        return;
      } else if key > node.data.key {
        ghost var r';
        DescendRight(Top, t, key);
        ZipUp(mem, Step(Right, t.n, t.data, t.l, p), t.r, root);
        r, r', freed := RemoveAt(key, node.right, node, Step(Right, t.n, t.data, t.l, p), t.r);
        ZipUp(mem, Step(Right, t.n, t.data, t.l, p), r', root);
        t' := t.(r := r');
        if r == Removed { DropRight(t, r', key); }
        return;
      }
      r, t', freed := RemoveNode(node, parent, p, t);
    }

    lemma RootFields(p: Path<V>, t: Tree<V>)
      requires Zipped(p, t) && t.T?
      ensures t.n in mem && t.n.data == t.data && t.n.left == Root(t.l) && t.n.right == Root(t.r)
    {
    }

    /** The part of `remove` after the node with the key was found. */
    method RemoveNode(node: Node<V>, parent: Node?<V>, ghost p: Path<V>, ghost t: Tree<V>)
      returns (r: RemoveResult, ghost t': Tree<V>, ghost freed: Node?<V>)
      requires Zipped(p, t) && t.T? && t.n == node && Parent(p) == parent && Sorted(Entries(t))
      modifies this`mem, this`root, mem.Keys
      ensures r == Removed || r == NullParent
      ensures r == NullParent <==> p.Top? && t.l.Nil? != t.r.Nil?
      ensures Zipped(p, t')
      ensures r != Removed ==> t' == t && mem.Keys == old(mem.Keys)
      ensures r == Removed ==> freed in old(mem.Keys) && mem.Keys == old(mem.Keys) - {freed}
      ensures r == Removed ==> Dropped(Entries(t), Entries(t'), t.data.key)
      decreases t, 1
    {
      t', freed := t, null;
      assert node.left == Root(t.l) && node.right == Root(t.r);
      var left, right := node.left, node.right;
      if left != null && right != null {
        r, t', freed := RemoveTwoChildren(node, p, t);
      } else if left != null {
        if parent == null {
          return NullParent, t', freed;
        }
        RemoveEntries(t, t.l);
        hide Snapshot, HoldsZip, DistinctZip, Sorted;
        Unlink(node, left, parent, p, t, t.l);
        r, t', freed := Removed, t.l, node;
      } else if right != null {
        if parent == null {
          return NullParent, t', freed;
        }
        RemoveEntries(t, t.r);
        hide Snapshot, HoldsZip, DistinctZip, Sorted;
        Unlink(node, right, parent, p, t, t.r);
        r, t', freed := Removed, t.r, node;
      } else {
        RemoveEntries(t, t.l);
        hide Snapshot, HoldsZip, DistinctZip, Sorted;
        Unlink(node, null, parent, p, t, t.l);
        r, t', freed := Removed, t.l, node;
      }
    }

    /** `*node = *successor`: key and payload of the first node of the right subtree. */
    method SuccessorData(node: Node<V>, ghost p: Path<V>, ghost t: Tree<V>) returns (d: Data<V>, right: Node<V>)
      requires Zipped(p, t) && t.T? && t.n == node && t.r.T? && Sorted(Entries(t))
      ensures right == t.r.n && Sorted(Entries(t.r)) && |Entries(t.r)| > 0 && EntryOf(d) == Entries(t.r)[0]
      ensures HasKey(Entries(t.r), d.key)
    {
      SortedConcat(Entries(t.l), EntryOf(t.data), Entries(t.r));
      assert Holds(mem, t.r, t.n) && node.right == t.r.n;
      right := node.right;
      hide DistinctZip, Sorted;
      var successor := FindMin(right, t.r, t.n);
      d := Data(successor.data.key, successor.data.value, node.data.color);
      assert Entries(t.r)[0].key == d.key;
    }

    method RemoveTwoChildren(node: Node<V>, ghost p: Path<V>, ghost t: Tree<V>)
      returns (r: RemoveResult, ghost t': Tree<V>, ghost freed: Node?<V>)
      requires Zipped(p, t) && t.T? && t.n == node && t.l.T? && t.r.T? && Sorted(Entries(t))
      modifies this`mem, this`root, mem.Keys
      ensures r == Removed && Zipped(p, t') && freed in old(mem.Keys) && mem.Keys == old(mem.Keys) - {freed}
      ensures Dropped(Entries(t), Entries(t'), t.data.key)
      decreases t, 0
    {
      hide Snapshot, HoldsZip, DistinctZip, Holds, Sorted, Dropped, Refs, PathRefs, Entries, HasKey;
      var d, right := SuccessorData(node, p, t);
      SetData(node, d, p, t);
      ghost var p', r' := Step(Right, t.n, d, t.l, p), t.r;
      ZipUp(mem, p', t.r, root);
      r, r', freed := RemoveAt(d.key, right, node, p', t.r);
      ZipUp(mem, p', r', root);
      t' := T(t.l, t.n, d, r');
      ReplaceBySuccessor(t, d, r');
    }

    /** `remove`: takes the entry with the key out, if there is one. It reaches through a null parent
        exactly when that entry is at the root and the root has a single child. */
    method Remove(key: int) returns (r: RemoveResult)
      requires Valid()
      modifies this, mem.Keys
      ensures Valid()
      ensures r == NotFound <==> !HasKey(old(Contents()), key)
      ensures r == NullParent <==> old(shape.T? && shape.data.key == key && shape.l.Nil? != shape.r.Nil?)
      ensures r != Removed ==> shape == old(shape) && mem.Keys == old(mem.Keys)
      ensures r == Removed ==> Dropped(old(Contents()), Contents(), key)
      ensures r == Removed ==> exists freed :: freed in old(mem.Keys) && mem.Keys == old(mem.Keys) - {freed}
    {
      ghost var t', freed;
      hide Snapshot, DistinctZip, Dropped, Holds, Distinct, Refs, Entries, HasKey;
      assert Root(shape) == root;
      r, t', freed := RemoveAt(key, root, null, Top, shape);
      if r == Removed { DroppedSorted(Entries(shape), Entries(t'), key); }
      shape := t';
    }

    // ---------------------------------------------------------------- iteration

    /** `begin()`: the first node in key order. */
    method Begin() returns (n: Node?<V>)
      requires Valid()
      ensures n == if Nodes(shape) == [] then null else Nodes(shape)[0]
    {
      n := FindMin(root, shape, null);
    }

    /** `increment()` of the iterator: from the node at position `i` in key order to the next one, or
        to null after the last. */
    method Increment(node: Node<V>, ghost i: int) returns (next: Node?<V>)
      requires Valid() && 0 <= i < |Nodes(shape)| && Nodes(shape)[i] == node
      ensures next == if i + 1 < |Nodes(shape)| then Nodes(shape)[i + 1] else null
    {
      ghost var p, t := Locate(mem, Top, shape, root, i);
      NodesSplit(p, t, i);
      if node.right != null {
        next := FindMin(node.right, t.r, t.n);
      } else {
        next := ClimbToNext(node, p, t);
      }
    }

    /** The climbing half of `increment()`: up through right links to the first left link. */
    method ClimbToNext(start: Node<V>, ghost p0: Path<V>, ghost t0: Tree<V>) returns (next: Node?<V>)
      requires Snapshot(mem) && HoldsZip(mem, p0, t0, root) && DistinctZip(p0, t0) && t0.T? && t0.n == start
      ensures next == if NodesAfter(p0) == [] then null else NodesAfter(p0)[0]
    {
      var node := start;
      var y := node.parent;
      if y == null {
        return null;
      }
      ghost var p, t := p0, t0;
      SideSeen(mem, p, t, root);
      while node == y.right
        invariant HoldsZip(mem, p, t, root) && DistinctZip(p, t) && t.T? && t.n == node && p.Step? && p.n == y
        invariant y in mem && (mem[y].right == node <==> p.side == Right)
        invariant t.r.T? ==> t.r.n != y
        invariant NodesAfter(p) == NodesAfter(p0)
        decreases p
      {
        ZipUp(mem, p, t, root);
        t, p := Join(p.side, t, p.n, p.data, p.sib), p.up;
        node := y;
        y := y.parent;
        if y == null {
          return null;
        }
        SideSeen(mem, p, t, root);
      }
      if node.right != y {
        node := y;
      }
      next := node;
    }
  }
}
