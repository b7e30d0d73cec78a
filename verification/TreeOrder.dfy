/** In-order contents of trees and paths, and strict ordering by key. */
module TreeOrder {
  import opened TreeShape

  datatype Entry<V> = Entry(key: int, value: V)

  ghost function EntryOf<V>(d: Data<V>): Entry<V> {
    Entry(d.key, d.value)
  }

  /** Entries of the tree in key order. */
  ghost function Entries<V>(t: Tree<V>): seq<Entry<V>> {
    if t.Nil? then [] else Entries(t.l) + [EntryOf(t.data)] + Entries(t.r)
  }

  /** Nodes of the tree in key order. */
  ghost function Nodes<V>(t: Tree<V>): seq<Node<V>> {
    if t.Nil? then [] else Nodes(t.l) + [t.n] + Nodes(t.r)
  }

  /** Entries that precede the hole of a path, and those that follow it. */
  ghost function Before<V>(p: Path<V>): seq<Entry<V>> {
    match p
    case Top => []
    case Step(Left, n, d, sib, up) => Before(up)
    case Step(Right, n, d, sib, up) => Before(up) + (Entries(sib) + [EntryOf(d)])
  }

  ghost function After<V>(p: Path<V>): seq<Entry<V>> {
    match p
    case Top => []
    case Step(Left, n, d, sib, up) => ([EntryOf(d)] + Entries(sib)) + After(up)
    case Step(Right, n, d, sib, up) => After(up)
  }

  ghost function NodesBefore<V>(p: Path<V>): seq<Node<V>> {
    match p
    case Top => []
    case Step(Left, n, d, sib, up) => NodesBefore(up)
    case Step(Right, n, d, sib, up) => NodesBefore(up) + (Nodes(sib) + [n])
  }

  ghost function NodesAfter<V>(p: Path<V>): seq<Node<V>> {
    match p
    case Top => []
    case Step(Left, n, d, sib, up) => ([n] + Nodes(sib)) + NodesAfter(up)
    case Step(Right, n, d, sib, up) => NodesAfter(up)
  }

  ghost predicate Sorted<V>(s: seq<Entry<V>>) {
    forall i, j :: 0 <= i < j < |s| ==> s[i].key < s[j].key
  }

  ghost predicate AllBelow<V>(s: seq<Entry<V>>, k: int) {
    forall i :: 0 <= i < |s| ==> s[i].key < k
  }

  ghost predicate AllAbove<V>(s: seq<Entry<V>>, k: int) {
    forall i :: 0 <= i < |s| ==> k < s[i].key
  }

  ghost predicate HasKey<V>(s: seq<Entry<V>>, k: int) {
    exists i :: 0 <= i < |s| && s[i].key == k
  }

  lemma Regroup<X>(a: seq<X>, b: seq<X>, c: seq<X>, d: seq<X>, e: seq<X>)
    ensures a + (b + c + d) + e == a + b + ((c + d) + e)
    ensures a + (b + c + d) + e == (a + (b + c)) + d + e
  {
  }

  lemma {:induction false} PlugEntries<V>(p: Path<V>, t: Tree<V>)
    ensures Entries(Plug(p, t)) == Before(p) + Entries(t) + After(p)
  {
    if p.Step? {
      if p.side == Left {
        PlugEntries(p.up, T(t, p.n, p.data, p.sib));
        Regroup(Before(p.up), Entries(t), [EntryOf(p.data)], Entries(p.sib), After(p.up));
      } else {
        PlugEntries(p.up, T(p.sib, p.n, p.data, t));
        Regroup(Before(p.up), Entries(p.sib), [EntryOf(p.data)], Entries(t), After(p.up));
      }
    }
  }

  lemma {:induction false} PlugNodes<V>(p: Path<V>, t: Tree<V>)
    ensures Nodes(Plug(p, t)) == NodesBefore(p) + Nodes(t) + NodesAfter(p)
  {
    if p.Step? {
      if p.side == Left {
        PlugNodes(p.up, T(t, p.n, p.data, p.sib));
        Regroup(NodesBefore(p.up), Nodes(t), [p.n], Nodes(p.sib), NodesAfter(p.up));
      } else {
        PlugNodes(p.up, T(p.sib, p.n, p.data, t));
        Regroup(NodesBefore(p.up), Nodes(p.sib), [p.n], Nodes(t), NodesAfter(p.up));
      }
    }
  }

  lemma SortedConcat<V>(a: seq<Entry<V>>, e: Entry<V>, b: seq<Entry<V>>)
    ensures Sorted(a + [e] + b) <==> Sorted(a) && Sorted(b) && AllBelow(a, e.key) && AllAbove(b, e.key)
  {
    var s := a + [e] + b;
    if Sorted(s) {
      assert forall i :: 0 <= i < |a| ==> s[i] == a[i];
      assert s[|a|] == e;
      forall i | 0 <= i < |b| ensures s[|a| + 1 + i] == b[i] {}
      assert Sorted(b) by {
        forall i, j | 0 <= i < j < |b| ensures b[i].key < b[j].key {
          assert s[|a| + 1 + i].key < s[|a| + 1 + j].key;
        }
      }
      assert AllAbove(b, e.key) by {
        forall i | 0 <= i < |b| ensures e.key < b[i].key { assert s[|a|].key < s[|a| + 1 + i].key; }
      }
    }
  }

  lemma SortedSlices<V>(a: seq<Entry<V>>, b: seq<Entry<V>>, c: seq<Entry<V>>)
    requires Sorted(a + b + c)
    ensures Sorted(a) && Sorted(b) && Sorted(c)
  {
    var s := a + b + c;
    forall i, j | 0 <= i < j < |a| ensures a[i].key < a[j].key { assert s[i].key < s[j].key; }
    forall i, j | 0 <= i < j < |b| ensures b[i].key < b[j].key { assert s[|a| + i].key < s[|a| + j].key; }
    forall i, j | 0 <= i < j < |c| ensures c[i].key < c[j].key {
      assert s[|a| + |b| + i].key < s[|a| + |b| + j].key;
    }
  }

  /** A sorted list has each key at most once. */
  lemma SortedUnique<V>(s: seq<Entry<V>>, i: int, j: int)
    requires Sorted(s) && 0 <= i < |s| && 0 <= j < |s| && s[i].key == s[j].key
    ensures i == j
  {
  }

  ghost function Size<V>(t: Tree<V>): nat {
    if t.Nil? then 0 else Size(t.l) + 1 + Size(t.r)
  }

  ghost function Height<V>(t: Tree<V>): nat {
    if t.Nil? then 0 else 1 + (if Height(t.l) > Height(t.r) then Height(t.l) else Height(t.r))
  }

  lemma {:induction false} SizeIsLength<V>(t: Tree<V>)
    ensures Size(t) == |Entries(t)| == |Nodes(t)|
  {
    if t.T? {
      SizeIsLength(t.l);
      SizeIsLength(t.r);
    }
  }

  /** The node at each position carries the entry at that position. */
  lemma {:induction false} NodeEntry<V>(m: Mem<V>, t: Tree<V>, parent: Node?<V>, i: int)
    requires Holds(m, t, parent) && 0 <= i < |Nodes(t)|
    ensures |Entries(t)| == |Nodes(t)|
    ensures Nodes(t)[i] in m && EntryOf(m[Nodes(t)[i]].data) == Entries(t)[i]
  {
    SizeIsLength(t);
    SizeIsLength(t.l);
    SizeIsLength(t.r);
    var k := |Nodes(t.l)|;
    if i < k {
      NodeEntry(m, t.l, t.n, i);
    } else if i > k {
      NodeEntry(m, t.r, t.n, i - k - 1);
    }
  }

  /** `s'` is `s` with `e` put in somewhere. */
  ghost predicate WithEntry<V>(s: seq<Entry<V>>, s': seq<Entry<V>>, e: Entry<V>) {
    exists i :: 0 <= i <= |s| && s' == s[..i] + [e] + s[i..]
  }

  /** Filling the hole of a path with a leaf that fits adds exactly that entry. */
  lemma FillHole<V>(q: Path<V>, leaf: Node<V>, d: Data<V>)
    requires Sorted(Entries(Plug(q, Nil))) && AllBelow(Before(q), d.key) && AllAbove(After(q), d.key)
    ensures Sorted(Entries(Plug(q, T(Nil, leaf, d, Nil))))
    ensures WithEntry(Entries(Plug(q, Nil)), Entries(Plug(q, T(Nil, leaf, d, Nil))), EntryOf(d))
  {
    PlugEntries(q, Nil);
    PlugEntries(q, T(Nil, leaf, d, Nil));
    var b, a, e := Before(q), After(q), EntryOf(d);
    assert Entries(T(Nil, leaf, d, Nil)) == [e];
    var s := b + [] + a;
    assert Entries<V>(Nil) == [];
    assert Entries(Plug(q, Nil)) == s;
    assert s[..|b|] == b && s[|b|..] == a;
    SortedSlices(b, [], a);
    SortedConcat(b, e, a);
  }

  lemma SplitAt<X>(a: seq<X>, e: X, b: seq<X>)
    ensures var s := a + [e] + b; s[|a|] == e && s[..|a|] == a && s[|a| + 1..] == b
  {
  }

  lemma DroppedAt<V>(a: seq<Entry<V>>, e: Entry<V>, b: seq<Entry<V>>)
    ensures Dropped(a + [e] + b, a + b, e.key)
  {
    SplitAt(a, e, b);
  }

  /** `s'` is `s` without one entry, whose key is `k`. */
  ghost predicate Dropped<V>(s: seq<Entry<V>>, s': seq<Entry<V>>, k: int) {
    exists i :: 0 <= i < |s| && s[i].key == k && s' == s[..i] + s[i + 1..]
  }

  lemma DroppedInside<V>(a: seq<Entry<V>>, s: seq<Entry<V>>, s': seq<Entry<V>>, b: seq<Entry<V>>, k: int)
    requires Dropped(s, s', k)
    ensures Dropped(a + s + b, a + s' + b, k)
  {
    var i :| 0 <= i < |s| && s[i].key == k && s' == s[..i] + s[i + 1..];
    var w, j := a + s + b, |a| + i;
    assert w[j] == s[i];
    assert w[..j] == a + s[..i];
    assert w[j + 1..] == s[i + 1..] + b;
    assert a + s' + b == w[..j] + w[j + 1..];
  }

  lemma DroppedSorted<V>(s: seq<Entry<V>>, s': seq<Entry<V>>, k: int)
    requires Sorted(s) && Dropped(s, s', k)
    ensures Sorted(s') && HasKey(s, k) && !HasKey(s', k)
  {
    var i :| 0 <= i < |s| && s[i].key == k && s' == s[..i] + s[i + 1..];
    forall j | 0 <= j < |s'| ensures s'[j] == s[if j < i then j else j + 1] {}
    GapSorted(s, s', i);
  }

  /** `s'` is `s` without its entry at `i`. */
  lemma GapSorted<V>(s: seq<Entry<V>>, s': seq<Entry<V>>, i: int)
    requires Sorted(s) && 0 <= i < |s| && |s'| == |s| - 1
    requires forall j :: 0 <= j < |s'| ==> s'[j] == s[if j < i then j else j + 1]
    ensures Sorted(s') && !HasKey(s', s[i].key)
  {
    forall j | 0 <= j < |s'| ensures s'[j].key != s[i].key {
      var n := if j < i then j else j + 1;
      assert s'[j] == s[n];
    }
  }

  /** Dropping the first key of a sorted list leaves its tail. */
  lemma DroppedFirst<V>(s: seq<Entry<V>>, s': seq<Entry<V>>)
    requires Sorted(s) && |s| > 0 && Dropped(s, s', s[0].key)
    ensures s' == s[1..]
  {
  }
}
