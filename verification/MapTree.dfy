/** `vm::MapTree`: the windows of an address space, kept in a search tree by base address. */
module MapTree {
  import opened Bits
  import opened TreeShape
  import opened TreeOrder
  import BST = BinarySearchTree

  /** Payload of a `MapTreeLeaf`; its base address is the key. `flags` 0 is `MappingFlags::None`. */
  datatype Mapping<E> = Mapping(size: int, flags: int, entry: E)

  predicate Word(x: int) {
    0 <= x < WORD
  }

  // ---------------------------------------------------------------- windows

  /** The window holds the address. */
  ghost predicate Covers<E>(w: Entry<Mapping<E>>, address: int) {
    w.key <= address < w.key + w.value.size
  }

  /** The window and `[base, base + length)` share an address. */
  ghost predicate Meets<E>(w: Entry<Mapping<E>>, base: int, length: int) {
    exists a :: base <= a < base + length && Covers(w, a)
  }

  /** A window that is not empty and ends below the top of the address space. */
  ghost predicate Regular<E>(w: Entry<Mapping<E>>) {
    0 <= w.key && 0 < w.value.size && w.key + w.value.size < WORD
  }

  /** Regular windows in address order, none reaching into the next. */
  ghost predicate Windows<E>(s: seq<Entry<Mapping<E>>>) {
    && (forall i :: 0 <= i < |s| ==> Regular(s[i]))
    && (forall i, j :: 0 <= i < j < |s| ==> s[i].key + s[i].value.size <= s[j].key)
  }

  /** `MapTreeLeaf::contains(address)`, on 64-bit words. */
  predicate ContainsAddress(at: int, size: int, address: int) {
    address >= at && (address - at) % WORD < size
  }

  /** `MapTreeLeaf::contains(address, length)`, on 64-bit words. */
  predicate ContainsRange(at: int, size: int, address: int, length: int) {
    var x1, x2, y1, y2 := at, (at + size - 1) % WORD, address, (address + length - 1) % WORD;
    (y1 <= x1 <= y2) || (y1 <= x2 <= y2) || (x1 <= y1 <= x2) || (x1 <= y2 <= x2)
  }

  lemma MeetsIff<E>(w: Entry<Mapping<E>>, base: int, length: int)
    requires 0 < w.value.size && 0 < length
    ensures Meets(w, base, length) <==> base < w.key + w.value.size && w.key < base + length
  {
    if base < w.key + w.value.size && w.key < base + length {
      assert Covers(w, if base < w.key then w.key else base);
    }
  }

  lemma NoMod(x: int)
    ensures 0 <= x < WORD ==> x % WORD == x
    ensures WORD <= x < 2 * WORD ==> x % WORD == x - WORD
    ensures x < 0 <= x + WORD ==> x % WORD == x + WORD
  {
    if 0 <= x < WORD { ModUnique(x, WORD, 0, x); }
    if WORD <= x < 2 * WORD { ModUnique(x, WORD, 1, x - WORD); }
    if x < 0 <= x + WORD { ModUnique(x, WORD, -1, x + WORD); }
  }

  /** The overlap test is exact for a range that is not empty and does not wrap. */
  lemma RangeTestExact<E>(w: Entry<Mapping<E>>, base: int, length: int)
    requires Regular(w) && Word(base) && 0 < length && base + length <= WORD
    ensures ContainsRange(w.key, w.value.size, base, length) <==> Meets(w, base, length)
  {
    MeetsIff(w, base, length);
    NoMod(w.key + w.value.size - 1);
    NoMod(base + length - 1);
  }

  /** A window on which the test errs, for every range that is empty or wraps. */
  ghost function Misjudged<E>(base: int, length: int, e: E): Entry<Mapping<E>> {
    var at := if length == 0 then (if base < WORD - 1 then base else base - 1)
              else if base < WORD - 2 then base + 1 else base + length - 1 - WORD;
    Entry(at, Mapping(1, 0, e))
  }

  lemma Misjudges<E>(base: int, length: int, e: E)
    requires Word(base) && Word(length) && (length == 0 || base + length > WORD)
    ensures var w := Misjudged(base, length, e);
      Regular(w) && (ContainsRange(w.key, w.value.size, base, length) <==> !Meets(w, base, length))
  {
    var w := Misjudged(base, length, e);
    NoMod(w.key);
    NoMod(base + length - 1);
    if length != 0 {
      MeetsIff(w, base, length);
    }
  }

  /** The overlap test judges every regular window rightly exactly for the ranges that are not empty
      and do not wrap. */
  lemma RangeTestIff<E(!new)>(base: int, length: int, e: E)
    requires Word(base) && Word(length)
    ensures (forall w: Entry<Mapping<E>> :: Regular(w) ==>
               (ContainsRange(w.key, w.value.size, base, length) <==> Meets(w, base, length)))
            <==> 0 < length && base + length <= WORD
  {
    if 0 < length && base + length <= WORD {
      forall w: Entry<Mapping<E>> | Regular(w)
        ensures ContainsRange(w.key, w.value.size, base, length) <==> Meets(w, base, length)
      {
        RangeTestExact(w, base, length);
      }
    } else {
      Misjudges(base, length, e);
    }
  }

  /** Some window covers the address; some window meets the range. */
  ghost predicate Mapped<E>(s: seq<Entry<Mapping<E>>>, address: int) {
    exists i :: 0 <= i < |s| && Covers(s[i], address)
  }

  ghost predicate Free<E>(s: seq<Entry<Mapping<E>>>, base: int, length: int) {
    forall i :: 0 <= i < |s| ==> !Meets(s[i], base, length)
  }

  /** Every window of `a` ends before every window of `b` starts. */
  ghost predicate Precede<E>(a: seq<Entry<Mapping<E>>>, b: seq<Entry<Mapping<E>>>) {
    forall i, j :: 0 <= i < |a| && 0 <= j < |b| ==> a[i].key + a[i].value.size <= b[j].key
  }

  lemma WindowsSplit<E>(a: seq<Entry<Mapping<E>>>, b: seq<Entry<Mapping<E>>>)
    requires Windows(a + b)
    ensures Windows(a) && Windows(b) && Precede(a, b)
  {
    var s := a + b;
    assert forall i :: 0 <= i < |a| ==> s[i] == a[i];
    forall j | 0 <= j < |b| ensures s[|a| + j] == b[j] {}
    forall j, l | 0 <= j < l < |b| ensures b[j].key + b[j].value.size <= b[l].key {
      assert s[|a| + j].key + s[|a| + j].value.size <= s[|a| + l].key;
    }
  }

  lemma WindowsJoin<E>(a: seq<Entry<Mapping<E>>>, b: seq<Entry<Mapping<E>>>)
    requires Windows(a) && Windows(b) && Precede(a, b)
    ensures Windows(a + b)
  {
    var s := a + b;
    forall i, j | 0 <= i < j < |s| ensures s[i].key + s[i].value.size <= s[j].key {
      assert j >= |a| ==> s[j] == b[j - |a|];
    }
  }

  lemma WindowsConcat<E>(a: seq<Entry<Mapping<E>>>, w: Entry<Mapping<E>>, b: seq<Entry<Mapping<E>>>)
    ensures Windows(a + [w] + b) <==>
      Windows(a) && Windows(b) && Regular(w) && Precede(a, [w]) && Precede([w], b) && Precede(a, b)
  {
    if Windows(a + [w] + b) {
      WindowsSplit(a + [w], b);
      WindowsSplit(a, [w]);
      PrecedeParts(a, [w], b);
      assert Regular([w][0]);
    }
    if Windows(a) && Windows(b) && Regular(w) && Precede(a, [w]) && Precede([w], b) && Precede(a, b) {
      assert Windows([w]);
      WindowsJoin(a, [w]);
      PrecedeParts(a, [w], b);
      WindowsJoin(a + [w], b);
    }
  }

  lemma PrecedeParts<E>(a: seq<Entry<Mapping<E>>>, m: seq<Entry<Mapping<E>>>, b: seq<Entry<Mapping<E>>>)
    ensures Precede(a + m, b) <==> Precede(a, b) && Precede(m, b)
  {
    var s := a + m;
    forall i | 0 <= i < |a| ensures s[i] == a[i] {}
    forall i | 0 <= i < |m| ensures s[|a| + i] == m[i] {}
  }

  /** An address below the middle window can only be covered on the left, one beyond its end only on
      the right. */
  lemma CoverSides<E>(a: seq<Entry<Mapping<E>>>, w: Entry<Mapping<E>>, b: seq<Entry<Mapping<E>>>, address: int)
    requires Windows(a + [w] + b)
    ensures Windows(a) && Windows(b)
    ensures Covers(w, address) ==> w in a + [w] + b
    ensures address < w.key ==> (Mapped(a + [w] + b, address) <==> Mapped(a, address))
    ensures w.key + w.value.size <= address ==> (Mapped(a + [w] + b, address) <==> Mapped(b, address))
  {
    WindowsConcat(a, w, b);
    var s := a + [w] + b;
    assert s[|a|] == w;
    assert forall i :: 0 <= i < |a| ==> s[i] == a[i];
    forall i | 0 <= i < |b| ensures s[|a| + 1 + i] == b[i] {}
    if Mapped(b, address) {
      var i :| 0 <= i < |b| && Covers(b[i], address);
      assert Covers(s[|a| + 1 + i], address);
    }
    if Mapped(s, address) {
      var i :| 0 <= i < |s| && Covers(s[i], address);
      assert i > |a| ==> s[i] == b[i - |a| - 1];
    }
  }

  // ---------------------------------------------------------------- search order

  /** Entries in the order in which the full searches visit the tree: node, left, right. */
  ghost function Preorder<V>(t: Tree<V>): seq<Entry<V>> {
    if t.Nil? then [] else [EntryOf(t.data)] + Preorder(t.l) + Preorder(t.r)
  }

  ghost predicate NoneWith<V>(s: seq<Entry<V>>, test: Entry<V> -> bool) {
    forall i :: 0 <= i < |s| ==> !test(s[i])
  }

  /** `e` is the first of the list that the test accepts. */
  ghost predicate FirstWith<V>(s: seq<Entry<V>>, test: Entry<V> -> bool, e: Entry<V>) {
    exists i :: 0 <= i < |s| && s[i] == e && test(e) && NoneWith(s[..i], test)
  }

  lemma FirstConcat<V>(a: seq<Entry<V>>, b: seq<Entry<V>>, test: Entry<V> -> bool, e: Entry<V>)
    ensures FirstWith(a, test, e) ==> FirstWith(a + b, test, e)
    ensures NoneWith(a, test) && FirstWith(b, test, e) ==> FirstWith(a + b, test, e)
    ensures NoneWith(a, test) && NoneWith(b, test) ==> NoneWith(a + b, test)
  {
    var s := a + b;
    if FirstWith(a, test, e) {
      var i :| 0 <= i < |a| && a[i] == e && test(e) && NoneWith(a[..i], test);
      assert s[i] == e && s[..i] == a[..i];
    }
    if NoneWith(a, test) && FirstWith(b, test, e) {
      var i :| 0 <= i < |b| && b[i] == e && test(e) && NoneWith(b[..i], test);
      assert s[|a| + i] == e && s[..|a| + i] == a + b[..i];
    }
  }

  lemma FirstUnique<V>(s: seq<Entry<V>>, test: Entry<V> -> bool, e: Entry<V>, e': Entry<V>)
    requires FirstWith(s, test, e) && FirstWith(s, test, e')
    ensures e == e'
  {
    var i :| 0 <= i < |s| && s[i] == e && test(e) && NoneWith(s[..i], test);
    var j :| 0 <= j < |s| && s[j] == e' && test(e') && NoneWith(s[..j], test);
    assert i >= j by { assert forall l :: 0 <= l < j ==> !test(s[..j][l]); }
    assert j >= i by { assert forall l :: 0 <= l < i ==> !test(s[..i][l]); }
  }

  lemma FirstNotNone<V>(s: seq<Entry<V>>, test: Entry<V> -> bool, e: Entry<V>)
    requires FirstWith(s, test, e)
    ensures e in s && test(e) && !NoneWith(s, test)
  {
  }

  /** The full searches visit exactly the entries of the tree. */
  lemma {:induction false} PreorderEntries<V>(t: Tree<V>, e: Entry<V>)
    ensures e in Preorder(t) <==> e in Entries(t)
  {
    if t.T? {
      PreorderEntries(t.l, e);
      PreorderEntries(t.r, e);
    }
  }

  lemma PreorderNone<V>(t: Tree<V>, test: Entry<V> -> bool)
    ensures NoneWith(Preorder(t), test) <==> NoneWith(Entries(t), test)
  {
    var p, s := Preorder(t), Entries(t);
    if NoneWith(s, test) {
      forall i | 0 <= i < |p| ensures !test(p[i]) { PreorderEntries(t, p[i]); }
    }
    if NoneWith(p, test) {
      forall i | 0 <= i < |s| ensures !test(s[i]) { PreorderEntries(t, s[i]); }
    }
  }

  function Overlaps<E>(base: int, length: int): Entry<Mapping<E>> -> bool {
    (w: Entry<Mapping<E>>) => ContainsRange(w.key, w.value.size, base, length)
  }

  function Backed<E(==)>(entry: E): Entry<Mapping<E>> -> bool {
    (w: Entry<Mapping<E>>) => w.value.entry == entry
  }

  class MapTree<E(==)> {
    const bst: BST.BinarySearchTree<Mapping<E>>

    ghost predicate Valid()
      reads this, bst, bst.mem.Keys
    {
      bst.Valid()
    }

    ghost function Contents(): seq<Entry<Mapping<E>>>
      reads this, bst
    {
      bst.Contents()
    }

    constructor ()
      ensures Valid() && Contents() == [] && bst.mem == map[] && fresh(bst)
    {
      bst := new BST.BinarySearchTree<Mapping<E>>();
    }

    /** `find`: one descent decides whether any window covers the address. */
    method Find(address: int) returns (leaf: Node?<Mapping<E>>)
      requires Valid() && Windows(Contents()) && Word(address)
      ensures leaf == null <==> !Mapped(Contents(), address)
      ensures leaf != null ==> leaf in bst.mem && EntryOf(bst.mem[leaf].data) in Contents()
                               && Covers(EntryOf(bst.mem[leaf].data), address)
    {
      leaf := FindAt(address, bst.root, bst.shape, null);
    }

    method FindAt(address: int, node: Node?<Mapping<E>>, ghost t: Tree<Mapping<E>>, ghost parent: Node?<Mapping<E>>)
      returns (leaf: Node?<Mapping<E>>)
      requires Word(address)
      requires Snapshot(bst.mem) && Holds(bst.mem, t, parent) && Root(t) == node && Windows(Entries(t))
      ensures leaf == null <==> !Mapped(Entries(t), address)
      ensures leaf != null ==> leaf in bst.mem && EntryOf(bst.mem[leaf].data) in Entries(t)
                               && Covers(EntryOf(bst.mem[leaf].data), address)
      decreases t
    {
      if node == null {
        return null;
      }
      CoverSides(Entries(t.l), EntryOf(t.data), Entries(t.r), address);
      WindowsConcat(Entries(t.l), EntryOf(t.data), Entries(t.r));
      assert Entries(t)[|Entries(t.l)|] == EntryOf(t.data);
      if node.data.key == address {
        return node;
      }
      if address < node.data.key {
        leaf := FindAt(address, node.left, t.l, t.n);
      } else {
        NoMod(address - node.data.key);
        if ContainsAddress(node.data.key, node.data.value.size, address) {
          return node;
        }
        leaf := FindAt(address, node.right, t.r, t.n);
      }
    }

    /** `findOverlapping`: the first window in search order that the overlap test accepts. */
    method FindOverlapping(base: int, length: int, node: Node?<Mapping<E>>, ghost t: Tree<Mapping<E>>,
                           ghost parent: Node?<Mapping<E>>)
      returns (leaf: Node?<Mapping<E>>)
      requires Snapshot(bst.mem) && Holds(bst.mem, t, parent) && Root(t) == node
      ensures leaf == null ==> NoneWith(Preorder(t), Overlaps(base, length))
      ensures leaf != null ==>
        leaf in bst.mem && FirstWith(Preorder(t), Overlaps(base, length), EntryOf(bst.mem[leaf].data))
      decreases t
    {
      if node == null {
        return null;
      }
      ghost var test := Overlaps<E>(base, length);
      ghost var here, l, r := [EntryOf(t.data)], Preorder(t.l), Preorder(t.r);
      if ContainsRange(node.data.key, node.data.value.size, base, length) {
        assert Preorder(t)[0] == EntryOf(t.data) && test(EntryOf(t.data));
        return node;
      }
      assert NoneWith(here, test);
      leaf := FindOverlapping(base, length, node.left, t.l, t.n);
      if leaf != null {
        FirstConcat(here, l, test, EntryOf(bst.mem[leaf].data));
        FirstConcat(here + l, r, test, EntryOf(bst.mem[leaf].data));
        return;
      }
      leaf := FindOverlapping(base, length, node.right, t.r, t.n);
      ghost var e := if leaf != null then EntryOf(bst.mem[leaf].data) else EntryOf(t.data);
      FirstConcat(here, l, test, e);
      FirstConcat(here + l, r, test, e);
    }

    /** `leafFor`: the first window in search order that is backed by the object. */
    method LeafFor(entry: E, node: Node?<Mapping<E>>, ghost t: Tree<Mapping<E>>, ghost parent: Node?<Mapping<E>>)
      returns (leaf: Node?<Mapping<E>>)
      requires Snapshot(bst.mem) && Holds(bst.mem, t, parent) && Root(t) == node
      ensures leaf == null ==> NoneWith(Preorder(t), Backed(entry))
      ensures leaf != null ==>
        leaf in bst.mem && FirstWith(Preorder(t), Backed(entry), EntryOf(bst.mem[leaf].data))
      decreases t
    {
      if node == null {
        return null;
      }
      ghost var test := Backed(entry);
      ghost var here, l, r := [EntryOf(t.data)], Preorder(t.l), Preorder(t.r);
      if node.data.value.entry == entry {
        assert Preorder(t)[0] == EntryOf(t.data) && test(EntryOf(t.data));
        return node;
      }
      assert NoneWith(here, test);
      leaf := LeafFor(entry, node.left, t.l, t.n);
      if leaf != null {
        FirstConcat(here, l, test, EntryOf(bst.mem[leaf].data));
        FirstConcat(here + l, r, test, EntryOf(bst.mem[leaf].data));
        return;
      }
      leaf := LeafFor(entry, node.right, t.r, t.n);
      ghost var e := if leaf != null then EntryOf(bst.mem[leaf].data) else EntryOf(t.data);
      FirstConcat(here, l, test, e);
      FirstConcat(here + l, r, test, e);
    }

    /** `isRegionFree`: whether the overlap test rejects every window, and otherwise the end of the
        first one it accepts. */
    method IsRegionFree(base: int, length: int) returns (free: bool, next: int)
      requires Valid()
      ensures free <==> NoneWith(Contents(), Overlaps(base, length))
      ensures if free then next == 0 else
        exists w :: w in Contents() && FirstWith(Preorder(bst.shape), Overlaps(base, length), w)
                    && next == (w.key + w.value.size) % WORD
    {
      var leaf := FindOverlapping(base, length, bst.root, bst.shape, null);
      PreorderNone(bst.shape, Overlaps<E>(base, length));
      if leaf == null {
        return true, 0;
      }
      PreorderEntries(bst.shape, EntryOf(bst.mem[leaf].data));
      FirstNotNone(Preorder(bst.shape), Overlaps<E>(base, length), EntryOf(bst.mem[leaf].data));
      return false, (leaf.data.key + leaf.data.value.size) % WORD;
    }

    /** `baseAddressFor`: where the object is mapped first in search order, or 0. */
    method BaseAddressFor(entry: E) returns (base: int, length: int)
      requires Valid()
      ensures NoneWith(Contents(), Backed(entry)) ==> base == 0 && length == 0
      ensures !NoneWith(Contents(), Backed(entry)) ==>
        exists w :: w in Contents() && FirstWith(Preorder(bst.shape), Backed(entry), w)
                    && base == w.key && length == w.value.size
    {
      var leaf := LeafFor(entry, bst.root, bst.shape, null);
      PreorderNone(bst.shape, Backed(entry));
      if leaf == null {
        return 0, 0;
      }
      PreorderEntries(bst.shape, EntryOf(bst.mem[leaf].data));
      FirstNotNone(Preorder(bst.shape), Backed(entry), EntryOf(bst.mem[leaf].data));
      return leaf.data.key, leaf.data.value.size;
    }

    /** `insert`: a new leaf for the window; a taken base address makes the source panic. */
    method Insert(address: int, size: int, entry: E, flags: int) returns (ok: bool)
      requires Valid()
      modifies bst, bst.mem.Keys
      ensures ok <==> !HasKey(old(Contents()), address)
      ensures ok ==> Valid() && fresh(bst.mem.Keys - old(bst.mem.Keys))
      ensures ok ==> WithEntry(old(Contents()), Contents(), Entry(address, Mapping(size, flags, entry)))
    {
      hide Snapshot, DistinctZip, Holds, WithEntry, HasKey, Refs, Sorted, Entries;
      var leaf := new Node(address, Mapping(size, flags, entry));
      ghost var d := leaf.data;
      ghost var q;
      ok, q := bst.InsertAt(leaf, bst.root, null, Left, Top, bst.shape);
      if ok {
        FillHole(q, leaf, d);
        ZipClose(bst.mem, q, T(Nil, leaf, d, Nil), bst.root);
        bst.shape := Plug(q, T(Nil, leaf, d, Nil));
      }
    }
  }
}
