/** `vm::Map`: placing, finding and removing the windows of VM objects in an address space. */
module AddressSpace {
  import opened Bits
  import opened TreeShape
  import opened TreeOrder
  import opened MapTree
  import opened AddressSearch
  import opened Options
  import BST = BinarySearchTree

  /** Outcome of `remove`: `NullParent` is the null dereference inside the tree. */
  datatype RemoveOutcome = Unmapped | Done | NullParent

  function SizeOf(viewSize: int, entryLength: int): int {
    if viewSize != 0 then viewSize else entryLength
  }

  /** The first window in search order that the object backs starts at `k`. */
  ghost predicate FirstBacked<E>(t: Tree<Mapping<E>>, entry: E, k: int) {
    exists w :: w in Entries(t) && w.key == k && FirstWith(Preorder(t), Backed(entry), w)
  }

  /** The object's window is at the root of the tree, away from address 0, and the root has exactly
      one child. */
  ghost predicate LoneChildRoot<E>(t: Tree<Mapping<E>>, entry: E) {
    t.T? && t.l.Nil? != t.r.Nil? && t.data.key != 0 && FirstBacked(t, entry, t.data.key)
  }

  lemma FirstBackedUnique<E>(t: Tree<Mapping<E>>, entry: E, k: int, k': int)
    requires FirstBacked(t, entry, k) && FirstBacked(t, entry, k')
    ensures k == k' && !NoneWith(Entries(t), Backed(entry))
  {
    var w :| w in Entries(t) && w.key == k && FirstWith(Preorder(t), Backed(entry), w);
    var w' :| w' in Entries(t) && w'.key == k' && FirstWith(Preorder(t), Backed(entry), w');
    FirstUnique(Preorder(t), Backed(entry), w, w');
    FirstNotNone(Preorder(t), Backed(entry), w);
    PreorderNone(t, Backed(entry));
  }

  // ---------------------------------------------------------------- what add and remove keep

  /** A free window joins the others without touching them. */
  lemma WindowsInsert<E>(s: seq<Entry<Mapping<E>>>, s': seq<Entry<Mapping<E>>>, e: Entry<Mapping<E>>)
    requires Windows(s) && Regular(e) && Free(s, e.key, e.value.size) && WithEntry(s, s', e) && Sorted(s')
    ensures Windows(s')
  {
    var i :| 0 <= i <= |s| && s' == s[..i] + [e] + s[i..];
    var a, b := s[..i], s[i..];
    assert s == a + b;
    SortedConcat(a, e, b);
    WindowsSplit(a, b);
    FreeSplit(a, b, e.key, e.value.size);
    KeepsClear(a, e);
    KeepsClear(b, e);
    hide Windows, Sorted, Free, Regular;
    WindowsConcat(a, e, b);
  }

  lemma NotRegular<E>(s: seq<Entry<Mapping<E>>>, s': seq<Entry<Mapping<E>>>, e: Entry<Mapping<E>>)
    requires !Regular(e) && WithEntry(s, s', e)
    ensures !Windows(s')
  {
    var i :| 0 <= i <= |s| && s' == s[..i] + [e] + s[i..];
    assert s'[i] == e;
  }

  lemma FreeSplit<E>(a: seq<Entry<Mapping<E>>>, b: seq<Entry<Mapping<E>>>, base: int, size: int)
    requires Free(a + b, base, size)
    ensures Free(a, base, size) && Free(b, base, size)
  {
    var s := a + b;
    assert forall i :: 0 <= i < |a| ==> s[i] == a[i];
    forall j | 0 <= j < |b| ensures !Meets(b[j], base, size) { assert s[|a| + j] == b[j]; }
  }

  /** A window that meets none of the others lies wholly to one side of each. */
  lemma KeepsClear<E>(s: seq<Entry<Mapping<E>>>, e: Entry<Mapping<E>>)
    requires Windows(s) && Regular(e) && Free(s, e.key, e.value.size)
    ensures forall i :: 0 <= i < |s| && s[i].key < e.key ==> s[i].key + s[i].value.size <= e.key
    ensures forall i :: 0 <= i < |s| && e.key < s[i].key ==> e.key + e.value.size <= s[i].key
  {
    forall i | 0 <= i < |s|
      ensures s[i].key + s[i].value.size <= e.key || e.key + e.value.size <= s[i].key
    {
      MeetsIff(s[i], e.key, e.value.size);
    }
  }

  lemma WindowsDrop<E>(s: seq<Entry<Mapping<E>>>, s': seq<Entry<Mapping<E>>>, k: int)
    requires Windows(s) && Dropped(s, s', k)
    ensures Windows(s')
  {
    hide Windows;
    var i :| 0 <= i < |s| && s[i].key == k && s' == s[..i] + s[i + 1..];
    WindowsDropAt(s, i);
  }

  lemma WindowsDropAt<E>(s: seq<Entry<Mapping<E>>>, i: int)
    requires Windows(s) && 0 <= i < |s|
    ensures Windows(s[..i] + s[i + 1..])
  {
    hide Windows;
    assert s == s[..i] + [s[i]] + s[i + 1..];
    WindowsConcat(s[..i], s[i], s[i + 1..]);
    WindowsJoin(s[..i], s[i + 1..]);
  }

  /** A window whose base is taken already overlaps, so insertion never meets an equal key. */
  lemma ClearMeansNewKey<E>(s: seq<Entry<Mapping<E>>>, base: int, size: int)
    requires Windows(s) && NoneWith(s, Overlaps(base, size))
    ensures !HasKey(s, base)
  {
    forall i | 0 <= i < |s| ensures s[i].key != base {
      NoMod(s[i].key + s[i].value.size - 1);
      assert !Overlaps<E>(base, size)(s[i]);
    }
  }

  /** Removing what was just added gives back the same windows. */
  lemma AddRemove<V>(s: seq<Entry<V>>, s': seq<Entry<V>>, s'': seq<Entry<V>>, e: Entry<V>)
    requires WithEntry(s, s', e) && Sorted(s') && Dropped(s', s'', e.key)
    ensures s'' == s
  {
    var i :| 0 <= i <= |s| && s' == s[..i] + [e] + s[i..];
    var j :| 0 <= j < |s'| && s'[j].key == e.key && s'' == s'[..j] + s'[j + 1..];
    AddRemoveAt(s, i, e, j);
  }

  lemma AddRemoveAt<V>(s: seq<Entry<V>>, i: int, e: Entry<V>, j: int)
    requires 0 <= i <= |s| && 0 <= j <= |s| && Sorted(s[..i] + [e] + s[i..]) && (s[..i] + [e] + s[i..])[j].key == e.key
    ensures var s' := s[..i] + [e] + s[i..]; s'[..j] + s'[j + 1..] == s
  {
    hide Sorted;
    SplitAt(s[..i], e, s[i..]);
    SortedUnique(s[..i] + [e] + s[i..], i, j);
  }

  class Map<E(==)> {
    const entries: MapTree<E>

    ghost predicate Valid()
      reads this, entries, entries.bst, entries.bst.mem.Keys
    {
      entries.Valid() && Windows(entries.Contents())
    }

    ghost function Contents(): seq<Entry<Mapping<E>>>
      reads this, entries, entries.bst
    {
      entries.Contents()
    }

    constructor ()
      ensures Valid() && Contents() == [] && fresh(entries) && fresh(entries.bst) && entries.bst.mem == map[]
    {
      entries := new MapTree<E>();
    }

    /** The arguments of a search in this map. */
    ghost function Asked(size: int, searchStart: int, searchEnd: int): Query<E>
      reads this, entries, entries.bst
    {
      Query(Preorder(entries.bst.shape), size, searchStart, searchEnd)
    }

    /** The searching part of `add`, for all sizes and bounds. The loop of the source goes on as long
        as probes fail; here it returns `Endless` when it comes back to an address. */
    method Search(size: int, searchStart: int, searchEnd: int) returns (r: AddResult, ghost probes: int)
      requires Valid() && Word(size) && Word(searchStart) && Word(searchEnd)
      ensures Searched(Asked(size, searchStart, searchEnd), r) && probes <= |Contents()| + 1
      ensures r == Endless <==> Forever(Asked(size, searchStart, searchEnd))
      ensures r.Added? ==> Word(r.base) && NoneWith(Contents(), Overlaps(r.base, size))
      ensures r.Added? ==> (r.base + size < searchEnd <==> size <= searchEnd)
      ensures Suited(size, searchStart, searchEnd) ==> Placed(Contents(), r, size, searchStart, searchEnd)
    {
      hide Snapshot, HoldsZip, DistinctZip, Entries, Sorted, Preorder, FirstWith, NoneWith, Windows, Next, At, Forever,
        Searched, Trail, Placed, Overlaps, Proper, Limit, Suited;
      ghost var q := Asked(size, searchStart, searchEnd);
      var base, seen := searchStart, {};
      probes := 0;
      AskedProper(size, searchStart, searchEnd);
      SearchBegins(q);
      while base < Limit(searchEnd, size)
        invariant Word(base) && 0 <= probes <= |Contents()| + 1 && At(q, probes) == Some(base) && Trail(q, probes, seen)
        decreases |q.windows| + 1 - probes
      {
        if base in seen {
          RunsForever(q, Contents(), probes, seen);
          return Endless, probes;
        }
        TrailMore(q, probes, seen, base);
        seen := seen + {base};
        var free, next := entries.IsRegionFree(base, size);
        if free {
          Found(base, size, searchStart, searchEnd, probes);
          return Added(base), probes + 1;
        }
        Failed(base, size, searchStart, searchEnd, probes, next);
        base, probes := next, probes + 1;
      }
      r := NoRoom;
      RunsOut(q, Contents(), probes);
    }

    lemma Failed(base: int, size: int, searchStart: int, searchEnd: int, n: nat, next: int)
      requires At(Asked(size, searchStart, searchEnd), n) == Some(base) && base < Limit(searchEnd, size)
      requires exists w :: w in Contents() && FirstWith(Preorder(entries.bst.shape), Overlaps(base, size), w)
                           && next == (w.key + w.value.size) % WORD
      ensures Word(next) && At(Asked(size, searchStart, searchEnd), n + 1) == Some(next)
    {
      hide Preorder, FirstWith, Next, At, Entries, Overlaps;
      var w :| w in Contents() && FirstWith(Preorder(entries.bst.shape), Overlaps(base, size), w)
               && next == (w.key + w.value.size) % WORD;
      NextIs(Preorder(entries.bst.shape), base, size, w);
      AtNext(Asked(size, searchStart, searchEnd), n);
    }

    lemma Found(base: int, size: int, searchStart: int, searchEnd: int, n: nat)
      requires Valid() && Word(base) && Word(size) && Word(searchStart) && Word(searchEnd)
      requires base < Limit(searchEnd, size) && NoneWith(Contents(), Overlaps(base, size))
      requires At(Asked(size, searchStart, searchEnd), n) == Some(base)
      ensures Searched(Asked(size, searchStart, searchEnd), Added(base))
      ensures !Forever(Asked(size, searchStart, searchEnd))
      ensures base + size < searchEnd <==> size <= searchEnd
      ensures Suited(size, searchStart, searchEnd) ==> Placed(Contents(), Added(base), size, searchStart, searchEnd)
    {
      hide Snapshot, HoldsZip, DistinctZip, Entries, Sorted, Preorder, NoneWith, Windows, Next, At, Overlaps,
        Limit, Placed, Forever, Suited;
      var q := Asked(size, searchStart, searchEnd);
      PreorderNone(entries.bst.shape, Overlaps<E>(base, size));
      NextNone(q.windows, base, size);
      var k := Stops(q, Added(base));
      LimitHonouredIff(base, searchEnd, size);
      AskedProper(size, searchStart, searchEnd);
      if Suited(size, searchStart, searchEnd) { SuitedPlaced(q, Contents(), Added(base)); }
    }

    lemma AskedProper(size: int, searchStart: int, searchEnd: int)
      requires Valid() && Word(size) && Word(searchStart) && Word(searchEnd)
      ensures Proper(Asked(size, searchStart, searchEnd), Contents())
      ensures |Asked(size, searchStart, searchEnd).windows| == |Contents()|
    {
      hide Snapshot, HoldsZip, DistinctZip, Entries, Sorted, Preorder, Windows;
      var t := entries.bst.shape;
      forall w | w in Preorder(t) ensures w in Entries(t) { PreorderEntries(t, w); }
      forall w | w in Entries(t) ensures w in Preorder(t) { PreorderEntries(t, w); }
      PreorderLength(t);
    }

    /** `add`: at the requested base, or where the search ends when none is requested. A size of 0
        stands for the length of the object. */
    method Add(entry: E, entryLength: int, requestedBase: int, viewSize: int, searchStart: int, searchEnd: int)
      returns (r: AddResult)
      requires Valid() && Word(entryLength) && Word(requestedBase) && Word(viewSize)
      requires Word(searchStart) && Word(searchEnd)
      modifies entries.bst, entries.bst.mem.Keys
      ensures requestedBase != 0 ==> (r == Added(requestedBase) || r == NoRoom)
      ensures requestedBase != 0 ==>
        (r.Added? <==> NoneWith(old(Contents()), Overlaps(requestedBase, SizeOf(viewSize, entryLength))))
      ensures requestedBase != 0 && 0 < SizeOf(viewSize, entryLength) <= WORD - requestedBase ==>
        (r.Added? <==> Free(old(Contents()), requestedBase, SizeOf(viewSize, entryLength)))
      ensures requestedBase == 0 ==> Searched(old(Asked(SizeOf(viewSize, entryLength), searchStart, searchEnd)), r)
      ensures requestedBase == 0 && r.Added? ==>
        (r.base + SizeOf(viewSize, entryLength) < searchEnd <==> SizeOf(viewSize, entryLength) <= searchEnd)
      ensures requestedBase == 0 && Suited(SizeOf(viewSize, entryLength), searchStart, searchEnd) ==>
        Placed(old(Contents()), r, SizeOf(viewSize, entryLength), searchStart, searchEnd)
      ensures !r.Added? ==> Valid() && Contents() == old(Contents())
      ensures fresh(entries.bst.mem.Keys - old(entries.bst.mem.Keys))
      ensures r.Added? ==> entries.Valid() && WithEntry(old(Contents()), Contents(),
                Entry(r.base, Mapping(if viewSize != 0 then viewSize else entryLength, 0, entry)))
      ensures r.Added? ==>
        (Valid() <==> 0 < SizeOf(viewSize, entryLength) && r.base + SizeOf(viewSize, entryLength) < WORD)
    {
      hide Snapshot, HoldsZip, DistinctZip, Entries, Sorted, Preorder, FirstWith, NoneWith, Windows, Free, Taken,
        WithEntry, Searched, Placed, Suited;
      var size := SizeOf(viewSize, entryLength);
      ghost var s := Contents();
      var base;
      if requestedBase != 0 {
        var free, next := entries.IsRegionFree(requestedBase, size);
        if 0 < size <= WORD - requestedBase { TestIsFree(s, requestedBase, size); }
        if !free {
          return NoRoom;
        }
        base := requestedBase;
      } else {
        ghost var probes;
        r, probes := Search(size, searchStart, searchEnd);
        if !r.Added? {
          return;
        }
        base := r.base;
      }
      ClearMeansNewKey(s, base, size);
      var ok := entries.Insert(base, size, entry, 0);
      r := Added(base);
      if 0 < size && base + size < WORD {
        TestIsFree(s, base, size);
        WindowsInsert(s, Contents(), Entry(base, Mapping(size, 0, entry)));
      } else {
        NotRegular(s, Contents(), Entry(base, Mapping(size, 0, entry)));
      }
    }

    /** `remove`: takes out the first window in search order that the object backs. An object at
        address 0 counts as not mapped. */
    method Remove(entry: E) returns (r: RemoveOutcome)
      requires Valid()
      modifies entries.bst, entries.bst.mem.Keys
      ensures Valid()
      ensures r == Unmapped <==>
        NoneWith(old(Contents()), Backed(entry)) || FirstBacked(old(entries.bst.shape), entry, 0)
      ensures r == Done ==> exists k :: k != 0 && FirstBacked(old(entries.bst.shape), entry, k)
                                         && Dropped(old(Contents()), Contents(), k)
      ensures r == NullParent <==> old(LoneChildRoot(entries.bst.shape, entry))
      ensures r != Done ==> Contents() == old(Contents())
    {
      hide Snapshot, HoldsZip, DistinctZip, Entries, Sorted, Preorder, FirstWith, NoneWith, Windows, Dropped;
      ghost var s, t := Contents(), entries.bst.shape;
      var base, length := entries.BaseAddressFor(entry);
      if FirstBacked(t, entry, 0) {
        FirstBackedUnique(t, entry, 0, 0);
        FirstBackedUnique(t, entry, 0, base);
      }
      if t.T? && FirstBacked(t, entry, t.data.key) {
        FirstBackedUnique(t, entry, t.data.key, t.data.key);
        FirstBackedUnique(t, entry, t.data.key, base);
      }
      if base == 0 {
        return Unmapped;
      }
      var x := entries.bst.Remove(base);
      if x == BST.RemoveResult.NullParent {
        return NullParent;
      }
      WindowsDrop(s, Contents(), base);
      return Done;
    }

    /** The object at the root of the tree. */
    method RootEntry() returns (e: E)
      requires Valid() && entries.bst.shape.T?
      ensures e == entries.bst.shape.data.value.entry
    {
      e := entries.bst.root.data.value.entry;
    }

    /** `findRegion`: the object whose window covers the address, and the offset into it. */
    method FindRegion(address: int) returns (found: bool, w: Node?<Mapping<E>>, offset: int)
      requires Valid() && Word(address)
      ensures found <==> Mapped(Contents(), address)
      ensures found ==> w != null && w in entries.bst.mem && EntryOf(entries.bst.mem[w].data) in Contents()
      ensures found ==> Covers(EntryOf(entries.bst.mem[w].data), address)
                        && address == entries.bst.mem[w].data.key + offset
    {
      w := entries.Find(address);
      found, offset := w != null, 0;
      if w != null {
        offset := (address - w.data.key) % WORD;
      }
    }
  }

  lemma TwoEntries<V>(t: Tree<V>)
    requires |Entries(t)| == 2
    ensures t.T? && t.l.Nil? != t.r.Nil? && EntryOf(t.data) in Entries(t)
  {
    SizeIsLength(t);
    SizeIsLength(t.l);
    SizeIsLength(t.r);
    assert Entries(t)[|Entries(t.l)|] == EntryOf(t.data);
  }

  lemma RootFirst<E>(t: Tree<Mapping<E>>)
    requires t.T? && EntryOf(t.data) in Entries(t)
    ensures FirstBacked(t, t.data.value.entry, t.data.key)
  {
    var p := Preorder(t);
    assert p[0] == EntryOf(t.data) && p[..0] == [];
    assert FirstWith(p, Backed(t.data.value.entry), EntryOf(t.data));
  }

  lemma OnlyWindow<E>(s: seq<Entry<Mapping<E>>>, w: Entry<Mapping<E>>)
    requires WithEntry([], s, w)
    ensures s == [w]
  {
  }

  lemma BesideWindow<E>(s: seq<Entry<Mapping<E>>>, a: E)
    requires s == [Entry(0x1000, Mapping(0x1000, 0, a))]
    ensures NoneWith(s, Overlaps(0x2000, 0x1000))
  {
    NoMod(0x1000 + 0x1000 - 1);
    NoMod(0x2000 + 0x1000 - 1);
  }

  lemma TwoWindows<E>(s: seq<Entry<Mapping<E>>>, s': seq<Entry<Mapping<E>>>, v: Entry<Mapping<E>>, w: Entry<Mapping<E>>)
    requires s == [v] && WithEntry(s, s', w)
    ensures |s'| == 2 && forall e :: e in s' ==> e == v || e == w
  {
  }

  lemma Nothing<E>()
    ensures NoneWith<Mapping<E>>([], Overlaps(0x1000, 0x1000))
  {
  }

  /** Two objects are mapped; the one at the root of the tree cannot be taken out. */
  method NullParentReached<E(==)>(a: E, b: E) returns (space: Map<E>, r: RemoveOutcome)
    ensures r == NullParent
  {
    hide Snapshot, HoldsZip, DistinctZip, Entries, Sorted, Preorder, FirstWith, NoneWith, Windows, Free, WithEntry,
      Searched, Placed, FirstBacked;
    space := new Map<E>();
    Nothing<E>();
    var first := space.Add(a, 0x1000, 0x1000, 0, 0, 0);
    ghost var s := space.Contents();
    OnlyWindow(s, Entry(0x1000, Mapping(0x1000, 0, a)));
    BesideWindow(s, a);
    var second := space.Add(b, 0x1000, 0x2000, 0, 0, 0);
    TwoWindows(s, space.Contents(), Entry(0x1000, Mapping(0x1000, 0, a)), Entry(0x2000, Mapping(0x1000, 0, b)));
    ghost var t := space.entries.bst.shape;
    TwoEntries(t);
    RootFirst(t);
    var e := space.RootEntry();
    r := space.Remove(e);
  }
}
