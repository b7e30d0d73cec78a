/** `vm::MapEntry`: the pages of an anonymous VM object, faulted in on demand. */
module MapEntry {
  import opened Bits
  import opened TreeShape
  import opened TreeOrder
  import opened RedBlackTheory
  import RBT = RedBlackTree

  const PAGE := 4096
  const MAX_PREFAULT := 64

  datatype Detector = Idle | Detect1 | Detect2

  /** State of the fault sequence detector. */
  datatype Sequence = Sequence(state: Detector, lastOffset: int, lastStride: int, faults: int)

  /** What a fault touches outside the object: the physical pages the allocator will hand out, in
      order, and the page table of the faulting address space. An empty supply is exhaustion. */
  class Pager {
    var supply: seq<int>
    var table: map<int, int>
  }

  // ---------------------------------------------------------------- pages

  /** Physical pages of the entries. */
  ghost function Pages(s: seq<Entry<int>>): seq<int> {
    seq(|s|, i requires 0 <= i < |s| => s[i].value)
  }

  /** Every page lies inside the first `length` bytes of the object. */
  ghost predicate Inside(s: seq<Entry<int>>, length: int) {
    forall i :: 0 <= i < |s| ==> 0 <= s[i].key && s[i].key * PAGE < length
  }

  ghost predicate HasPage(s: seq<Entry<int>>, k: int, page: int) {
    Entry(k, page) in s
  }

  /** `s'` has all entries of `s`. */
  ghost predicate Keeps(s: seq<Entry<int>>, s': seq<Entry<int>>) {
    forall e :: e in s ==> e in s'
  }

  /** Table entries that changed map pages of the object at their place above `base`. */
  ghost predicate TableAgrees(t: map<int, int>, t': map<int, int>, s: seq<Entry<int>>, base: int) {
    && t.Keys <= t'.Keys
    && forall a :: a in t' && (a !in t || t'[a] != t[a]) ==>
         exists k :: HasPage(s, k, t'[a]) && a == (base + k * PAGE) % WORD
  }

  /** A new entry brings its page and its key and keeps the rest. */
  lemma InsertPage(s: seq<Entry<int>>, s': seq<Entry<int>>, e: Entry<int>, length: int)
    requires WithEntry(s, s', e)
    ensures multiset(Pages(s')) == multiset(Pages(s)) + multiset{e.value}
    ensures Keeps(s, s') && e in s' && |s'| == |s| + 1
    ensures Inside(s, length) && 0 <= e.key && e.key * PAGE < length ==> Inside(s', length)
    ensures forall k :: HasKey(s', k) <==> HasKey(s, k) || k == e.key
  {
    hide Pages, Inside, Keeps, HasKey;
    var i :| 0 <= i <= |s| && s' == s[..i] + [e] + s[i..];
    PagesInsert(s, i, e);
    MembersInsert(s, i, e);
    InsideInsert(s, i, e, length);
    KeysInsert(s, i, e);
  }

  lemma MembersInsert(s: seq<Entry<int>>, i: int, e: Entry<int>)
    requires 0 <= i <= |s|
    ensures var s' := s[..i] + [e] + s[i..]; Keeps(s, s') && e in s'
  {
    var s' := s[..i] + [e] + s[i..];
    assert s'[i] == e;
    forall j | 0 <= j < |s| ensures s[j] in s' { assert s[j] == if j < i then s'[j] else s'[j + 1]; }
  }

  lemma InsideInsert(s: seq<Entry<int>>, i: int, e: Entry<int>, length: int)
    requires 0 <= i <= |s|
    ensures Inside(s, length) && 0 <= e.key && e.key * PAGE < length ==> Inside(s[..i] + [e] + s[i..], length)
  {
  }

  lemma KeysInsert(s: seq<Entry<int>>, i: int, e: Entry<int>)
    requires 0 <= i <= |s|
    ensures forall k :: HasKey(s[..i] + [e] + s[i..], k) <==> HasKey(s, k) || k == e.key
  {
    var s' := s[..i] + [e] + s[i..];
    forall k ensures HasKey(s', k) <==> HasKey(s, k) || k == e.key {
      if HasKey(s, k) {
        var j :| 0 <= j < |s| && s[j].key == k;
        assert s[j] == if j < i then s'[j] else s'[j + 1];
      }
      assert s'[i] == e;
      if HasKey(s', k) {
        var j :| 0 <= j < |s'| && s'[j].key == k;
        assert s'[j] == if j < i then s[j] else if j == i then e else s[j - 1];
      }
    }
  }

  lemma PagesInsert(s: seq<Entry<int>>, i: int, e: Entry<int>)
    requires 0 <= i <= |s|
    ensures multiset(Pages(s[..i] + [e] + s[i..])) == multiset(Pages(s)) + multiset{e.value}
  {
    assert Pages(s[..i] + [e] + s[i..]) == Pages(s[..i]) + [e.value] + Pages(s[i..]);
    assert Pages(s) == Pages(s[..i]) + Pages(s[i..]);
  }

  // ---------------------------------------------------------------- what a fault does

  /** The pages of the object, the supply and the page table at one moment. */
  datatype Moment = Moment(pages: seq<Entry<int>>, supply: seq<int>, table: map<int, int>)

  /** Pages only move from the supply to the object, at most `n` of them, and the table only gains
      pages of the object. */
  ghost predicate Grew(v: Moment, v': Moment, base: int, n: int) {
    && Keeps(v.pages, v'.pages)
    && multiset(Pages(v.pages)) + multiset(v.supply) == multiset(Pages(v'.pages)) + multiset(v'.supply)
    && |v'.pages| <= |v.pages| + n
    && TableAgrees(v.table, v'.table, v'.pages, base)
  }

  lemma GrewNot(v: Moment, base: int)
    ensures Grew(v, v, base, 0)
  {
  }

  lemma GrewLess(v: Moment, v': Moment, base: int, n: int, m: int)
    requires Grew(v, v', base, n) && n <= m
    ensures Grew(v, v', base, m)
  {
  }

  lemma GrewTrans(v: Moment, v': Moment, v'': Moment, base: int, n: int, m: int)
    requires Grew(v, v', base, n) && Grew(v', v'', base, m)
    ensures Grew(v, v'', base, n + m)
  {
    hide Pages;
    var t, t', t'', s := v.table, v'.table, v''.table, v''.pages;
    forall a | a in t'' && (a !in t || t''[a] != t[a])
      ensures exists k :: HasPage(s, k, t''[a]) && a == (base + k * PAGE) % WORD
    {
      if a in t' && t''[a] == t'[a] {
        var k :| HasPage(v'.pages, k, t'[a]) && a == (base + k * PAGE) % WORD;
        assert HasPage(s, k, t''[a]);
      }
    }
  }

  /** The object owns page `k` and the table shows it there. */
  ghost predicate Shown(v: Moment, base: int, k: int) {
    var a := (base + k * PAGE) % WORD;
    HasKey(v.pages, k) && a in v.table && HasPage(v.pages, k, v.table[a])
  }

  /** Mapping a page that is owned already. */
  lemma GrewShared(v: Moment, base: int, k: int, page: int)
    requires HasPage(v.pages, k, page)
    ensures var v' := v.(table := v.table[(base + k * PAGE) % WORD := page]);
      Grew(v, v', base, 0) && Shown(v', base, k)
  {
    hide Pages;
    var i :| 0 <= i < |v.pages| && v.pages[i] == Entry(k, page);
  }

  /** Taking a page from the supply for a new entry. */
  lemma GrewFresh(v: Moment, s': seq<Entry<int>>, base: int, k: int)
    requires v.supply != [] && WithEntry(v.pages, s', Entry(k, v.supply[0]))
    ensures Grew(v, Moment(s', v.supply[1..], v.table), base, 1) && HasPage(s', k, v.supply[0])
  {
    hide Pages;
    InsertPage(v.pages, s', Entry(k, v.supply[0]), 0);
    assert v.supply == [v.supply[0]] + v.supply[1..];
  }

  lemma Shift(a: multiset<int>, b: multiset<int>, s: multiset<int>, s': multiset<int>, x: int)
    requires a + s == b + s'
    ensures a + (multiset{x} + s) == (b + multiset{x}) + s'
  {
    assert a + (multiset{x} + s) == (a + s) + multiset{x};
    assert (b + multiset{x}) + s' == (b + s') + multiset{x};
  }

  /** The same when other pages were taken between taking the page and entering it. */
  lemma GrewReserved(v0: Moment, v1: Moment, v2: Moment, s': seq<Entry<int>>, base: int, n: int, k: int)
    requires v0.supply != [] && v1 == v0.(supply := v0.supply[1..]) && Grew(v1, v2, base, n)
    requires WithEntry(v2.pages, s', Entry(k, v0.supply[0]))
    ensures Grew(v0, v2.(pages := s'), base, n + 1) && HasPage(s', k, v0.supply[0])
  {
    hide Pages;
    InsertPage(v2.pages, s', Entry(k, v0.supply[0]), 0);
    assert v0.supply == [v0.supply[0]] + v0.supply[1..];
    Shift(multiset(Pages(v0.pages)), multiset(Pages(v2.pages)), multiset(v1.supply), multiset(v2.supply), v0.supply[0]);
    forall a | a in v2.table && (a !in v1.table || v2.table[a] != v1.table[a])
      ensures exists k :: HasPage(s', k, v2.table[a]) && a == (base + k * PAGE) % WORD
    {
      var k :| HasPage(v2.pages, k, v2.table[a]) && a == (base + k * PAGE) % WORD;
      assert HasPage(s', k, v2.table[a]);
    }
  }

  /** ... and the page is mapped as well. */
  lemma GrewEntered(v0: Moment, v1: Moment, v2: Moment, s': seq<Entry<int>>, base: int, n: int, k: int)
    requires v0.supply != [] && v1 == v0.(supply := v0.supply[1..]) && Grew(v1, v2, base, n)
    requires WithEntry(v2.pages, s', Entry(k, v0.supply[0]))
    ensures var v := Moment(s', v2.supply, v2.table[(base + k * PAGE) % WORD := v0.supply[0]]);
      Grew(v0, v, base, n + 1) && Shown(v, base, k)
  {
    hide Grew, Shown, HasPage, WithEntry;
    var v := v2.(pages := s');
    GrewReserved(v0, v1, v2, s', base, n, k);
    GrewShared(v, base, k, v0.supply[0]);
    GrewTrans(v0, v, v.(table := v.table[(base + k * PAGE) % WORD := v0.supply[0]]), base, n + 1, 0);
  }

  /** `Stopped` is the kernel halting because no physical page is left. */
  datatype FaultResult = Refused | Handled | Stopped

  // ---------------------------------------------------------------- the detector

  /** Page that the `i`-th prefault after the one at `offset` asks for. */
  function AheadOffset(offset: int, i: int): int {
    (offset + (i + 1) * PAGE) % WORD
  }

  /** How many of `n` prefaults happen before one falls past the end of the object. */
  function InBounds(offset: int, length: int, n: int): (done: int)
    requires 0 <= n
    ensures 0 <= done <= n
    ensures done < n ==> AheadOffset(offset, done) >= length
    ensures forall i :: 0 <= i < done ==> AheadOffset(offset, i) < length
  {
    if n == 0 then 0
    else
      var d := InBounds(offset, length, n - 1);
      if d < n - 1 || AheadOffset(offset, n - 1) >= length then d else n
  }

  lemma BoundsCover(offset: int, length: int, n: int, i: int)
    requires 0 <= i < n && forall j :: 0 <= j <= i ==> AheadOffset(offset, j) < length
    ensures i + 1 <= InBounds(offset, length, n)
  {
  }

  /** Page `k` is one of the first `n` after the one at `offset`. */
  ghost predicate Ahead(k: int, offset: int, n: int) {
    exists i :: 0 <= i < n && k == AheadOffset(offset, i) / PAGE
  }

  lemma AheadStep(offset: int, i: int)
    requires 0 <= i
    ensures forall k :: Ahead(k, offset, i + 1) <==> Ahead(k, offset, i) || k == AheadOffset(offset, i) / PAGE
  {
    forall k ensures Ahead(k, offset, i + 1) <==> Ahead(k, offset, i) || k == AheadOffset(offset, i) / PAGE {
      if Ahead(k, offset, i) {
        var j :| 0 <= j < i && k == AheadOffset(offset, j) / PAGE;
        assert 0 <= j < i + 1;
      }
    }
  }

  lemma AheadNotHere(offset: int, n: int)
    requires 0 <= offset < WORD && n <= MAX_PREFAULT
    ensures !Ahead(offset / PAGE, offset, n)
  {
    forall i | 0 <= i < n ensures AheadOffset(offset, i) / PAGE != offset / PAGE {
      AheadIsOther(offset, i);
    }
  }

  lemma AheadNone(offset: int)
    ensures forall k :: !Ahead(k, offset, 0)
  {
  }

  /** A prefault never asks for the page that is being faulted in, and stays inside the object when
      its offset does. */
  lemma AheadIsOther(offset: int, i: int)
    requires 0 <= offset < WORD && 0 <= i < MAX_PREFAULT
    ensures AheadOffset(offset, i) / PAGE != offset / PAGE
    ensures 0 <= AheadOffset(offset, i)
  {
    var x := offset + (i + 1) * PAGE;
    if x < WORD {
      ModUnique(x, WORD, 0, x);
    } else {
      ModUnique(x, WORD, 1, x - WORD);
    }
  }

  /** How many of the first `n` pages ahead are not among the owned ones. */
  ghost function Missing(s: seq<Entry<int>>, offset: int, n: int): (m: int)
    requires 0 <= n
    ensures 0 <= m <= n
  {
    if n == 0 then 0
    else Missing(s, offset, n - 1) + if HasKey(s, AheadOffset(offset, n - 1) / PAGE) then 0 else 1
  }

  lemma {:induction false} MissingGrows(s: seq<Entry<int>>, offset: int, i: int, n: int)
    requires 0 <= i <= n
    ensures Missing(s, offset, i) <= Missing(s, offset, n)
    decreases n
  {
    if i < n { MissingGrows(s, offset, i, n - 1); }
  }

  lemma MissingNext(s: seq<Entry<int>>, offset: int, i: int)
    requires 0 <= i
    ensures Missing(s, offset, i + 1) ==
      Missing(s, offset, i) + if HasKey(s, AheadOffset(offset, i) / PAGE) then 0 else 1
    ensures Missing(s, offset, 0) == 0
  {
  }

  /** No two prefaults ask for the same page. */
  lemma AheadDistinct(offset: int, i: int)
    requires 0 <= offset < WORD && 0 <= i < MAX_PREFAULT
    ensures !Ahead(AheadOffset(offset, i) / PAGE, offset, i)
  {
    forall j | 0 <= j < i ensures AheadOffset(offset, j) / PAGE != AheadOffset(offset, i) / PAGE {
      AheadValue(offset, i);
      AheadValue(offset, j);
    }
  }

  lemma AheadValue(offset: int, i: int)
    requires 0 <= offset < WORD && 0 <= i < MAX_PREFAULT
    ensures var x := offset + (i + 1) * PAGE; AheadOffset(offset, i) == if x < WORD then x else x - WORD
  {
    var x := offset + (i + 1) * PAGE;
    if x < WORD { ModUnique(x, WORD, 0, x); } else { ModUnique(x, WORD, 1, x - WORD); }
  }

  /** Whether the fault continues the detected sequence, so that pages are prefaulted. */
  predicate Continues(q: Sequence, pageOff: int) {
    q.state == Detect2 && pageOff > q.lastOffset && pageOff - q.lastOffset == q.lastStride
  }

  /** Pages to prefault: one more with each continuing fault, at most 64. */
  function Wanted(q: Sequence, pageOff: int): (n: int)
    requires 0 <= q.faults < WORD
    ensures 0 <= n <= MAX_PREFAULT
  {
    if !Continues(q, pageOff) then 0
    else
      var f := (q.faults + 1) % WORD;
      if f < MAX_PREFAULT then f else MAX_PREFAULT
  }

  /** The detector after a fault at `offset`, on page `pageOff`. */
  function NextSequence(q: Sequence, pageOff: int, offset: int, length: int): Sequence
    requires 0 <= q.faults < WORD
  {
    match q.state
    case Idle => Sequence(Detect1, pageOff, 0, q.faults)
    case Detect1 =>
      if pageOff <= q.lastOffset then q.(state := Idle)
      else Sequence(Detect2, pageOff, pageOff - q.lastOffset, q.faults)
    case Detect2 =>
      if pageOff <= q.lastOffset then q.(state := Idle)
      else if !Continues(q, pageOff) then q.(state := Idle, faults := 0)
      else
        var n := Wanted(q, pageOff);
        if InBounds(offset, length, n) == n
        then q.(lastOffset := (pageOff + n) % WORD, faults := (q.faults + 1) % WORD)
        else q.(state := Idle, lastOffset := pageOff, faults := 0)
  }

  lemma NextContinues(q: Sequence, pageOff: int, offset: int, length: int)
    requires 0 <= q.faults < WORD && Continues(q, pageOff)
    ensures var f := (q.faults + 1) % WORD;
      && 0 <= f < WORD && Wanted(q, pageOff) == (if f < MAX_PREFAULT then f else MAX_PREFAULT)
      && NextSequence(q, pageOff, offset, length) ==
           if InBounds(offset, length, Wanted(q, pageOff)) == Wanted(q, pageOff)
           then q.(lastOffset := (pageOff + Wanted(q, pageOff)) % WORD, faults := f)
           else q.(state := Idle, lastOffset := pageOff, faults := 0)
  {
  }

  /** How many pages a fault brings in ahead: none if its own page was there already. */
  ghost function Prefaulted(s: seq<Entry<int>>, q: Sequence, offset: int, length: int): int
    requires 0 <= q.faults < WORD
  {
    if HasKey(s, offset / PAGE) then 0 else InBounds(offset, length, Wanted(q, offset / PAGE))
  }

  /** How many pages a fault takes from the supply. */
  ghost function Needs(s: seq<Entry<int>>, q: Sequence, offset: int, length: int): int
    requires 0 <= q.faults < WORD
  {
    if HasKey(s, offset / PAGE) then 0
    else 1 + Missing(s, offset, InBounds(offset, length, Wanted(q, offset / PAGE)))
  }

  /** While the sequence goes on, each fault prefaults one page more than the last, up to 64. */
  lemma PrefaultGrowsByOne(q: Sequence, offset: int, length: int)
    requires 0 <= q.faults < WORD - 1 && 0 <= q.lastOffset && 0 <= offset < length < WORD
    requires Continues(q, offset / PAGE)
    requires InBounds(offset, length, Wanted(q, offset / PAGE)) == Wanted(q, offset / PAGE)
    ensures var q' := NextSequence(q, offset / PAGE, offset, length);
      && q'.faults == q.faults + 1 && Continues(q', q'.lastOffset + q'.lastStride)
      && (q'.faults < WORD - 1 ==>
            Wanted(q', q'.lastOffset + q'.lastStride) ==
              if Wanted(q, offset / PAGE) < MAX_PREFAULT then Wanted(q, offset / PAGE) + 1 else MAX_PREFAULT)
  {
    hide InBounds, AheadOffset;
    ModUnique(q.faults + 1, WORD, 0, q.faults + 1);
    var q' := NextSequence(q, offset / PAGE, offset, length);
    if q'.faults < WORD - 1 { ModUnique(q'.faults + 1, WORD, 0, q'.faults + 1); }
  }

  class MapEntry {
    var length: int
    var isAnon: bool
    var sequence: Sequence
    const pages: RBT.RedBlackTree<int>

    ghost predicate Valid()
      reads this, pages, pages.bst, pages.bst.mem.Keys
    {
      && pages.Valid() && 0 <= length < WORD && Inside(pages.Contents(), length)
      && 0 <= sequence.faults < WORD
    }

    /** The source leaves the detector's state unset; `state` stands for what it happens to be. */
    constructor (length: int, isAnon: bool, state: Detector)
      requires 0 <= length < WORD
      ensures Valid() && pages.Contents() == [] && fresh(pages) && fresh(pages.bst) && pages.bst.mem == map[]
      ensures this.length == length && this.isAnon == isAnon && sequence == Sequence(state, 0, 0, 0)
    {
      this.length, this.isAnon, sequence := length, isAnon, Sequence(state, 0, 0, 0);
      pages := new RBT.RedBlackTree<int>();
    }

    ghost function At(pager: Pager): Moment
      reads this, pages, pages.bst, pager
    {
      Moment(pages.Contents(), pager.supply, pager.table)
    }

    /** `faultInPage` without the detector: maps the page, taking one from the supply if the object
        does not own it yet. `ok` is false when the allocator is exhausted and the source stops. */
    method FaultInPage(base: int, offset: int, pager: Pager) returns (ok: bool)
      requires Valid() && 0 <= offset < length
      modifies pager, pages.bst, pages.bst.mem.Keys
      ensures ok <==> HasKey(old(pages.Contents()), offset / PAGE) || old(pager.supply) != []
      ensures !ok ==> pager.supply == []
      ensures ok ==>
        |pager.supply| == |old(pager.supply)| - if HasKey(old(pages.Contents()), offset / PAGE) then 0 else 1
      ensures ok ==> Valid() && Grew(old(At(pager)), At(pager), base, 1) && Shown(At(pager), base, offset / PAGE)
      ensures ok ==> forall k :: HasKey(pages.Contents(), k) <==> HasKey(old(pages.Contents()), k) || k == offset / PAGE
      ensures ok ==> fresh(pages.bst.mem.Keys - old(pages.bst.mem.Keys))
    {
      hide Snapshot, HoldsZip, DistinctZip, Entries, Sorted, RedBlack, Grew, HasKey, Inside, WithEntry;
      var pageOff := offset / PAGE;
      var destAddr := (base + pageOff * PAGE) % WORD;
      var info := pages.bst.FindKey(pageOff);
      if info != null {
        var d := pages.bst.DataOf(info);
        GrewShared(At(pager), base, pageOff, d.value);
        GrewLess(At(pager), At(pager).(table := pager.table[destAddr := d.value]), base, 0, 1);
        pager.table := pager.table[destAddr := d.value];
        return true;
      }
      if pager.supply == [] {
        return false;
      }
      var page := pager.supply[0];
      pager.supply := pager.supply[1..];
      ok := TakePage(pageOff, page);
      GrewFresh(old(At(pager)), pages.Contents(), base, pageOff);
      GrewShared(At(pager), base, pageOff, page);
      GrewTrans(old(At(pager)), At(pager), At(pager).(table := pager.table[destAddr := page]), base, 1, 0);
      pager.table := pager.table[destAddr := page];
    }

    /** Puts a page into the tree under a new key. */
    method TakePage(pageOff: int, page: int) returns (ok: bool)
      requires Valid() && 0 <= pageOff && pageOff * PAGE < length && !HasKey(pages.Contents(), pageOff)
      modifies pages.bst, pages.bst.mem.Keys
      ensures ok && Valid() && WithEntry(old(pages.Contents()), pages.Contents(), Entry(pageOff, page))
      ensures forall k :: HasKey(pages.Contents(), k) <==> HasKey(old(pages.Contents()), k) || k == pageOff
      ensures fresh(pages.bst.mem.Keys - old(pages.bst.mem.Keys))
    {
      var leaf := new Node(pageOff, page);
      ok := pages.Insert(leaf);
      InsertPage(old(pages.Contents()), pages.Contents(), Entry(pageOff, page), length);
    }

    /** `detectFaultSequence`: advances the detector and faults in the pages it asks for. */
    method DetectFaultSequence(base: int, offset: int, pager: Pager, pageOff: int) returns (ok: bool, ghost done: int)
      requires Valid() && 0 <= offset < length && pageOff == offset / PAGE
      modifies this`sequence, pager, pages.bst, pages.bst.mem.Keys
      ensures done <= InBounds(offset, length, Wanted(old(sequence), pageOff))
      ensures ok <==>
        |old(pager.supply)| >=
          Missing(old(pages.Contents()), offset, InBounds(offset, length, Wanted(old(sequence), pageOff)))
      ensures !ok ==> pager.supply == []
      ensures ok ==> done == InBounds(offset, length, Wanted(old(sequence), pageOff))
      ensures ok ==> Valid() && sequence == NextSequence(old(sequence), pageOff, offset, length)
      ensures ok ==> Grew(old(At(pager)), At(pager), base, done)
      ensures ok ==> forall k ::
        HasKey(pages.Contents(), k) <==> HasKey(old(pages.Contents()), k) || Ahead(k, offset, done)
      ensures ok ==> fresh(pages.bst.mem.Keys - old(pages.bst.mem.Keys))
    {
      hide Snapshot, HoldsZip, DistinctZip, Entries, Sorted, RedBlack, Grew, HasKey, Inside, Ahead, AheadOffset,
        InBounds, Missing;
      GrewNot(At(pager), base);
      AheadNone(offset);
      MissingNext(pages.Contents(), offset, 0);
      ok, done := true, 0;
      var q := sequence;
      match q.state {
        case Idle =>
          sequence := Sequence(Detect1, pageOff, 0, q.faults);
        case Detect1 =>
          if pageOff <= q.lastOffset {
            sequence := q.(state := Idle);
          } else {
            sequence := Sequence(Detect2, pageOff, pageOff - q.lastOffset, q.faults);
          }
        case Detect2 =>
          if pageOff <= q.lastOffset {
            sequence := q.(state := Idle);
            return;
          }
          if pageOff - q.lastOffset != q.lastStride {
            sequence := q.(state := Idle, faults := 0);
            return;
          }
          ok, done := ContinueSequence(base, offset, pager, pageOff);
      }
    }

    /** A fault that continues the sequence; running past the end of the object resets the
        detector. */
    method ContinueSequence(base: int, offset: int, pager: Pager, pageOff: int) returns (ok: bool, ghost done: int)
      requires Valid() && 0 <= offset < length && pageOff == offset / PAGE && Continues(sequence, pageOff)
      modifies this`sequence, pager, pages.bst, pages.bst.mem.Keys
      ensures done <= InBounds(offset, length, Wanted(old(sequence), pageOff))
      ensures ok <==>
        |old(pager.supply)| >=
          Missing(old(pages.Contents()), offset, InBounds(offset, length, Wanted(old(sequence), pageOff)))
      ensures !ok ==> pager.supply == []
      ensures ok ==> done == InBounds(offset, length, Wanted(old(sequence), pageOff))
      ensures ok ==> Valid() && sequence == NextSequence(old(sequence), pageOff, offset, length)
      ensures ok ==> Grew(old(At(pager)), At(pager), base, done)
      ensures ok ==> forall k ::
        HasKey(pages.Contents(), k) <==> HasKey(old(pages.Contents()), k) || Ahead(k, offset, done)
      ensures ok ==> fresh(pages.bst.mem.Keys - old(pages.bst.mem.Keys))
    {
      hide Snapshot, HoldsZip, DistinctZip, Entries, Sorted, RedBlack, Grew, HasKey, Inside, Ahead, AheadOffset,
        InBounds, Missing, NextSequence, Wanted, Continues;
      NextContinues(sequence, pageOff, offset, length);
      sequence := sequence.(lastOffset := pageOff, faults := (sequence.faults + 1) % WORD);
      var numFault := if sequence.faults < MAX_PREFAULT then sequence.faults else MAX_PREFAULT;
      var i;
      ok, i := Prefault(base, offset, pager, numFault);
      done := i;
      if !ok {
        return;
      }
      if i == numFault {
        sequence := sequence.(lastOffset := (sequence.lastOffset + numFault) % WORD);
      } else {
        sequence := sequence.(state := Idle, faults := 0);
      }
    }

    /** The prefault loop: stops at the first offset past the end of the object. */
    method Prefault(base: int, offset: int, pager: Pager, numFault: int) returns (ok: bool, i: int)
      requires Valid() && 0 <= offset < length && 0 <= numFault <= MAX_PREFAULT
      modifies pager, pages.bst, pages.bst.mem.Keys
      ensures i <= InBounds(offset, length, numFault)
      ensures ok <==> Missing(old(pages.Contents()), offset, InBounds(offset, length, numFault)) <= |old(pager.supply)|
      ensures !ok ==> pager.supply == []
      ensures ok ==> i == InBounds(offset, length, numFault)
      ensures ok ==> Valid() && Grew(old(At(pager)), At(pager), base, i)
      ensures ok ==> forall k ::
        HasKey(pages.Contents(), k) <==> HasKey(old(pages.Contents()), k) || Ahead(k, offset, i)
      ensures ok ==> fresh(pages.bst.mem.Keys - old(pages.bst.mem.Keys))
    {
      hide Snapshot, HoldsZip, DistinctZip, Entries, Sorted, RedBlack, Grew, HasKey, Inside, Missing, Ahead;
      ghost var v0 := At(pager);
      GrewNot(v0, base);
      AheadNone(offset);
      MissingNext(v0.pages, offset, 0);
      i := 0;
      while i < numFault
        invariant Valid() && 0 <= i <= numFault
        invariant forall j :: 0 <= j < i ==> AheadOffset(offset, j) < length
        invariant Grew(v0, At(pager), base, i) && |pager.supply| == |v0.supply| - Missing(v0.pages, offset, i)
        invariant forall k :: HasKey(pages.Contents(), k) <==> HasKey(v0.pages, k) || Ahead(k, offset, i)
        invariant fresh(pages.bst.mem.Keys - old(pages.bst.mem.Keys))
      {
        if AheadOffset(offset, i) >= length {
          return true, i;
        }
        ghost var v := At(pager);
        AheadIsOther(offset, i);
        AheadDistinct(offset, i);
        MissingNext(v0.pages, offset, i);
        BoundsCover(offset, length, numFault, i);
        MissingGrows(v0.pages, offset, i + 1, InBounds(offset, length, numFault));
        ok := FaultInPage(base, AheadOffset(offset, i), pager);
        if !ok {
          return;
        }
        GrewTrans(v0, v, At(pager), base, i, 1);
        AheadStep(offset, i);
        i := i + 1;
      }
      ok := true;
    }

    /** `faultInPage` with the detector, for a page the object does not own: the page is taken first,
        the detector may take more, and only then does the page enter the tree. */
    method FaultInNew(base: int, offset: int, pager: Pager) returns (ok: bool, ghost done: int)
      requires Valid() && 0 <= offset < length && !HasKey(pages.Contents(), offset / PAGE)
      modifies this`sequence, pager, pages.bst, pages.bst.mem.Keys
      ensures ok <==> Needs(old(pages.Contents()), old(sequence), offset, length) <= |old(pager.supply)|
      ensures !ok ==> pager.supply == []
      ensures ok ==> done == InBounds(offset, length, Wanted(old(sequence), offset / PAGE))
      ensures ok ==> Valid() && sequence == NextSequence(old(sequence), offset / PAGE, offset, length)
      ensures ok ==> Grew(old(At(pager)), At(pager), base, done + 1) && Shown(At(pager), base, offset / PAGE)
      ensures ok ==> forall k :: HasKey(pages.Contents(), k) <==>
                HasKey(old(pages.Contents()), k) || k == offset / PAGE || Ahead(k, offset, done)
      ensures ok ==> fresh(pages.bst.mem.Keys - old(pages.bst.mem.Keys))
    {
      hide Snapshot, HoldsZip, DistinctZip, Entries, Sorted, RedBlack, Grew, HasKey, HasPage, Inside, Ahead, WithEntry,
        NextSequence, InBounds, AheadOffset, Wanted, Shown, Missing;
      var pageOff := offset / PAGE;
      ghost var v0 := At(pager);
      done := 0;
      if pager.supply == [] {
        return false, done;
      }
      var page := pager.supply[0];
      pager.supply := pager.supply[1..];
      ghost var v1 := At(pager);
      ok, done := DetectFaultSequence(base, offset, pager, pageOff);
      if !ok {
        return;
      }
      ghost var v2 := At(pager);
      AheadNotHere(offset, done);
      ok := TakePage(pageOff, page);
      GrewEntered(v0, v1, v2, pages.Contents(), base, done, pageOff);
      var destAddr := (base + pageOff * PAGE) % WORD;
      pager.table := pager.table[destAddr := page];
    }

    /** `handlePagefault`. `Refused` leaves everything as it was. */
    method HandlePagefault(base: int, offset: int, present: bool, pager: Pager) returns (r: FaultResult)
      requires Valid() && 0 <= offset
      modifies this`sequence, pager, pages.bst, pages.bst.mem.Keys
      ensures r == Refused <==> !isAnon || present || offset >= length
      ensures r == Refused ==> Valid() && At(pager) == old(At(pager)) && sequence == old(sequence)
      ensures r == Stopped <==>
        r != Refused && |old(pager.supply)| < Needs(old(pages.Contents()), old(sequence), offset, length)
      ensures r == Stopped ==> pager.supply == []
      ensures r == Handled ==> Valid() && Shown(At(pager), base, offset / PAGE)
      ensures r == Handled ==> Grew(old(At(pager)), At(pager), base, 1 + MAX_PREFAULT)
      ensures r == Handled ==> forall k :: HasKey(pages.Contents(), k) <==>
        (HasKey(old(pages.Contents()), k) || k == offset / PAGE
         || Ahead(k, offset, Prefaulted(old(pages.Contents()), old(sequence), offset, length)))
      ensures r == Handled && HasKey(old(pages.Contents()), offset / PAGE) ==> sequence == old(sequence)
      ensures r == Handled && !HasKey(old(pages.Contents()), offset / PAGE) ==>
        sequence == NextSequence(old(sequence), offset / PAGE, offset, length)
      ensures r == Handled ==> fresh(pages.bst.mem.Keys - old(pages.bst.mem.Keys))
    {
      hide Snapshot, HoldsZip, DistinctZip, Entries, Sorted, RedBlack, Grew, HasKey, Inside, Ahead, NextSequence,
        InBounds;
      AheadNone(offset);
      if !isAnon || present || offset >= length {
        return Refused;
      }
      ghost var v0 := At(pager);
      var ok;
      var info := pages.bst.FindKey(offset / PAGE);
      if info != null {
        ok := FaultInPage(base, offset, pager);
        GrewLess(v0, At(pager), base, 1, 1 + MAX_PREFAULT);
      } else {
        ghost var done;
        ok, done := FaultInNew(base, offset, pager);
        if ok { GrewLess(v0, At(pager), base, done + 1, 1 + MAX_PREFAULT); }
      }
      return if ok then Handled else Stopped;
    }

    /** `faultInAllPages`: a page for every full page of the object, in order, as long as the supply
        lasts. */
    method FaultInAllPages(pager: Pager) returns (ok: bool)
      requires Valid() && isAnon && pages.Contents() == []
      modifies pager, pages.bst, pages.bst.mem.Keys
      ensures ok <==> length / PAGE <= |old(pager.supply)|
      ensures Valid() && Grew(old(At(pager)), At(pager), 0, length / PAGE) && pager.table == old(pager.table)
      ensures ok ==> forall k :: HasKey(pages.Contents(), k) <==> 0 <= k < length / PAGE
    {
      hide Snapshot, HoldsZip, DistinctZip, Entries, Sorted, RedBlack, Grew, Inside, WithEntry;
      ghost var v0 := At(pager);
      GrewNot(v0, 0);
      var numPages := length / PAGE;
      var pageOff := 0;
      while pageOff < numPages
        invariant Valid() && 0 <= pageOff <= numPages && pageOff + |pager.supply| == |v0.supply|
        invariant Grew(v0, At(pager), 0, pageOff) && pager.table == v0.table
        invariant forall k :: HasKey(pages.Contents(), k) <==> 0 <= k < pageOff
        invariant fresh(pages.bst.mem.Keys - old(pages.bst.mem.Keys))
      {
        ghost var v := At(pager);
        if pager.supply == [] {
          GrewLess(v0, v, 0, pageOff, numPages);
          return false;
        }
        var page := pager.supply[0];
        pager.supply := pager.supply[1..];
        var _ := TakePage(pageOff, page);
        GrewFresh(v, pages.Contents(), 0, pageOff);
        GrewTrans(v0, v, At(pager), 0, pageOff, 1);
        pageOff := pageOff + 1;
      }
      ok := true;
    }

    /** `resize`: refuses sizes that are 0 or not whole pages. Pages past a smaller size stay in the
        tree, so the bound on the keys survives exactly when none lies there. */
    method Resize(newSize: int) returns (ok: bool)
      requires Valid() && 0 <= newSize < WORD
      modifies this`length
      ensures ok <==> newSize % PAGE == 0 && newSize != 0
      ensures length == if ok then newSize else old(length)
      ensures Valid() <==> (ok ==> Inside(pages.Contents(), newSize))
      ensures newSize >= old(length) ==> Valid()
    {
      if newSize % PAGE != 0 || newSize == 0 {
        return false;
      }
      length := newSize;
      return true;
    }

    /** The destructor: walks the tree in order and frees each page of the object once. */
    method Destroy() returns (freed: seq<int>)
      requires Valid()
      ensures freed == Pages(pages.Contents())
    {
      hide Snapshot, DistinctZip, Holds, Sorted, RedBlack, Inside, Entries, Nodes;
      ghost var t, s := pages.bst.shape, pages.Contents();
      ghost var i := 0;
      freed := [];
      var n := pages.bst.Begin();
      SizeIsLength(t);
      while n != null
        invariant 0 <= i <= |s| && n == (if i < |s| then Nodes(t)[i] else null)
        invariant freed == Pages(s)[..i]
        decreases |s| - i
      {
        NodeEntry(pages.bst.mem, t, null, i);
        freed := freed + [pages.bst.DataOf(n).value];
        n := pages.bst.Increment(n, i);
        i := i + 1;
      }
    }
  }
}
