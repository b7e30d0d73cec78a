/** `mem::PhysicalAllocator`: page allocation over chains of regions. */
module PhysicalAllocator {
  import opened PhysRegion
  import opened Bits

  /** The regions share no address. */
  predicate Apart(r: Region, q: Region) {
    r.base + r.pages * PAGE <= q.base || q.base + q.pages * PAGE <= r.base
  }

  /** Address of page `k` of the region. */
  function PageOf(r: Region, k: int): int {
    r.base + k * PAGE
  }

  /** Of the pages the region hands out, exactly those whose bit is clear are held. */
  ghost predicate Tracks(r: Region, m: seq<nat>, held: set<int>) {
    |m| == WORDS && forall k :: 0 <= k < r.pages - 1 ==> (PageOf(r, k) in held <==> !IsFree(m, k))
  }

  /** The address is a page that the region hands out. */
  predicate Owns(r: Region, address: int) {
    r.base <= address && (address - r.base) % PAGE == 0 && (address - r.base) / PAGE < r.pages - 1
  }

  datatype FreeResult = Freed | NoRegion | Invalid

  /** What the region that contains the address answers: it never hands out its last page. */
  predicate Answers(r: Region, address: int, result: FreeResult) {
    r.CheckAddress(address) && result == if (address - r.base) / PAGE < r.pages - 1 then Freed else Invalid
  }

  lemma Contained(r: Region, address: int, result: FreeResult)
    requires Answers(r, address, result)
    ensures r.CheckAddress(address)
  {
  }

  /** The page of the region that the address lies in. */
  function PageAt(r: Region, address: int): int {
    PageOf(r, (address - r.base) / PAGE)
  }

  ghost predicate Sound(r: Region, held: set<int>)
    reads r`bitmap, r`lastAllocIdx
  {
    r.Valid() && 0 < r.base && Tracks(r, r.bitmap, held)
  }

  lemma OwnsPage(r: Region, k: int)
    requires 0 <= k < r.pages - 1
    ensures Owns(r, PageOf(r, k)) && r.CheckAddress(PageOf(r, k)) && (PageOf(r, k) - r.base) / PAGE == k
  {
  }

  lemma OwnsInside(r: Region, address: int)
    requires Owns(r, address)
    ensures r.CheckAddress(address)
  {
  }

  /** An address lies in at most one of the regions. */
  lemma OneRegion(r: Region, q: Region, address: int)
    requires Apart(r, q) && r.CheckAddress(address)
    ensures !q.CheckAddress(address)
  {
  }

  /** Holding one page more, or one less, does not concern a region apart from it. */
  lemma TracksOther(r: Region, q: Region, m: seq<nat>, held: set<int>, held': set<int>, page: int)
    requires Apart(r, q) && r.CheckAddress(page) && Tracks(q, m, held)
    requires held' == held + {page} || held' == held - {page}
    ensures Tracks(q, m, held')
  {
    forall k | 0 <= k < q.pages - 1 ensures PageOf(q, k) != page {
      OwnsPage(q, k);
      OneRegion(r, q, page);
    }
  }

  lemma TracksTaken(r: Region, m: seq<nat>, m': seq<nat>, held: set<int>, k: int)
    requires |m'| == WORDS && Tracks(r, m, held) && 0 <= k < r.pages - 1 && Took(m, m', k)
    ensures PageOf(r, k) !in held && Tracks(r, m', held + {PageOf(r, k)})
  {
    hide IsFree;
  }

  lemma TracksFreed(r: Region, m: seq<nat>, m': seq<nat>, held: set<int>, k: int)
    requires |m'| == WORDS && Tracks(r, m, held) && 0 <= k < r.pages - 1
    requires forall j :: IsFree(m', j) <==> IsFree(m, j) || j == k
    ensures Tracks(r, m', held - {PageOf(r, k)})
  {
    hide IsFree;
  }

  ghost predicate LinkedAt(all: seq<Region>, p: int, stop: int)
    requires 0 <= p < stop <= |all|
    reads all`next
  {
    all[p].next == if p + 1 < stop then all[p + 1] else null
  }

  /** `all[from]`, ..., `all[stop - 1]` are linked through `next`. */
  ghost predicate LinkedFrom(all: seq<Region>, from: int, stop: int)
    reads all`next
  {
    0 <= from < stop <= |all| && forall p :: from <= p < stop ==> LinkedAt(all, p, stop)
  }

  lemma NextIs(all: seq<Region>, from: int, stop: int, p: int)
    requires LinkedFrom(all, from, stop) && from <= p < stop
    ensures all[p].next == if p + 1 < stop then all[p + 1] else null
  {
    assert LinkedAt(all, p, stop);
  }

  /** Where the chain of head `i` ends. */
  ghost function Stop(starts: seq<int>, i: int): int
    requires 0 <= i < |starts| - 1
  {
    starts[i + 1]
  }

  /** The chain of head `i` is the stretch of `all` from `starts[i]` to `starts[i + 1]`. */
  ghost predicate ChainedOn(heads: seq<Region>, starts: seq<int>, all: seq<Region>)
    reads all`next
  {
    && |starts| == |heads| + 1 && starts[0] == 0 && starts[|heads|] == |all|
    && (forall i :: 0 <= i < |heads| ==> 0 <= starts[i] < |all| && heads[i] == all[starts[i]])
    && (forall i :: 0 <= i < |heads| ==> LinkedFrom(all, starts[i], Stop(starts, i)))
  }

  /** Every held page is one that some region hands out. */
  ghost predicate Homed(all: seq<Region>, held: set<int>) {
    forall a :: a in held ==> exists p :: 0 <= p < |all| && Owns(all[p], a)
  }

  lemma HomedMore(all: seq<Region>, held: set<int>, page: int, p: int)
    requires Homed(all, held) && 0 <= p < |all| && Owns(all[p], page)
    ensures Homed(all, held + {page})
  {
  }

  ghost predicate SeparateOn(all: seq<Region>) {
    forall p, q :: 0 <= p < q < |all| ==> all[p] != all[q] && Apart(all[p], all[q])
  }

  const MAX_REGIONS := 10

  predicate RangesApart(a: (int, int), b: (int, int)) {
    a.0 + a.1 <= b.0 || b.0 + b.1 <= a.0
  }

  /** Each head manages what it can of its range, and the ranges share no address. */
  ghost predicate Ranges(heads: seq<Region>) {
    && (forall i :: 0 <= i < |heads| ==>
          heads[i].length >= PAGE * MIN_PAGES && heads[i].pages == Managed(heads[i].length))
    && (forall i, j :: 0 <= i < j < |heads| ==>
          RangesApart((heads[i].base, heads[i].length), (heads[j].base, heads[j].length)))
  }

  /** Heads as the constructor makes them: no chained regions yet. */
  ghost predicate Bare(heads: seq<Region>)
    reads heads`next
  {
    Ranges(heads) && forall i :: 0 <= i < |heads| ==> heads[i].next == null
  }

  ghost predicate Untouched(r: Region)
    reads r`bitmap, r`lastAllocIdx
  {
    r.Valid() && 0 < r.base && AllFree(r)
  }

  lemma UntouchedSound(r: Region)
    requires Untouched(r)
    ensures Sound(r, {})
  {
  }

  lemma IsUntouched(r: Region)
    requires r.Valid() && 0 < r.base && AllFree(r)
    ensures Untouched(r)
  {
  }

  lemma BareRanges(heads: seq<Region>)
    requires Bare(heads)
    ensures Ranges(heads) && forall j :: 0 <= j < |heads| ==> heads[j].next == null
    ensures forall j :: 0 <= j < |heads| ==>
      heads[j].length >= PAGE * MIN_PAGES && heads[j].pages == Managed(heads[j].length)
  {
  }

  lemma NothingBare()
    ensures Bare([])
  {
  }

  lemma BareMore(heads: seq<Region>, r: Region)
    requires Bare(heads) && r.next == null && r.length >= PAGE * MIN_PAGES && r.pages == Managed(r.length)
    requires forall j :: 0 <= j < |heads| ==> RangesApart((heads[j].base, heads[j].length), (r.base, r.length))
    ensures Bare(heads + [r])
  {
  }

  /** Every chain is one region long. */
  ghost function Singly(n: nat): seq<int> {
    seq(n, i => i)
  }

  lemma BareValid(heads: seq<Region>)
    requires Bare(heads) && forall j :: 0 <= j < |heads| ==> Untouched(heads[j])
    ensures ChainedOn(heads, Singly(|heads| + 1), heads) && SeparateOn(heads) && Homed(heads, {})
    ensures forall j :: 0 <= j < |heads| ==> Sound(heads[j], {})
  {
    hide ChainedOn, SeparateOn, Sound, Bare, Ranges, Untouched;
    BareChained(heads);
    BareRanges(heads);
    BareSeparate(heads);
    forall j | 0 <= j < |heads| ensures Sound(heads[j], {}) { UntouchedSound(heads[j]); }
  }

  lemma BareChained(heads: seq<Region>)
    requires Bare(heads)
    ensures ChainedOn(heads, Singly(|heads| + 1), heads)
  {
    var starts := Singly(|heads| + 1);
    forall i | 0 <= i < |heads| ensures LinkedFrom(heads, starts[i], Stop(starts, i)) {
      assert starts[i] == i && starts[i + 1] == i + 1;
    }
  }

  lemma BareSeparate(heads: seq<Region>)
    requires Ranges(heads)
    ensures SeparateOn(heads)
  {
    forall p, q | 0 <= p < q < |heads| ensures heads[p] != heads[q] && Apart(heads[p], heads[q]) {
      assert heads[p].pages * PAGE <= heads[p].length && heads[q].pages * PAGE <= heads[q].length;
    }
  }

  /** The ranges that are large enough. */
  ghost function Usable(ranges: seq<(int, int)>): seq<(int, int)> {
    if ranges == [] then [] else
      var last := ranges[|ranges| - 1];
      Usable(ranges[..|ranges| - 1]) + if CanAllocate(last.1) then [last] else []
  }

  lemma {:induction false} UsablePrefix(ranges: seq<(int, int)>, i: int)
    requires 0 <= i <= |ranges|
    ensures Usable(ranges[..i]) <= Usable(ranges)
    decreases |ranges|
  {
    if i < |ranges| {
      assert ranges[..|ranges| - 1][..i] == ranges[..i];
      UsablePrefix(ranges[..|ranges| - 1], i);
    } else {
      assert ranges[..i] == ranges;
    }
  }

  /** What the source demands of the memory map: few enough ranges, which share no address. */
  ghost predicate Mappable(u: seq<(int, int)>) {
    && 0 < |u| <= MAX_REGIONS && (forall i :: 0 <= i < |u| ==> 0 < u[i].0)
    && forall i, j :: 0 <= i < j < |u| ==> RangesApart(u[i], u[j])
  }

  /** One region for each of the ranges, in order. */
  ghost predicate MadeOf(heads: seq<Region>, u: seq<(int, int)>) {
    |heads| == |u| && forall j :: 0 <= j < |heads| ==> heads[j].base == u[j].0 && heads[j].length == u[j].1
  }

  /** A region for each range that is large enough. */
  method MakeHeads(ranges: seq<(int, int)>) returns (heads: seq<Region>)
    requires Mappable(Usable(ranges))
    ensures fresh(heads) && Bare(heads) && forall j :: 0 <= j < |heads| ==> Untouched(heads[j])
    ensures MadeOf(heads, Usable(ranges))
  {
    hide Bare, Untouched, RangesApart;
    heads := [];
    NothingBare();
    for i := 0 to |ranges|
      invariant fresh(heads) && Bare(heads) && forall j :: 0 <= j < |heads| ==> Untouched(heads[j])
      invariant MadeOf(heads, Usable(ranges[..i]))
    {
      assert ranges[..i + 1][..i] == ranges[..i];
      UsablePrefix(ranges, i + 1);
      if CanAllocate(ranges[i].1) {
        ghost var u := Usable(ranges[..i + 1]);
        assert u[|heads|] == ranges[i];
        forall j | 0 <= j < |heads| ensures RangesApart((heads[j].base, heads[j].length), ranges[i]) {
          assert u[j] == (heads[j].base, heads[j].length);
          assert RangesApart(Usable(ranges)[j], Usable(ranges)[|heads|]);
        }
        var region := new Region(ranges[i].0, ranges[i].1);
        IsUntouched(region);
        BareMore(heads, region);
        heads := heads + [region];
      }
    }
    assert ranges[..|ranges|] == ranges;
  }

  // ---------------------------------------------------------------- building the chains

  /** The region lies inside the range of the head. */
  predicate Within(r: Region, head: Region) {
    head.base <= r.base && r.base + r.pages * PAGE <= head.base + head.length
  }

  ghost predicate Housed(r: Region, heads: seq<Region>, n: int)
    requires n <= |heads|
  {
    exists j :: 0 <= j < n && Within(r, heads[j])
  }

  lemma HousedMore(r: Region, heads: seq<Region>, n: int)
    requires 0 <= n < |heads| && (Housed(r, heads, n) || Within(r, heads[n]))
    ensures Housed(r, heads, n + 1)
  {
    if Housed(r, heads, n) {
      var j :| 0 <= j < n && Within(r, heads[j]);
      assert 0 <= j < n + 1;
    }
  }

  /** The chains of the first `n` heads. */
  ghost predicate Built(heads: seq<Region>, n: int, starts: seq<int>, all: seq<Region>, held: set<int>)
    reads all
  {
    && 0 <= n <= |heads| && ChainedOn(heads[..n], starts, all) && SeparateOn(all)
    && (forall p :: 0 <= p < |all| ==> Sound(all[p], held))
    && (forall p :: 0 <= p < |all| ==> Housed(all[p], heads, n))
    && (forall j :: 0 <= j < n ==> heads[j] in all)
  }

  /** All but at most four pages of the range of the head is managed by the chain that ends at
      `stop`. */
  ghost predicate Covered(head: Region, all: seq<Region>, stop: int) {
    0 < stop <= |all| && head.base + head.length - EndOf(all[..stop]) <= PAGE * MIN_PAGES
  }

  lemma CoveredMore(heads: seq<Region>, i: int, starts: seq<int>, all: seq<Region>, chain: seq<Region>)
    requires 0 <= i < |heads| && |starts| == i + 1 && |chain| >= 1
    requires forall j :: 0 <= j < i ==> Covered(heads[j], all, Stop(starts, j))
    requires heads[i].base + heads[i].length - EndOf(chain) <= PAGE * MIN_PAGES
    ensures forall j :: 0 <= j < i + 1 ==> Covered(heads[j], all + chain, Stop(starts + [|all| + |chain|], j))
  {
    var starts', s := starts + [|all| + |chain|], all + chain;
    forall j | 0 <= j < i + 1 ensures Covered(heads[j], s, Stop(starts', j)) {
      if j < i {
        var stop := Stop(starts, j);
        assert Stop(starts', j) == stop && Covered(heads[j], all, stop);
        assert s[..stop] == all[..stop];
      } else {
        assert s[..|s|] == s && s[|s| - 1] == chain[|chain| - 1];
      }
    }
  }

  lemma BareDistinct(heads: seq<Region>)
    requires Ranges(heads)
    ensures forall i, j :: 0 <= i < j < |heads| ==> heads[i] != heads[j]
  {
  }

  lemma BuiltNone(heads: seq<Region>, held: set<int>)
    ensures Built(heads, 0, [0], [], held)
  {
  }

  lemma SoundValid(r: Region, held: set<int>)
    requires Sound(r, held)
    ensures r.Valid()
  {
  }

  /** Regions one after the other are in order and apart. */
  lemma {:induction false} ConsecutiveOrder(chain: seq<Region>, p: int, q: int)
    requires Consecutive(chain) && 0 <= p < q < |chain| && forall i :: 0 <= i < |chain| ==> chain[i].pages >= 1
    ensures chain[p].base + chain[p].pages * PAGE <= chain[q].base
    decreases q
  {
    if p < q - 1 { ConsecutiveOrder(chain, p, q - 1); }
  }

  /** A new region behind the head of a chain holds no page yet. */
  lemma ChildSound(heads: seq<Region>, i: int, r: Region, held: set<int>)
    requires Ranges(heads) && 0 <= i < |heads| && Homed(heads, held) && 0 < heads[i].base
    requires r.Valid() && AllFree(r) && Within(r, heads[i]) && heads[i].base + heads[i].pages * PAGE <= r.base
    ensures Sound(r, held)
  {
    hide IsFree;
    forall k | 0 <= k < r.pages - 1 ensures PageOf(r, k) !in held {
      OwnsPage(r, k);
      if PageOf(r, k) in held {
        var j :| 0 <= j < |heads| && Owns(heads[j], PageOf(r, k));
        OwnsInside(heads[j], PageOf(r, k));
        NotElsewhere(heads, i, j, r, PageOf(r, k));
      }
    }
  }

  lemma NotElsewhere(heads: seq<Region>, i: int, j: int, r: Region, address: int)
    requires Ranges(heads) && 0 <= i < |heads| && 0 <= j < |heads| && Within(r, heads[i])
    requires heads[i].base + heads[i].pages * PAGE <= r.base && r.CheckAddress(address)
    ensures !heads[j].CheckAddress(address)
  {
    assert heads[j].pages * PAGE <= heads[j].length;
    if i < j {
      assert RangesApart((heads[i].base, heads[i].length), (heads[j].base, heads[j].length));
    } else if j < i {
      assert RangesApart((heads[j].base, heads[j].length), (heads[i].base, heads[i].length));
    }
  }

  /** The chain that `initNextIfNeeded` builds. */
  ghost predicate IsChain(head: Region, chain: seq<Region>)
    reads chain
  {
    && |chain| >= 1 && chain[0] == head && Linked(chain) && Consecutive(chain)
    && (forall l :: 1 <= l < |chain| ==> Ready(chain[l]))
    && EndOf(chain) <= head.base + head.length
  }

  lemma ChainSound(heads: seq<Region>, i: int, chain: seq<Region>, held: set<int>)
    requires Ranges(heads) && 0 <= i < |heads| && Homed(heads, held)
    requires Sound(heads[i], held) && IsChain(heads[i], chain)
    ensures forall l :: 0 <= l < |chain| ==> Sound(chain[l], held) && Within(chain[l], heads[i])
    ensures SeparateOn(chain)
  {
    hide IsFree, Tracks, Linked;
    forall l | 0 <= l < |chain| ensures Sound(chain[l], held) && Within(chain[l], heads[i]) {
      if l < |chain| - 1 { ConsecutiveOrder(chain, l, |chain| - 1); }
      if l > 0 {
        ConsecutiveOrder(chain, 0, l);
        ChildSound(heads, i, chain[l], held);
      }
    }
    forall p, q | 0 <= p < q < |chain| ensures chain[p] != chain[q] && Apart(chain[p], chain[q]) {
      ConsecutiveOrder(chain, p, q);
    }
  }

  /** Chains of different heads stay in different ranges. */
  lemma SeparateMore(heads: seq<Region>, i: int, all: seq<Region>, chain: seq<Region>)
    requires Ranges(heads) && 0 <= i < |heads| && SeparateOn(all) && SeparateOn(chain)
    requires forall p :: 0 <= p < |all| ==> all[p].pages >= 1 && Housed(all[p], heads, i)
    requires forall l :: 0 <= l < |chain| ==> chain[l].pages >= 1 && Within(chain[l], heads[i])
    ensures SeparateOn(all + chain)
  {
    var s := all + chain;
    forall p, l | 0 <= p < |all| && 0 <= l < |chain| ensures all[p] != chain[l] && Apart(all[p], chain[l]) {
      assert Housed(all[p], heads, i);
      var j :| 0 <= j < i && Within(all[p], heads[j]);
      assert RangesApart((heads[j].base, heads[j].length), (heads[i].base, heads[i].length));
    }
    forall p, q | 0 <= p < q < |s| ensures s[p] != s[q] && Apart(s[p], s[q]) {
      if p >= |all| { assert s[p] == chain[p - |all|]; }
      if q >= |all| { assert s[q] == chain[q - |all|]; }
    }
  }

  /** One more chain at the end. */
  lemma ChainedMore(heads: seq<Region>, i: int, starts: seq<int>, all: seq<Region>, chain: seq<Region>)
    requires 0 <= i < |heads| && ChainedOn(heads[..i], starts, all)
    requires |chain| >= 1 && chain[0] == heads[i] && Linked(chain)
    ensures ChainedOn(heads[..i + 1], starts + [|all| + |chain|], all + chain)
  {
    var starts', all' := starts + [|all| + |chain|], all + chain;
    forall j | 0 <= j < i + 1
      ensures 0 <= starts'[j] < |all'| && heads[j] == all'[starts'[j]]
      ensures LinkedFrom(all', starts'[j], Stop(starts', j))
    {
      if j < i {
        assert heads[..i][j] == heads[j] && LinkedFrom(all, starts[j], Stop(starts, j));
        assert Stop(starts', j) == Stop(starts, j);
        LinkedKeeps(all, chain, starts[j], Stop(starts, j));
      } else {
        LinkedTail(all, chain);
      }
    }
  }

  lemma LinkedKeeps(all: seq<Region>, chain: seq<Region>, from: int, stop: int)
    requires LinkedFrom(all, from, stop)
    ensures LinkedFrom(all + chain, from, stop)
  {
    var s := all + chain;
    forall p | from <= p < stop ensures LinkedAt(s, p, stop) {
      NextIs(all, from, stop, p);
      assert s[p] == all[p] && (p + 1 < stop ==> s[p + 1] == all[p + 1]);
    }
  }

  lemma LinkedTail(all: seq<Region>, chain: seq<Region>)
    requires |chain| >= 1 && Linked(chain)
    ensures LinkedFrom(all + chain, |all|, |all| + |chain|)
  {
    var s := all + chain;
    forall p | |all| <= p < |s| ensures LinkedAt(s, p, |s|) {
      var l := p - |all|;
      assert chain[l].next == if l + 1 < |chain| then chain[l + 1] else null;
      assert s[p] == chain[l] && (p + 1 < |s| ==> s[p + 1] == chain[l + 1]);
    }
  }

  lemma BuiltMore(heads: seq<Region>, i: int, starts: seq<int>, all: seq<Region>, held: set<int>, chain: seq<Region>)
    requires Ranges(heads) && 0 <= i < |heads| && Built(heads, i, starts, all, held)
    requires |chain| >= 1 && chain[0] == heads[i] && Linked(chain) && SeparateOn(chain)
    requires forall l :: 0 <= l < |chain| ==> Sound(chain[l], held) && Within(chain[l], heads[i])
    ensures Built(heads, i + 1, starts + [|all| + |chain|], all + chain, held)
  {
    hide Sound, Within, Housed, LinkedFrom, Linked, SeparateOn, ChainedOn, Ranges;
    var s := all + chain;
    ChainedMore(heads, i, starts, all, chain);
    forall p | 0 <= p < |all| ensures all[p].pages >= 1 { SoundValid(all[p], held); }
    forall l | 0 <= l < |chain| ensures chain[l].pages >= 1 { SoundValid(chain[l], held); }
    SeparateMore(heads, i, all, chain);
    forall p | 0 <= p < |s| ensures Sound(s[p], held) && Housed(s[p], heads, i + 1) {
      assert p >= |all| ==> s[p] == chain[p - |all|];
      HousedMore(s[p], heads, i);
    }
    forall j | 0 <= j < i + 1 ensures heads[j] in s {
      assert s[|all|] == heads[i];
    }
  }

  lemma BuiltAll(heads: seq<Region>, starts: seq<int>, all: seq<Region>, held: set<int>)
    requires Built(heads, |heads|, starts, all, held) && Homed(heads, held)
    ensures ChainedOn(heads, starts, all) && SeparateOn(all) && Homed(all, held)
    ensures forall p :: 0 <= p < |all| ==> Sound(all[p], held)
  {
    hide Sound, Within, Housed, SeparateOn, ChainedOn, Owns;
    assert heads[..|heads|] == heads;
    forall a | a in held ensures exists p :: 0 <= p < |all| && Owns(all[p], a) {
      var j :| 0 <= j < |heads| && Owns(heads[j], a);
      var p :| 0 <= p < |all| && all[p] == heads[j];
      assert Owns(all[p], a);
    }
  }

  class PhysicalAllocator {
    var heads: seq<Region>
    var allocatedPages: int
    ghost var all: seq<Region>
    ghost var starts: seq<int>
    ghost var held: set<int>

    ghost predicate Chained()
      reads this`heads, this`starts, this`all, all`next
    {
      ChainedOn(heads, starts, all)
    }

    ghost predicate Separate()
      reads this`all
    {
      SeparateOn(all)
    }

    /** Every held page belongs to a region, which has its bit clear. */
    ghost predicate Booked()
      reads this`all, this`held, all`bitmap, all`lastAllocIdx
    {
      && Separate()
      && (forall p :: 0 <= p < |all| ==> Sound(all[p], held))
      && Homed(all, held)
    }

    /** The counter counts the held pages as well. */
    ghost predicate Tracked()
      reads this, all
    {
      Booked() && allocatedPages == |held|
    }

    ghost predicate Valid()
      reads this, all
    {
      Chained() && Tracked()
    }

    /** The bitmaps of all regions. */
    ghost function Bitmaps(): seq<seq<nat>>
      reads this, all
    {
      seq(|all|, i requires 0 <= i < |all| reads this, all => all[i].bitmap)
    }

    /** One region is asked for a page. */
    method TryRegion(region: Region, ghost p: int) returns (page: int)
      requires Valid() && 0 <= p < |all| && all[p] == region
      modifies this`allocatedPages, this`held, region`bitmap, region`lastAllocIdx
      ensures Valid()
      ensures page == 0 <==> Exhausted(old(region.bitmap))
      ensures page == 0 ==> held == old(held) && region.bitmap == old(region.bitmap)
      ensures page != 0 ==> page !in old(held) && held == old(held) + {page} && Owns(region, page)
    {
      hide IsFree, Exhausted, Took, Chained, Homed, Tracks;
      ghost var k;
      ghost var was := held;
      page, k := region.Alloc();
      if page != 0 {
        allocatedPages := allocatedPages + 1;
        held := held + {page};
        OwnsPage(region, k);
        TracksTaken(region, old(region.bitmap), region.bitmap, was, k);
        HomedMore(all, was, page, p);
        OthersSound(was, page, p);
      }
    }

    /** Holding one page more, or one less, of region `p` keeps the others sound. */
    lemma OthersSound(was: set<int>, page: int, p: int)
      requires Separate() && 0 <= p < |all| && all[p].CheckAddress(page)
      requires held == was + {page} || held == was - {page}
      requires forall q :: 0 <= q < |all| && q != p ==> Sound(all[q], was)
      ensures forall q :: 0 <= q < |all| && q != p ==> Sound(all[q], held)
    {
      hide Tracks;
      forall q | 0 <= q < |all| && q != p ensures Sound(all[q], held) {
        assert Sound(all[q], was);
        TracksOther(all[p], all[q], all[q].bitmap, was, held, page);
      }
    }

    /** The inner loop of `allocPage`: one head and the regions chained to it. */
    method TryChain(head: Region, ghost from: int, ghost stop: int) returns (page: int)
      requires Valid() && LinkedFrom(all, from, stop) && all[from] == head
      modifies this`allocatedPages, this`held, all`bitmap, all`lastAllocIdx
      ensures Valid()
      ensures page == 0 ==> held == old(held) && Bitmaps() == old(Bitmaps())
      ensures page == 0 ==> forall p :: from <= p < stop ==> Exhausted(old(Bitmaps())[p])
      ensures page != 0 ==> page !in old(held) && held == old(held) + {page}
      ensures page != 0 ==> exists p :: from <= p < stop && Owns(all[p], page) && !Exhausted(old(Bitmaps())[p])
    {
      hide Tracked, Exhausted, Owns, Chained;
      var region: Region? := head;
      ghost var p, maps := from, Bitmaps();
      while region != null
        invariant Valid() && from <= p <= stop && LinkedFrom(all, from, stop) && held == old(held) && Bitmaps() == maps
        invariant region == if p < stop then all[p] else null
        invariant forall q :: from <= q < p ==> Exhausted(maps[q])
        decreases stop - p
      {
        assert maps[p] == region.bitmap;
        page := TryRegion(region, p);
        if page != 0 {
          return;
        }
        NextIs(all, from, stop, p);
        region := region.next;
        p := p + 1;
      }
      page := 0;
    }

    /** `allocPage`: some page nobody holds, or 0 when every region is exhausted. */
    method AllocPage() returns (page: int)
      requires Valid()
      modifies this`allocatedPages, this`held, all`bitmap, all`lastAllocIdx
      ensures Valid()
      ensures page == 0 <==> forall p :: 0 <= p < |all| ==> Exhausted(old(Bitmaps())[p])
      ensures page == 0 ==> held == old(held)
      ensures page != 0 ==> page !in old(held) && held == old(held) + {page}
      ensures page != 0 ==> exists p :: 0 <= p < |all| && Owns(all[p], page)
    {
      hide Tracked, Exhausted, Owns, LinkedFrom;
      ghost var maps := Bitmaps();
      for i := 0 to |heads|
        invariant Valid() && held == old(held) && Bitmaps() == maps
        invariant 0 <= starts[i] <= |all| && forall q :: 0 <= q < starts[i] ==> Exhausted(maps[q])
      {
        LinkedRange(starts[i], Stop(starts, i));
        page := TryChain(heads[i], starts[i], Stop(starts, i));
        if page != 0 {
          return;
        }
      }
      page := 0;
    }

    /** The inner loop of `freePage`: gives the page back to the first region that contains it. */
    method FreeInChain(head: Region, address: int, ghost from: int, ghost stop: int)
      returns (r: FreeResult, ghost p: int)
      requires Valid() && LinkedFrom(all, from, stop) && all[from] == head
      modifies this`allocatedPages, this`held, all`bitmap
      ensures r == NoRegion ==> forall q :: from <= q < stop ==> !all[q].CheckAddress(address)
      ensures r != NoRegion ==> from <= p < stop && Answers(all[p], address, r)
      ensures r != Freed ==> Valid() && held == old(held)
      ensures r == Freed ==> Chained() && Booked() && held == old(held) - {PageAt(all[p], address)}
      ensures r == Freed ==> (Valid() <==> PageAt(all[p], address) in old(held))
    {
      hide Tracked, Booked, Owns, Chained;
      var region: Region? := head;
      p := from;
      while region != null
        invariant Valid() && from <= p <= stop && LinkedFrom(all, from, stop) && held == old(held)
        invariant region == if p < stop then all[p] else null
        invariant forall q :: from <= q < p ==> !all[q].CheckAddress(address)
        decreases stop - p
      {
        if region.CheckAddress(address) {
          r := FreeIn(region, address, p);
          return;
        }
        NextIs(all, from, stop, p);
        region := region.next;
        p := p + 1;
      }
      r := NoRegion;
    }

    /** The region that contains the address takes its page back, and the counter goes down whether
        the page was held or not. */
    method FreeIn(region: Region, address: int, ghost p: int) returns (r: FreeResult)
      requires Valid() && 0 <= p < |all| && all[p] == region && region.CheckAddress(address)
      modifies this`allocatedPages, this`held, region`bitmap
      ensures Answers(region, address, r)
      ensures r != Freed ==> Valid() && held == old(held)
      ensures r == Freed ==> Chained() && Booked() && held == old(held) - {PageAt(region, address)}
      ensures r == Freed ==> (Valid() <==> PageAt(region, address) in old(held))
    {
      hide IsFree, Chained, Tracks;
      ghost var was, k := held, (address - region.base) / PAGE;
      var ok := region.Free(address);
      if !ok {
        return Invalid;
      }
      allocatedPages := if allocatedPages == 0 then WORD - 1 else allocatedPages - 1;
      TracksFreed(region, old(region.bitmap), region.bitmap, was, k);
      OwnsPage(region, k);
      held := held - {PageOf(region, k)};
      OthersSound(was, PageOf(region, k), p);
      r := Freed;
    }

    /** A held page lies in a region, as one of the pages that it hands out. */
    lemma Located(address: int) returns (p: int)
      requires Booked() && address in held
      ensures 0 <= p < |all| && all[p].CheckAddress(address) && Owns(all[p], address)
      ensures forall q :: 0 <= q < |all| && q != p ==> !all[q].CheckAddress(address)
    {
      p :| 0 <= p < |all| && Owns(all[p], address);
      OwnsInside(all[p], address);
      Alone(address, p);
    }

    lemma Alone(address: int, p: int)
      requires Separate() && 0 <= p < |all| && all[p].CheckAddress(address)
      ensures forall q :: 0 <= q < |all| && q != p ==> !all[q].CheckAddress(address)
    {
      forall q | 0 <= q < |all| && q != p ensures !all[q].CheckAddress(address) {
        OneRegion(all[p], all[q], address);
      }
    }

    /** `freePage` of any address. A page that is not held keeps the regions right, but not the
        counter: the allocator stays valid exactly when the page was held. */
    method FreePage(address: int) returns (r: FreeResult, ghost p: int)
      requires Valid()
      modifies this`allocatedPages, this`held, all`bitmap
      ensures r == NoRegion <==> forall q :: 0 <= q < |all| ==> !all[q].CheckAddress(address)
      ensures r != NoRegion ==> 0 <= p < |all| && Answers(all[p], address, r)
      ensures r != NoRegion ==> forall q :: 0 <= q < |all| && q != p ==> !all[q].CheckAddress(address)
      ensures r != Freed ==> Valid() && held == old(held)
      ensures r == Freed ==> Chained() && Booked() && held == old(held) - {PageAt(all[p], address)}
      ensures r == Freed ==> (Valid() <==> PageAt(all[p], address) in old(held))
      ensures address in old(held) ==> r == Freed && PageAt(all[p], address) == address
    {
      hide Tracked, Booked, LinkedFrom, Owns, Answers, PageAt, Separate, Chained;
      ghost var owner := -1;
      if address in held { owner := HeldAt(address); }
      p := 0;
      Apartness();
      StartsCover();
      for i := 0 to |heads|
        invariant Valid() && held == old(held) && 0 <= starts[i] <= |all|
        invariant forall q :: 0 <= q < starts[i] ==> !all[q].CheckAddress(address)
      {
        LinkedRange(starts[i], Stop(starts, i));
        r, p := FreeInChain(heads[i], address, starts[i], Stop(starts, i));
        if r != NoRegion {
          Contained(all[p], address, r);
          Alone(address, p);
          return;
        }
      }
      r := NoRegion;
    }

    lemma Apartness()
      requires Valid()
      ensures Separate()
    {
    }

    /** The chains follow one another through all regions. */
    lemma StartsCover()
      requires Valid()
      ensures |starts| == |heads| + 1 && starts[0] == 0 && starts[|heads|] == |all|
      ensures forall i :: 0 <= i < |heads| ==>
        LinkedFrom(all, starts[i], Stop(starts, i)) && all[starts[i]] == heads[i] && Stop(starts, i) == starts[i + 1]
    {
      hide Tracked, Booked;
    }

    /** Freeing a held page is freeing exactly that page. */
    lemma HeldAt(address: int) returns (p: int)
      requires Valid() && address in held
      ensures 0 <= p < |all| && all[p].CheckAddress(address) && PageAt(all[p], address) == address
      ensures forall q :: 0 <= q < |all| && q != p ==> !all[q].CheckAddress(address)
      ensures forall r :: Answers(all[p], address, r) ==> r == Freed
    {
      p := Located(address);
    }

    // ---------------------------------------------------------------- setting up

    /** One region for each range that is large enough. */
    constructor (ranges: seq<(int, int)>)
      requires Mappable(Usable(ranges))
      ensures Valid() && held == {} && all == heads && Bare(heads) && fresh(heads) && MadeOf(heads, Usable(ranges))
    {
      hide ChainedOn, SeparateOn, Sound, Bare, Untouched, Homed, Singly, RangesApart;
      heads, allocatedPages, all, starts, held := [], 0, [], [0], {};
      new;
      heads := MakeHeads(ranges);
      all := heads;
      starts := Singly(|heads| + 1);
      BareValid(heads);
    }

    /** `notifyRegionsVm`: every head appends regions for the rest of its range. Pages that are held
        already stay held, and at most four pages of each range stay out of use. */
    method NotifyVm()
      requires Valid() && all == heads && Bare(heads)
      modifies this`all, this`starts, heads`next
      ensures Valid() && heads == old(heads) && held == old(held)
      ensures forall i :: 0 <= i < |heads| ==> Covered(heads[i], all, Stop(starts, i))
    {
      hide ChainedOn, SeparateOn, Sound, Homed, Built, Linked, Consecutive, EndOf, Covered, Valid, Tracked, Booked;
      Unfold();
      BareDistinct(heads);
      ghost var newAll: seq<Region>, newStarts := [], [0];
      BuiltNone(heads, held);
      for i := 0 to |heads|
        invariant heads == old(heads) && held == old(held) && all == heads && allocatedPages == old(allocatedPages)
        invariant Built(heads, i, newStarts, newAll, held) && |newStarts| == i + 1
        invariant forall j :: i <= j < |heads| ==> heads[j] !in newAll && heads[j].next == null
        invariant forall p :: 0 <= p < |newAll| ==> newAll[p] in heads || fresh(newAll[p])
        invariant forall j :: 0 <= j < |heads| ==> Sound(heads[j], held)
        invariant forall j :: 0 <= j < i ==> Covered(heads[j], newAll, Stop(newStarts, j))
      {
        SoundValid(heads[i], held);
        ghost var chain := heads[i].InitNext();
        ChainSound(heads, i, chain, held);
        BuiltMore(heads, i, newStarts, newAll, held, chain);
        CoveredMore(heads, i, newStarts, newAll, chain);
        newStarts := newStarts + [|newAll| + |chain|];
        newAll := newAll + chain;
      }
      BuiltAll(heads, newStarts, newAll, held);
      all, starts := newAll, newStarts;
      Fold();
    }

    lemma Unfold()
      requires Valid()
      ensures allocatedPages == |held| && Homed(all, held) && forall p :: 0 <= p < |all| ==> Sound(all[p], held)
    {
    }

    lemma Fold()
      requires ChainedOn(heads, starts, all) && SeparateOn(all) && Homed(all, held) && allocatedPages == |held|
      requires forall p :: 0 <= p < |all| ==> Sound(all[p], held)
      ensures Valid()
    {
    }

    lemma LinkedRange(from: int, stop: int)
      requires LinkedFrom(all, from, stop)
      ensures 0 <= from < stop <= |all|
    {
    }
  }
}
