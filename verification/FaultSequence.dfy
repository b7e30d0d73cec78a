/** Which pages a run of page faults brings into an object: the fault sequence detector seen from outside. */
module FaultSequence {
  import opened Bits
  import opened TreeShape
  import opened TreeOrder
  import opened RedBlackTheory
  import opened MapEntry

  /** How many pages the `k`-th fault of a run brings in ahead: none for the first two, then one more each
      time, up to 64. The counting goes on from `f`, what earlier runs have left behind. */
  function Lead(f: nat, k: nat): (n: nat)
    ensures n <= MAX_PREFAULT
  {
    if k < 2 then 0 else if f + k - 1 < MAX_PREFAULT then f + k - 1 else MAX_PREFAULT
  }

  /** The page of the `k`-th fault of a run from page `p` on: a stride of `d` behind the last page that the
      fault before brought in. */
  function Place(p: nat, d: nat, f: nat, k: nat): nat {
    if k == 0 then p else Place(p, d, f, k - 1) + Lead(f, k - 1) + d
  }

  /** The detector after `k` faults of such a run. */
  predicate Tracking(q: Sequence, p: nat, d: nat, f: nat, k: nat) {
    if k == 0 then q.state.Idle? && q.faults == f
    else if k == 1 then q.state.Detect1? && q.lastOffset == p && q.faults == f
    else q.state.Detect2? && q.lastOffset == Place(p, d, f, k) - d && q.lastStride == d && q.faults == f + k - 2
  }

  /** The next fault of the run brings in the lead; the run goes on unless that passes the end of the
      object. */
  lemma TrackStep(q: Sequence, p: nat, d: nat, f: nat, k: nat, offset: int, length: int)
    requires Tracking(q, p, d, f, k) && d > 0 && f + k < WORD && 0 <= offset < length < WORD
    requires offset / PAGE == Place(p, d, f, k)
    ensures 0 <= q.faults < WORD && Wanted(q, offset / PAGE) == Lead(f, k)
    ensures var q' := NextSequence(q, offset / PAGE, offset, length);
      if InBounds(offset, length, Lead(f, k)) == Lead(f, k) then Tracking(q', p, d, f, k + 1)
      else q'.state.Idle? && q'.faults == 0
  {
    hide InBounds, AheadOffset;
    if k >= 2 {
      var n := Place(p, d, f, k) + Lead(f, k);
      ModUnique(q.faults + 1, WORD, 0, q.faults + 1);
      PageSmall(offset);
      ModUnique(n, WORD, 0, n);
    }
  }

  lemma PageSmall(offset: int)
    requires 0 <= offset < WORD
    ensures offset / PAGE + MAX_PREFAULT < WORD
  {
  }

  /** A fault off the run brings in nothing ahead and stops the detection; only one that goes forward
      with another stride also restarts the counting. */
  lemma OffRunStep(q: Sequence, p: nat, d: nat, f: nat, k: nat, offset: int, length: int)
    requires Tracking(q, p, d, f, k) && d > 0 && f + k < WORD && 0 <= offset < length < WORD
    requires if k >= 2 then offset / PAGE != Place(p, d, f, k) else k == 1 && offset / PAGE <= p
    ensures 0 <= q.faults < WORD && Wanted(q, offset / PAGE) == 0
    ensures var q' := NextSequence(q, offset / PAGE, offset, length);
      q'.state.Idle? && q'.faults == if k >= 2 && offset / PAGE > Place(p, d, f, k) - d then 0 else q.faults
  {
  }

  /** For an object that ends well below 2^64 the pages ahead are the next ones, as far as the object
      goes. */
  lemma AheadInterval(offset: int, length: int, n: nat, k: int)
    requires 0 <= offset < length < WORD && n <= MAX_PREFAULT && offset + n * PAGE < WORD
    ensures Ahead(k, offset, InBounds(offset, length, n)) <==>
      0 < k - offset / PAGE <= n && offset + (k - offset / PAGE) * PAGE < length
  {
    var done := InBounds(offset, length, n);
    forall i | 0 <= i < n
      ensures AheadOffset(offset, i) == offset + (i + 1) * PAGE
      ensures AheadOffset(offset, i) / PAGE == offset / PAGE + i + 1
    {
      AheadValue(offset, i);
    }
    if Ahead(k, offset, done) {
      var i :| 0 <= i < done && k == AheadOffset(offset, i) / PAGE;
      assert i == k - offset / PAGE - 1;
    }
    if 0 < k - offset / PAGE <= n && offset + (k - offset / PAGE) * PAGE < length {
      var i := k - offset / PAGE - 1;
      assert AheadOffset(offset, i) < length;
      assert done < n ==> AheadOffset(offset, done) >= length;
      assert i < done;
    }
  }

  /** Places lie ahead of everything brought in before. */
  lemma {:induction false} PlacesGrow(p: nat, d: nat, f: nat, j: nat, k: nat)
    requires j < k && d > 0
    ensures Place(p, d, f, j) + Lead(f, j) < Place(p, d, f, k)
    decreases k
  {
    if j < k - 1 { PlacesGrow(p, d, f, j, k - 1); }
  }

  /** What one fault of the run does to the pages of the object. */
  ghost predicate Brought(s: seq<Entry<int>>, s': seq<Entry<int>>, offset: int, length: int, n: nat) {
    forall k :: HasKey(s', k) <==> HasKey(s, k) || k == offset / PAGE || Ahead(k, offset, InBounds(offset, length, n))
  }

  /** The offsets fault on the pages of a run, and all but the last lead stay inside the object. */
  ghost predicate OnRun(offsets: seq<int>, p: nat, d: nat, f: nat, length: int) {
    && (forall k :: 0 <= k < |offsets| ==> 0 <= offsets[k] < length && offsets[k] / PAGE == Place(p, d, f, k))
    && (forall k :: 0 <= k < |offsets| - 1 ==> InBounds(offsets[k], length, Lead(f, k)) == Lead(f, k))
  }

  /** Pages that lie ahead of the run so far are as they were. */
  lemma StillMissing(s: seq<Entry<int>>, s': seq<Entry<int>>, offsets: seq<int>, k: nat, j: nat, length: int,
                     p: nat, d: nat, f: nat)
    requires OnRun(offsets, p, d, f, length) && k < j < |offsets| && d > 0 && length <= WORD - MAX_PREFAULT * PAGE
    requires Brought(s, s', offsets[k], length, Lead(f, k)) && !HasKey(s, Place(p, d, f, j))
    ensures !HasKey(s', Place(p, d, f, j))
  {
    hide InBounds, Ahead, Lead;
    PlacesGrow(p, d, f, k, j);
    AheadInterval(offsets[k], length, Lead(f, k), Place(p, d, f, j));
  }

  /** The detector after the `k`-th fault: it goes on, or the lead was cut at the end of the object. */
  ghost predicate Follows(q: Sequence, offset: int, length: int, p: nat, d: nat, f: nat, k: nat) {
    if InBounds(offset, length, Lead(f, k)) == Lead(f, k) then Tracking(q, p, d, f, k + 1)
    else q.state.Idle? && q.faults == 0
  }

  lemma SupplyLeft(v: Moment, v': Moment, base: int, n: int)
    requires Grew(v, v', base, n)
    ensures |v.supply| - n <= |v'.supply|
  {
    assert |multiset(Pages(v.pages)) + multiset(v.supply)| == |v.pages| + |v.supply|;
    assert |multiset(Pages(v'.pages)) + multiset(v'.supply)| == |v'.pages| + |v'.supply|;
  }

  /** The `k`-th fault of a run. */
  method Fault(e: MapEntry, base: int, offset: int, pager: Pager,
               ghost p: nat, ghost d: nat, ghost f: nat, ghost k: nat)
    returns (ok: bool)
    requires e.Valid() && e.isAnon && 0 <= offset < e.length && offset / PAGE == Place(p, d, f, k)
    requires Tracking(e.sequence, p, d, f, k) && d > 0 && f + k < WORD
    requires !HasKey(e.pages.Contents(), Place(p, d, f, k))
    modifies e`sequence, pager, e.pages.bst, e.pages.bst.mem.Keys
    ensures 1 + MAX_PREFAULT <= |old(pager.supply)| ==> ok
    ensures ok ==> e.Valid() && Brought(old(e.pages.Contents()), e.pages.Contents(), offset, e.length, Lead(f, k))
    ensures ok ==> Follows(e.sequence, offset, e.length, p, d, f, k)
    ensures ok ==> |old(pager.supply)| - (1 + MAX_PREFAULT) <= |pager.supply|
    ensures ok ==> fresh(e.pages.bst.mem.Keys - old(e.pages.bst.mem.Keys))
  {
    hide Snapshot, HoldsZip, DistinctZip, Entries, Sorted, RedBlack, Inside, HasKey, Ahead, NextSequence, InBounds,
      Tracking, Grew, Shown, Lead, Place, Missing, Wanted;
    TrackStep(e.sequence, p, d, f, k, offset, e.length);
    var r := e.HandlePagefault(base, offset, false, pager);
    ok := r == Handled;
    if ok { SupplyLeft(old(e.At(pager)), e.At(pager), base, 1 + MAX_PREFAULT); }
  }

  lemma LaterMissing(s: seq<Entry<int>>, s': seq<Entry<int>>, offsets: seq<int>, k: nat, length: int,
                     p: nat, d: nat, f: nat)
    requires OnRun(offsets, p, d, f, length) && k < |offsets| && d > 0 && length <= WORD - MAX_PREFAULT * PAGE
    requires Brought(s, s', offsets[k], length, Lead(f, k)) && NoneAt(s, k, |offsets|, p, d, f)
    ensures NoneAt(s', k + 1, |offsets|, p, d, f)
  {
    hide Brought, HasKey, OnRun, Lead;
    forall j | k + 1 <= j < |offsets| ensures !HasKey(s', Place(p, d, f, j)) {
      StillMissing(s, s', offsets, k, j, length, p, d, f);
    }
  }

  /** The object owns none of the pages of the run from the `k`-th fault on. */
  ghost predicate NoneAt(s: seq<Entry<int>>, k: nat, n: nat, p: nat, d: nat, f: nat) {
    forall j: nat :: k <= j < n ==> !HasKey(s, Place(p, d, f, j))
  }

  lemma OnRunAt(offsets: seq<int>, k: nat, p: nat, d: nat, f: nat, length: int)
    requires OnRun(offsets, p, d, f, length) && k < |offsets|
    ensures 0 <= offsets[k] < length && offsets[k] / PAGE == Place(p, d, f, k)
    ensures k < |offsets| - 1 ==> InBounds(offsets[k], length, Lead(f, k)) == Lead(f, k)
  {
  }

  /** Faults on the pages of a run, by a detector that is idle: the first two bring in their own page only,
      and every later one the pages ahead of it as well, one more each time. A lead that passes the end of
      the object is cut there and ends the run. `trace[k]` are the pages before the `k`-th fault. */
  method Run(e: MapEntry, base: int, offsets: seq<int>, pager: Pager, ghost p: nat, ghost d: nat)
    returns (ok: bool, ghost trace: seq<seq<Entry<int>>>)
    requires e.Valid() && e.isAnon && e.sequence.state.Idle? && d > 0 && offsets != []
    requires e.sequence.faults + |offsets| < WORD && e.length <= WORD - MAX_PREFAULT * PAGE
    requires OnRun(offsets, p, d, e.sequence.faults, e.length)
    requires NoneAt(e.pages.Contents(), 0, |offsets|, p, d, e.sequence.faults)
    modifies e`sequence, pager, e.pages.bst, e.pages.bst.mem.Keys
    ensures |offsets| * (1 + MAX_PREFAULT) <= |old(pager.supply)| ==> ok
    ensures ok ==> e.Valid() && |trace| == |offsets| + 1
    ensures ok ==> trace[0] == old(e.pages.Contents()) && trace[|offsets|] == e.pages.Contents()
    ensures ok ==> forall k :: 0 <= k < |offsets| ==>
      Brought(trace[k], trace[k + 1], offsets[k], e.length, Lead(old(e.sequence.faults), k))
    ensures ok ==>
      Follows(e.sequence, offsets[|offsets| - 1], e.length, p, d, old(e.sequence.faults), |offsets| - 1)
    ensures ok ==> fresh(e.pages.bst.mem.Keys - old(e.pages.bst.mem.Keys))
    ensures |offsets| * (1 + MAX_PREFAULT) <= |old(pager.supply)| ==>
      |old(pager.supply)| - |offsets| * (1 + MAX_PREFAULT) <= |pager.supply|
  {
    hide Snapshot, HoldsZip, DistinctZip, Entries, Sorted, RedBlack, Inside, Tracking, Brought, Lead, Place, OnRun,
      NoneAt, InBounds;
    ghost var f := e.sequence.faults;
    trace := [e.pages.Contents()];
    StartsIdle(e.sequence, p, d, f);
    for k := 0 to |offsets|
      invariant e.Valid() && NoneAt(e.pages.Contents(), k, |offsets|, p, d, f)
      invariant k < |offsets| ==> Tracking(e.sequence, p, d, f, k)
      invariant k > 0 ==> Follows(e.sequence, offsets[k - 1], e.length, p, d, f, k - 1)
      invariant |trace| == k + 1 && trace[0] == old(e.pages.Contents()) && trace[k] == e.pages.Contents()
      invariant forall j :: 0 <= j < k ==> Brought(trace[j], trace[j + 1], offsets[j], e.length, Lead(f, j))
      invariant fresh(e.pages.bst.mem.Keys - old(e.pages.bst.mem.Keys))
      invariant |old(pager.supply)| - k * (1 + MAX_PREFAULT) <= |pager.supply|
    {
      ghost var s := e.pages.Contents();
      OnRunAt(offsets, k, p, d, f, e.length);
      assert !HasKey(s, Place(p, d, f, k)) by { NoneNow(s, k, |offsets|, p, d, f); }
      ok := Fault(e, base, offsets[k], pager, p, d, f, k);
      if !ok {
        return;
      }
      LaterMissing(s, e.pages.Contents(), offsets, k, e.length, p, d, f);
      trace := trace + [e.pages.Contents()];
    }
    ok := true;
  }

  lemma NoneNow(s: seq<Entry<int>>, k: nat, n: nat, p: nat, d: nat, f: nat)
    requires NoneAt(s, k, n, p, d, f) && k < n
    ensures !HasKey(s, Place(p, d, f, k))
  {
  }

  lemma StartsIdle(q: Sequence, p: nat, d: nat, f: nat)
    requires q.state.Idle? && q.faults == f
    ensures Tracking(q, p, d, f, 0)
  {
  }

  /** A fault off the run: it brings in its own page only and the detection starts again. The counting
      starts again only if the fault went forward. */
  method OffRun(e: MapEntry, base: int, offset: int, pager: Pager,
                ghost p: nat, ghost d: nat, ghost f: nat, ghost k: nat)
    returns (ok: bool)
    requires e.Valid() && e.isAnon && 0 <= offset < e.length && !HasKey(e.pages.Contents(), offset / PAGE)
    requires Tracking(e.sequence, p, d, f, k) && d > 0 && f + k < WORD
    requires if k >= 2 then offset / PAGE != Place(p, d, f, k) else k == 1 && offset / PAGE <= p
    modifies e`sequence, pager, e.pages.bst, e.pages.bst.mem.Keys
    ensures ok <==> old(pager.supply) != []
    ensures ok ==> e.Valid() && Brought(old(e.pages.Contents()), e.pages.Contents(), offset, e.length, 0)
    ensures ok ==> e.sequence.state.Idle?
    ensures ok && k >= 2 && offset / PAGE > Place(p, d, f, k) - d ==> e.sequence.faults == 0
    ensures ok && (k == 1 || offset / PAGE <= Place(p, d, f, k) - d) ==> e.sequence.faults == old(e.sequence.faults)
    ensures ok ==> |pager.supply| >= |old(pager.supply)| - (1 + MAX_PREFAULT)
    ensures ok ==> fresh(e.pages.bst.mem.Keys - old(e.pages.bst.mem.Keys))
  {
    hide Snapshot, HoldsZip, DistinctZip, Entries, Sorted, RedBlack, Inside, HasKey, Ahead, Grew, Shown, NextSequence,
      Tracking, Lead, Place, Wanted;
    OffRunStep(e.sequence, p, d, f, k, offset, e.length);
    var r := e.HandlePagefault(base, offset, false, pager);
    ok := r == Handled;
    if ok { SupplyLeft(old(e.At(pager)), e.At(pager), base, 1 + MAX_PREFAULT); }
  }

  lemma OwnPageOnly(s: seq<Entry<int>>, s': seq<Entry<int>>, offset: int, length: int, k: int)
    requires Brought(s, s', offset, length, 0)
    ensures HasKey(s', k) <==> HasKey(s, k) || k == offset / PAGE
  {
    AheadNone(offset);
  }

  /** Three faults at equal distances by a detector that is idle and has counted nothing: the first two bring
      in their own page only, the third also the next page, if the object has it. */
  method ThreeFaults(e: MapEntry, base: int, a: int, b: int, c: int, pager: Pager, ghost p: nat, ghost d: nat)
    returns (ok: bool, ghost s1: seq<Entry<int>>, ghost s2: seq<Entry<int>>)
    requires e.Valid() && e.isAnon && e.sequence.state.Idle? && e.sequence.faults == 0 && d > 0
    requires 0 <= a < e.length && 0 <= b < e.length && 0 <= c < e.length <= WORD - MAX_PREFAULT * PAGE
    requires a / PAGE == p && b / PAGE == p + d && c / PAGE == p + 2 * d
    requires !HasKey(e.pages.Contents(), p) && !HasKey(e.pages.Contents(), p + d)
    requires !HasKey(e.pages.Contents(), p + 2 * d)
    modifies e`sequence, pager, e.pages.bst, e.pages.bst.mem.Keys
    ensures 3 * (1 + MAX_PREFAULT) <= |old(pager.supply)| ==> ok
    ensures ok ==> forall k :: HasKey(s1, k) <==> HasKey(old(e.pages.Contents()), k) || k == p
    ensures ok ==> forall k :: HasKey(s2, k) <==> HasKey(s1, k) || k == p + d
    ensures ok ==> forall k :: HasKey(e.pages.Contents(), k) <==>
      HasKey(s2, k) || k == p + 2 * d || (k == p + 2 * d + 1 && c + PAGE < e.length)
    ensures ok ==> e.Valid() && (c + PAGE < e.length ==> Tracking(e.sequence, p, d, 0, 3))
    ensures ok ==> fresh(e.pages.bst.mem.Keys - old(e.pages.bst.mem.Keys))
    ensures 3 * (1 + MAX_PREFAULT) <= |old(pager.supply)| ==>
      |old(pager.supply)| - 3 * (1 + MAX_PREFAULT) <= |pager.supply|
  {
    hide Snapshot, HoldsZip, DistinctZip, Entries, Sorted, RedBlack, Inside, HasKey, Ahead, InBounds, Brought, Tracking;
    var offsets := [a, b, c];
    FirstPlaces(p, d);
    NoLead(a, e.length);
    NoLead(b, e.length);
    if c + PAGE < e.length { AheadValue(c, 0); OneLead(c, e.length); }
    ghost var trace;
    ok, trace := Run(e, base, offsets, pager, p, d);
    s1, s2 := [], [];
    if ok {
      s1, s2 := trace[1], trace[2];
      forall k ensures HasKey(s1, k) <==> HasKey(trace[0], k) || k == p { OwnPageOnly(trace[0], s1, a, e.length, k); }
      forall k ensures HasKey(s2, k) <==> HasKey(s1, k) || k == p + d { OwnPageOnly(s1, s2, b, e.length, k); }
      forall k ensures HasKey(trace[3], k) <==>
        HasKey(s2, k) || k == p + 2 * d || (k == p + 2 * d + 1 && c + PAGE < e.length)
      {
        OnePageAhead(s2, trace[3], c, e.length, k);
      }
    }
  }

  lemma NoLead(offset: int, length: int)
    ensures InBounds(offset, length, 0) == 0
  {
  }

  lemma OneLead(offset: int, length: int)
    requires AheadOffset(offset, 0) < length
    ensures InBounds(offset, length, 1) == 1
  {
    NoLead(offset, length);
  }

  lemma OnePageAhead(s: seq<Entry<int>>, s': seq<Entry<int>>, offset: int, length: int, k: int)
    requires Brought(s, s', offset, length, 1) && 0 <= offset < length <= WORD - MAX_PREFAULT * PAGE
    ensures HasKey(s', k) <==>
      HasKey(s, k) || k == offset / PAGE || (k == offset / PAGE + 1 && offset + PAGE < length)
  {
    hide HasKey;
    AheadInterval(offset, length, 1, k);
  }

  /** The second run of `CountSurvives`: with one fault counted before it. */
  lemma CountedRun(length: int)
    requires length == 16 * PAGE
    ensures Place(1, 1, 1, 1) == 2 && Place(1, 1, 1, 2) == 3
    ensures Lead(1, 0) == Lead(1, 1) == 0 && Lead(1, 2) == 2
    ensures OnRun([PAGE, 2 * PAGE, 3 * PAGE], 1, 1, 1, length)
  {
    hide InBounds;
    NoLead(PAGE, length);
    NoLead(2 * PAGE, length);
  }

  lemma TwoPagesAhead(s1: seq<Entry<int>>, s2: seq<Entry<int>>, s3: seq<Entry<int>>, s4: seq<Entry<int>>, length: int)
    requires length == 16 * PAGE && !HasKey(s1, 4) && !HasKey(s1, 5)
    requires Brought(s1, s2, PAGE, length, 0) && Brought(s2, s3, 2 * PAGE, length, 0)
    requires Brought(s3, s4, 3 * PAGE, length, 2)
    ensures !HasKey(s3, 4) && !HasKey(s3, 5) && HasKey(s4, 4) && HasKey(s4, 5)
  {
    OwnPageOnly(s1, s2, PAGE, length, 4);
    OwnPageOnly(s1, s2, PAGE, length, 5);
    OwnPageOnly(s2, s3, 2 * PAGE, length, 4);
    OwnPageOnly(s2, s3, 2 * PAGE, length, 5);
    hide HasKey, InBounds;
    AheadInterval(3 * PAGE, length, 2, 4);
    AheadInterval(3 * PAGE, length, 2, 5);
  }

  lemma NoKeys(k: int)
    ensures !HasKey<int>([], k)
  {
  }

  /** Pages 10, 11 and 12, then page 0: the detection has stopped, with one fault counted. */
  method Backwards(pager: Pager) returns (e: MapEntry, ok: bool)
    requires 4 * (1 + MAX_PREFAULT) <= |pager.supply|
    modifies pager
    ensures fresh(e) && fresh(e.pages) && fresh(e.pages.bst) && fresh(e.pages.bst.mem.Keys) && ok && e.Valid()
    ensures e.isAnon && e.length == 16 * PAGE && e.sequence.state.Idle? && e.sequence.faults == 1
    ensures forall k :: 1 <= k <= 5 ==> !HasKey(e.pages.Contents(), k)
    ensures |old(pager.supply)| - 4 * (1 + MAX_PREFAULT) <= |pager.supply|
  {
    hide Snapshot, HoldsZip, DistinctZip, Entries, Sorted, RedBlack, Inside, Brought, HasKey, Tracking;
    e := new MapEntry(16 * PAGE, true, Idle);
    forall k ensures !HasKey(e.pages.Contents(), k) { NoKeys(k); }
    ghost var s1, s2;
    ok, s1, s2 := ThreeFaults(e, 0, 10 * PAGE, 11 * PAGE, 12 * PAGE, pager, 10, 1);
    ghost var s3 := e.pages.Contents();
    AfterThree(e.sequence, 10, 1);
    hide Place;
    ok := OffRun(e, 0, 0, pager, 10, 1, 0, 3);
    ghost var s4 := e.pages.Contents();
    forall k ensures HasKey(s4, k) <==> HasKey(s3, k) || k == 0 { OwnPageOnly(s3, s4, 0, e.length, k); }
  }

  /** A fault that goes backwards stops the detection but not the counting: pages 10, 11 and 12, then page 0,
      then 1, 2 and 3, and the last of these brings in two pages ahead, not one. */
  method CountSurvives(pager: Pager) returns (e: MapEntry, ok: bool, ghost before: seq<Entry<int>>)
    requires 7 * (1 + MAX_PREFAULT) <= |pager.supply|
    modifies pager
    ensures fresh(e) && ok && e.Valid() && !HasKey(before, 4) && !HasKey(before, 5)
    ensures HasKey(e.pages.Contents(), 4) && HasKey(e.pages.Contents(), 5)
  {
    hide Snapshot, HoldsZip, DistinctZip, Entries, Sorted, RedBlack, Inside, Brought, HasKey, OnRun, NoneAt, Follows;
    e, ok := Backwards(pager);
    CountedRun(e.length);
    NoneOnRun(e.pages.Contents());
    ghost var trace;
    ok, trace := Run(e, 0, [PAGE, 2 * PAGE, 3 * PAGE], pager, 1, 1);
    TwoPagesAhead(trace[0], trace[1], trace[2], trace[3], e.length);
    before := trace[2];
  }

  lemma NoneOnRun(s: seq<Entry<int>>)
    requires !HasKey(s, 1) && !HasKey(s, 2) && !HasKey(s, 3)
    ensures NoneAt(s, 0, 3, 1, 1, 1)
  {
    hide HasKey;
    CountedRun(16 * PAGE);
  }

  lemma AfterThree(q: Sequence, p: nat, d: nat)
    requires Tracking(q, p, d, 0, 3)
    ensures Place(p, d, 0, 3) == p + 3 * d + 1 && q.faults == 1
  {
    FirstPlaces(p, d);
    assert Place(p, d, 0, 3) == Place(p, d, 0, 2) + Lead(0, 2) + d;
  }

  lemma FirstPlaces(p: nat, d: nat)
    ensures Place(p, d, 0, 1) == p + d && Place(p, d, 0, 2) == p + 2 * d
    ensures Lead(0, 0) == Lead(0, 1) == 0 && Lead(0, 2) == 1
  {
    assert Place(p, d, 0, 0) == p;
    assert Place(p, d, 0, 1) == Place(p, d, 0, 0) + Lead(0, 0) + d;
    assert Place(p, d, 0, 2) == Place(p, d, 0, 1) + Lead(0, 1) + d;
  }
}
