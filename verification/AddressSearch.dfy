/** The loop of `vm::Map::add` that looks for a place, as a sequence of probed addresses. */
module AddressSearch {
  import opened Bits
  import opened TreeShape
  import opened TreeOrder
  import opened MapTree
  import opened Options

  /** Outcome of `add`: the base address, failure for lack of room, or a search that never ends. */
  datatype AddResult = Added(base: int) | NoRoom | Endless

  /** `searchEnd - size` on 64-bit words. */
  function Limit(searchEnd: int, size: int): int {
    (searchEnd - size) % WORD
  }

  ghost predicate ProbeAdvances<E(!new)>(base: int, size: int, e: E) {
    forall w: Entry<Mapping<E>> ::
      Regular(w) && ContainsRange(w.key, w.value.size, base, size) ==> base < w.key + w.value.size
  }

  /** Skipping to the end of whichever window the probe reports moves the search forward exactly when
      the range does not wrap and is not empty (or starts at 0). */
  lemma ProbeAdvancesIff<E(!new)>(base: int, size: int, e: E)
    requires Word(base) && Word(size)
    ensures ProbeAdvances(base, size, e) <==> (0 < size || base == 0) && base + size <= WORD
  {
    if base + size > WORD || (size == 0 && base > 0) {
      var at := if size == 0 then base - 1 else base + size - 1 - WORD;
      var w := Entry(at, Mapping(1, 0, e));
      NoMod(at);
      NoMod(base + size - 1);
      assert Regular(w) && ContainsRange(w.key, w.value.size, base, size);
    } else {
      forall w: Entry<Mapping<E>> | Regular(w) && ContainsRange(w.key, w.value.size, base, size)
        ensures base < w.key + w.value.size
      {
        NoMod(w.key + w.value.size - 1);
        NoMod(base + size - 1);
      }
    }
  }

  /** Whatever the map: a place below the limit ends below `searchEnd` exactly when the object is not
      larger than `searchEnd`, that is when the limit does not wrap. */
  lemma LimitHonouredIff(base: int, searchEnd: int, size: int)
    requires Word(base) && Word(searchEnd) && Word(size) && base < Limit(searchEnd, size)
    ensures base + size < searchEnd <==> size <= searchEnd
  {
    if size <= searchEnd {
      NoMod(searchEnd - size);
    }
  }

  /** The first `k` windows end by `base`. */
  ghost predicate Passed<E>(s: seq<Entry<Mapping<E>>>, k: int, base: int) {
    0 <= k <= |s| && forall i :: 0 <= i < k ==> s[i].key + s[i].value.size <= base
  }

  /** No place in `[from, base)` is free. */
  ghost predicate Taken<E>(s: seq<Entry<Mapping<E>>>, from: int, base: int, size: int) {
    forall b :: from <= b < base ==> !Free(s, b, size)
  }

  lemma SearchStarts<E>(s: seq<Entry<Mapping<E>>>, from: int, size: int)
    ensures Passed(s, 0, from) && Taken(s, from, from, size)
  {
  }

  lemma TakenLess<E>(s: seq<Entry<Mapping<E>>>, from: int, base: int, size: int, base': int)
    requires Taken(s, from, base, size) && base' <= base
    ensures Taken(s, from, base', size)
  {
  }

  lemma TestIsFree<E>(s: seq<Entry<Mapping<E>>>, base: int, size: int)
    requires Windows(s) && Word(base) && 0 < size && base + size <= WORD
    ensures NoneWith(s, Overlaps(base, size)) <==> Free(s, base, size)
  {
    forall i | 0 <= i < |s|
      ensures Overlaps<E>(base, size)(s[i]) <==> Meets(s[i], base, size)
    {
      RangeTestExact(s[i], base, size);
    }
  }

  /** One unsuccessful probe: everything up to the end of the reported window is taken, and one more
      window lies behind the search. */
  lemma ProbeStep<E>(s: seq<Entry<Mapping<E>>>, w: Entry<Mapping<E>>, k: int, from: int, base: int, size: int)
    requires Windows(s) && w in s && 0 < size && Word(base) && base + size <= WORD
    requires Overlaps<E>(base, size)(w) && Passed(s, k, base) && Taken(s, from, base, size)
    ensures var next := w.key + w.value.size;
      base < next < WORD && 0 <= k < |s| && Passed(s, k + 1, next) && Taken(s, from, next, size)
  {
    var j :| 0 <= j < |s| && s[j] == w;
    var next := w.key + w.value.size;
    RangeTestExact(w, base, size);
    MeetsIff(w, base, size);
    assert k <= j;
    forall i | 0 <= i < k + 1 ensures s[i].key + s[i].value.size <= next {
      assert i < j ==> s[i].key + s[i].value.size <= s[j].key;
    }
    forall b | from <= b < next ensures !Free(s, b, size) {
      if b >= base {
        MeetsIff(w, b, size);
        assert Meets(s[j], b, size);
      }
    }
  }

  /** What the search promises: the lowest free place, or that there is none. */
  ghost predicate Placed<E>(s: seq<Entry<Mapping<E>>>, r: AddResult, size: int, searchStart: int, searchEnd: int) {
    match r
    case Added(base) =>
      searchStart <= base < searchEnd - size && Free(s, base, size) && Taken(s, searchStart, base, size)
    case NoRoom => Taken(s, searchStart, searchEnd - size, size)
    case Endless => false
  }

  // ---------------------------------------------------------------- the probed addresses

  function EndOf<E>(w: Entry<Mapping<E>>): int {
    w.key + w.value.size
  }

  /** Where a probe of the windows in search order goes on: behind the first one that the test
      accepts, or nowhere if the place is free. */
  ghost function Next<E>(p: seq<Entry<Mapping<E>>>, base: int, size: int): Option<int> {
    if p == [] then None
    else if Overlaps<E>(base, size)(p[0]) then Some(EndOf(p[0]) % WORD)
    else Next(p[1..], base, size)
  }

  /** The windows in search order and the arguments of the search. */
  datatype Query<E> = Query(windows: seq<Entry<Mapping<E>>>, size: int, searchStart: int, searchEnd: int) {
    function Limited(): int {
      Limit(searchEnd, size)
    }
  }

  /** The address after `n` failed probes below the limit. */
  ghost function At<E>(q: Query<E>, n: nat): Option<int> {
    if n == 0 then Some(q.searchStart)
    else
      var b := At(q, n - 1);
      if b.Some? && b.value < q.Limited() then Next(q.windows, b.value, q.size) else None
  }

  /** Every probe fails, so that the loop runs forever. */
  ghost predicate Forever<E>(q: Query<E>) {
    forall n: nat :: At(q, n).Some?
  }

  /** What the loop returns, if it does. */
  ghost predicate Searched<E>(q: Query<E>, r: AddResult) {
    match r
    case Added(base) =>
      && base < q.Limited() && Next(q.windows, base, q.size) == None
      && exists n: nat :: At(q, n) == Some(base)
    case NoRoom => exists n: nat :: At(q, n).Some? && At(q, n).value >= q.Limited()
    case Endless => Forever(q)
  }

  lemma {:induction false} NextIs<E>(p: seq<Entry<Mapping<E>>>, base: int, size: int, w: Entry<Mapping<E>>)
    requires FirstWith(p, Overlaps(base, size), w)
    ensures Next(p, base, size) == Some(EndOf(w) % WORD)
  {
    var i :| 0 <= i < |p| && p[i] == w && Overlaps<E>(base, size)(w) && NoneWith(p[..i], Overlaps(base, size));
    if i > 0 {
      assert p[..i][0] == p[0];
      var rest := p[1..][..i - 1];
      forall j | 0 <= j < |rest| ensures !Overlaps<E>(base, size)(rest[j]) { assert p[..i][j + 1] == rest[j]; }
      assert p[1..][i - 1] == w;
      NextIs(p[1..], base, size, w);
    }
  }

  lemma {:induction false} NextNone<E>(p: seq<Entry<Mapping<E>>>, base: int, size: int)
    ensures Next(p, base, size) == None <==> NoneWith(p, Overlaps(base, size))
  {
    if p != [] {
      NextNone(p[1..], base, size);
      if NoneWith(p[1..], Overlaps(base, size)) && !Overlaps<E>(base, size)(p[0]) {
        forall j | 0 <= j < |p| ensures !Overlaps<E>(base, size)(p[j]) { if j > 0 { assert p[1..][j - 1] == p[j]; } }
      }
      if NoneWith(p, Overlaps(base, size)) {
        forall j | 0 <= j < |p| - 1 ensures !Overlaps<E>(base, size)(p[1..][j]) { assert p[1..][j] == p[j + 1]; }
      }
    }
  }

  /** A probe reports one of the windows. */
  lemma {:induction false} NextFrom<E>(p: seq<Entry<Mapping<E>>>, base: int, size: int) returns (w: Entry<Mapping<E>>)
    requires Next(p, base, size).Some?
    ensures w in p && Overlaps<E>(base, size)(w) && Next(p, base, size) == Some(EndOf(w) % WORD)
  {
    if Overlaps<E>(base, size)(p[0]) { w := p[0]; } else { w := NextFrom(p[1..], base, size); }
  }

  lemma {:induction false} AtPrefix<E>(q: Query<E>, m: nat, n: nat)
    requires m <= n && At(q, n).Some?
    ensures At(q, m).Some?
    decreases n
  {
    if m < n { AtPrefix(q, m, n - 1); }
  }

  lemma {:induction false} AtShift<E>(q: Query<E>, i: nat, j: nat, n: nat)
    requires At(q, i) == At(q, j)
    ensures At(q, i + n) == At(q, j + n)
    decreases n
  {
    if n > 0 { AtShift(q, i, j, n - 1); }
  }

  /** A search that comes back to an address never ends. */
  lemma {:induction false} RepeatsForever<E>(q: Query<E>, i: nat, j: nat, n: nat)
    requires i < j && At(q, j).Some? && At(q, i) == At(q, j)
    ensures At(q, n).Some?
    decreases n
  {
    if n <= j {
      AtPrefix(q, n, j);
    } else {
      RepeatsForever(q, i, j, n - (j - i));
      AtShift(q, i, j, n - j);
    }
  }

  lemma Repeats<E>(q: Query<E>, i: nat, j: nat)
    requires i < j && At(q, j).Some? && At(q, i) == At(q, j)
    ensures Forever(q)
  {
    forall n: nat ensures At(q, n).Some? {
      RepeatsForever(q, i, j, n);
    }
  }

  // ---------------------------------------------------------------- when it never ends

  ghost function Ends<E>(p: seq<Entry<Mapping<E>>>): (r: set<int>)
    ensures |r| <= |p|
  {
    if p == [] then {} else Ends(p[1..]) + {EndOf(p[0]) % WORD}
  }

  lemma {:induction false} InEnds<E>(p: seq<Entry<Mapping<E>>>, w: Entry<Mapping<E>>)
    requires w in p
    ensures EndOf(w) % WORD in Ends(p)
  {
    if w != p[0] { InEnds(p[1..], w); }
  }

  /** From the second on, probed addresses are ends of windows. */
  lemma AtInEnds<E>(q: Query<E>, n: nat)
    requires n > 0 && At(q, n).Some?
    ensures At(q, n).value in Ends(q.windows)
  {
    var w := NextFrom(q.windows, At(q, n - 1).value, q.size);
    InEnds(q.windows, w);
  }

  ghost predicate Reached<E>(q: Query<E>, n: nat, x: int) {
    exists i: nat :: 1 <= i <= n && At(q, i) == Some(x)
  }

  /** The addresses after the first up to the `n`-th, all different: there are `n` of them. */
  lemma {:induction false} Visited<E>(q: Query<E>, n: nat) returns (v: set<int>)
    requires At(q, n).Some? && forall i: nat, j: nat :: 1 <= i < j <= n ==> At(q, i) != At(q, j)
    ensures |v| == n && v <= Ends(q.windows)
    ensures forall x :: x in v ==> Reached(q, n, x)
    decreases n
  {
    if n == 0 {
      v := {};
    } else {
      var u := Visited(q, n - 1);
      var x := At(q, n).value;
      AtInEnds(q, n);
      assert x !in u;
      v := u + {x};
      forall y | y in v ensures Reached(q, n, y) {
        if y in u {
          var i: nat :| 1 <= i <= n - 1 && At(q, i) == Some(y);
          assert 1 <= i <= n;
        } else {
          assert At(q, n) == Some(y);
        }
      }
    }
  }

  lemma SubsetSize(a: set<int>, b: set<int>)
    requires a <= b
    ensures |a| <= |b|
  {
    assert b == a + (b - a);
  }

  /** The search never ends exactly when it has not ended after one probe per window and one more. */
  lemma ForeverIff<E>(q: Query<E>)
    ensures Forever(q) <==> At(q, |q.windows| + 1).Some?
  {
    if At(q, |q.windows| + 1).Some? {
      if i: nat, j: nat :| 1 <= i < j <= |q.windows| + 1 && At(q, i) == At(q, j) {
        AtPrefix(q, j, |q.windows| + 1);
        Repeats(q, i, j);
      } else {
        var v := Visited(q, |q.windows| + 1);
        SubsetSize(v, Ends(q.windows));
        assert false;
      }
    }
  }

  /** The search has at most one outcome. */
  lemma SearchedOnce<E>(q: Query<E>, r: AddResult, r': AddResult)
    requires Searched(q, r) && Searched(q, r')
    ensures r == r'
  {
    hide Next, Limit;
    var n := Stops(q, r);
    var n' := Stops(q, r');
    if n.Some? && n'.Some? {
      if n.value < n'.value { AtPrefix(q, n.value + 1, n'.value); }
      if n'.value < n.value { AtPrefix(q, n'.value + 1, n.value); }
    }
  }

  /** Where the search stops, if it does. */
  lemma Stops<E>(q: Query<E>, r: AddResult) returns (n: Option<nat>)
    requires Searched(q, r)
    ensures n.None? <==> Forever(q)
    ensures r == Endless <==> Forever(q)
    ensures n.Some? ==> At(q, n.value).Some? && At(q, n.value + 1) == None
    ensures n.Some? ==> r == if At(q, n.value).value < q.Limited() then Added(At(q, n.value).value) else NoRoom
  {
    hide Next, Limit;
    match r
    case Added(base) =>
      var k: nat :| At(q, k) == Some(base);
      assert At(q, k + 1) == None;
      n := Some(k);
    case NoRoom =>
      var k: nat :| At(q, k).Some? && At(q, k).value >= q.Limited();
      assert At(q, k + 1) == None;
      n := Some(k);
    case Endless =>
      n := None;
  }

  /** A set of addresses below the limit that probing does not leave. */
  ghost predicate Trap<E>(q: Query<E>, trap: set<int>) {
    forall x :: x in trap ==> x < q.Limited() && Caught(q, x, trap)
  }

  ghost predicate Caught<E>(q: Query<E>, x: int, trap: set<int>) {
    Next(q.windows, x, q.size).Some? && Next(q.windows, x, q.size).value in trap
  }

  /** The search never ends exactly when its first probe is made, fails and leads into such a set of
      window ends. */
  lemma ForeverTrapIff<E>(q: Query<E>)
    ensures Forever(q) <==>
      && q.searchStart < q.Limited()
      && exists trap :: trap <= Ends(q.windows) && Trap(q, trap) && Caught(q, q.searchStart, trap)
  {
    hide Next, Limit, Ends;
    AtStart(q);
    if Forever(q) {
      var trap := set x | x in Ends(q.windows) && Visits(q, x);
      forall n: nat | n > 0 ensures At(q, n).value in trap { AtInEnds(q, n); }
      assert At(q, 1).Some? && At(q, 1).value in trap;
      forall x | x in trap ensures x < q.Limited() && Caught(q, x, trap) {
        var n: nat :| n > 0 && At(q, n) == Some(x);
        assert At(q, n + 1).Some?;
      }
      assert Trap(q, trap) && Caught(q, q.searchStart, trap);
    }
    if trap :| q.searchStart < q.Limited() && trap <= Ends(q.windows) && Trap(q, trap)
               && Caught(q, q.searchStart, trap) {
      forall n: nat ensures At(q, n).Some? { if n > 0 { InTrap(q, trap, n - 1); } }
    }
  }

  ghost predicate Visits<E>(q: Query<E>, x: int) {
    exists n: nat :: n > 0 && At(q, n) == Some(x)
  }

  lemma {:induction false} InTrap<E>(q: Query<E>, trap: set<int>, n: nat)
    requires q.searchStart < q.Limited() && Trap(q, trap) && Caught(q, q.searchStart, trap)
    ensures At(q, n + 1).Some? && At(q, n + 1).value in trap
  {
    hide Next, Limit;
    AtStart(q);
    if n > 0 { InTrap(q, trap, n - 1); }
  }

  ghost predicate SameWindows<E>(p: seq<Entry<Mapping<E>>>, s: seq<Entry<Mapping<E>>>) {
    (forall w :: w in p ==> w in s) && (forall w :: w in s ==> w in p)
  }

  /** The words and the windows of a query. */
  ghost predicate Proper<E>(q: Query<E>, s: seq<Entry<Mapping<E>>>) {
    Windows(s) && SameWindows(q.windows, s) && Word(q.size) && Word(q.searchStart) && Word(q.searchEnd)
  }

  /** After a failed probe the search is at the end of a window. */
  lemma Advance<E>(q: Query<E>, s: seq<Entry<Mapping<E>>>, n: nat) returns (w: Entry<Mapping<E>>)
    requires Proper(q, s) && At(q, n + 1).Some?
    ensures At(q, n).Some? && At(q, n).value < q.Limited()
    ensures w in s && Regular(w) && Overlaps<E>(At(q, n).value, q.size)(w) && At(q, n + 1) == Some(EndOf(w))
  {
    w := NextFrom(q.windows, At(q, n).value, q.size);
    NoMod(EndOf(w));
  }

  lemma AtWord<E>(q: Query<E>, s: seq<Entry<Mapping<E>>>, n: nat)
    requires Proper(q, s) && At(q, n).Some?
    ensures Word(At(q, n).value)
  {
    hide At, Next, Overlaps;
    if n > 0 { var w := Advance(q, s, n - 1); } else { AtStart(q); }
  }

  lemma AtStart<E>(q: Query<E>)
    ensures At(q, 0) == Some(q.searchStart)
  {
  }

  /** The end of a window from which a range of that size passes the top of the address space, and
      which lies below the limit all the same. */
  ghost predicate High<E>(q: Query<E>, w: Entry<Mapping<E>>) {
    WORD < EndOf(w) + q.size && EndOf(w) < q.Limited()
  }

  /** As long as no window is in the way like that, the search climbs. */
  lemma {:induction false} Climbs<E>(q: Query<E>, s: seq<Entry<Mapping<E>>>, n: nat)
    requires Proper(q, s) && q.size > 0 && Forever(q) && forall w :: w in s ==> !High(q, w)
    ensures At(q, n + 1).Some? && n < At(q, n + 1).value
  {
    hide Next, Overlaps, Limit;
    var w := Advance(q, s, n);
    if n > 0 {
      Climbs(q, s, n - 1);
      var v := Advance(q, s, n - 1);
      var u := Advance(q, s, n);
      var base := EndOf(v);
      assert !High(q, v);
      OverlapClimbs(w, base, q.size);
    }
  }

  lemma OverlapClimbs<E>(w: Entry<Mapping<E>>, base: int, size: int)
    requires Regular(w) && Word(base) && 0 < size && base + size <= WORD && Overlaps<E>(base, size)(w)
    ensures base < EndOf(w)
  {
    RangeTestExact(w, base, size);
    MeetsIff(w, base, size);
  }

  /** A search for a non-empty object that never ends passes such a window. */
  lemma ForeverNeedsHigh<E>(q: Query<E>, s: seq<Entry<Mapping<E>>>)
    requires Proper(q, s) && q.size > 0 && Forever(q)
    ensures exists w :: w in s && High(q, w)
  {
    hide At, Next, Overlaps, Limit;
    if forall w :: w in s ==> !High(q, w) {
      Climbs(q, s, WORD);
      AtWord(q, s, WORD + 1);
    }
  }

  /** So a search for an object that fits below `searchEnd` always ends. */
  lemma FittingEnds<E>(q: Query<E>, s: seq<Entry<Mapping<E>>>)
    requires Proper(q, s) && 0 < q.size <= q.searchEnd
    ensures !Forever(q)
  {
    hide At, Next, Overlaps;
    NoMod(q.searchEnd - q.size);
    if Forever(q) { ForeverNeedsHigh(q, s); }
  }

  // ---------------------------------------------------------------- objects of size 0

  /** A probe at the end of the window reports that window again. */
  ghost predicate Rests<E>(q: Query<E>, w: Entry<Mapping<E>>) {
    Next(q.windows, EndOf(w), q.size) == Some(EndOf(w))
  }

  lemma EndsInOrder<E>(s: seq<Entry<Mapping<E>>>, i: int, j: int)
    requires Windows(s) && 0 <= i < |s| && 0 <= j < |s|
    ensures EndOf(s[j]) <= EndOf(s[i]) <==> j <= i
    ensures s[j].key <= EndOf(s[i]) <= EndOf(s[j]) ==> j == i || j == i + 1
  {
    if i + 1 < j { assert EndOf(s[i]) <= s[i + 1].key && EndOf(s[i + 1]) <= s[j].key; }
  }

  /** An empty range at the end of a window touches that window and the next if it starts there. */
  lemma AtTheEnd<E>(q: Query<E>, s: seq<Entry<Mapping<E>>>, i: int)
    requires Proper(q, s) && q.size == 0 && 0 <= i < |s|
    ensures Rests(q, s[i]) || (i + 1 < |s| && Next(q.windows, EndOf(s[i]), 0) == Some(EndOf(s[i + 1])))
  {
    var base := EndOf(s[i]);
    EmptyTouches(s[i], base);
    NextNone(q.windows, base, 0);
    assert s[i] in q.windows;
    var w := NextFrom(q.windows, base, 0);
    var j :| 0 <= j < |s| && s[j] == w;
    EmptyTouches(w, base);
    NoMod(EndOf(w));
    EndsInOrder(s, i, j);
  }

  lemma EmptyTouches<E>(w: Entry<Mapping<E>>, base: int)
    requires Regular(w) && 0 < base < WORD
    ensures Overlaps<E>(base, 0)(w) <==> w.key <= base <= EndOf(w)
  {
    NoMod(w.key + w.value.size - 1);
    NoMod(base - 1);
  }

  /** Below a window that ends under the limit and reports itself the search stays. */
  lemma {:induction false} StaysBelow<E>(q: Query<E>, s: seq<Entry<Mapping<E>>>, i: int, n: nat) returns (j: int)
    requires Proper(q, s) && q.size == 0 && 0 <= i < |s| && Rests(q, s[i]) && EndOf(s[i]) < q.searchEnd
    requires q.searchStart < q.searchEnd
    requires Next(q.windows, q.searchStart, 0).Some? && Next(q.windows, q.searchStart, 0).value <= EndOf(s[i])
    ensures 0 <= j <= i && At(q, n + 1) == Some(EndOf(s[j]))
  {
    hide Next, Overlaps, Limit, Rests;
    ZeroLimit(q);
    if n == 0 {
      AtStart(q);
      var w := Advance(q, s, 0);
      j :| 0 <= j < |s| && s[j] == w;
      EndsInOrder(s, i, j);
    } else {
      j := StaysBelow(q, s, i, n - 1);
      EndsInOrder(s, i, j);
      AtTheEnd(q, s, j);
      if !Rests(q, s[j]) { j := j + 1; } else { RestsMeans(q, s[j]); }
    }
  }

  lemma RestsMeans<E>(q: Query<E>, w: Entry<Mapping<E>>)
    ensures Rests(q, w) <==> Next(q.windows, EndOf(w), q.size) == Some(EndOf(w))
  {
  }

  lemma ZeroLimit<E>(q: Query<E>)
    requires q.size == 0 && Word(q.searchEnd)
    ensures q.Limited() == q.searchEnd
  {
    NoMod(q.searchEnd);
  }

  /** Without such a window each probe goes on to the next one. */
  lemma {:induction false} GoesOn<E>(q: Query<E>, s: seq<Entry<Mapping<E>>>, n: nat) returns (j: int)
    requires Proper(q, s) && q.size == 0 && Forever(q)
    requires forall i :: 0 <= i < |s| && At(q, 1).Some? && At(q, 1).value <= EndOf(s[i]) < q.searchEnd ==>
      !Rests(q, s[i])
    ensures n <= j < |s| && At(q, n + 1) == Some(EndOf(s[j])) && At(q, 1).Some? && At(q, 1).value <= EndOf(s[j])
  {
    hide Next, Overlaps, Limit, Rests, At;
    if n == 0 {
      var w := Advance(q, s, 0);
      j :| 0 <= j < |s| && s[j] == w;
    } else {
      var i := GoesOn(q, s, n - 1);
      var w := Advance(q, s, n);
      ZeroLimit(q);
      AtTheEnd(q, s, i);
      AtNext(q, n);
      assert EndOf(s[i]) <= s[i + 1].key;
      j := i + 1;
    }
  }

  lemma AtNext<E>(q: Query<E>, n: nat)
    requires At(q, n).Some? && At(q, n).value < q.Limited()
    ensures At(q, n + 1) == Next(q.windows, At(q, n).value, q.size)
  {
  }

  /** The search for an empty object never ends exactly when its first probe fails and some window
      between the one reported there and `searchEnd` is reported at its own end. */
  lemma EmptyForeverIff<E>(q: Query<E>, s: seq<Entry<Mapping<E>>>)
    requires Proper(q, s) && q.size == 0
    ensures Forever(q) <==>
      && q.searchStart < q.searchEnd && Next(q.windows, q.searchStart, 0).Some?
      && exists i :: 0 <= i < |s| && Rests(q, s[i])
                     && Next(q.windows, q.searchStart, 0).value <= EndOf(s[i]) < q.searchEnd
  {
    hide Next, Overlaps, Limit, Rests, At;
    ZeroLimit(q);
    AtStart(q);
    if q.searchStart < q.searchEnd { AtNext(q, 0); }
    if Forever(q) {
      var w := Advance(q, s, 0);
      if forall i :: 0 <= i < |s| && At(q, 1).value <= EndOf(s[i]) < q.searchEnd ==> !Rests(q, s[i]) {
        var j := GoesOn(q, s, |s|);
        assert false;
      }
    }
    if i :| 0 <= i < |s| && q.searchStart < q.searchEnd && Next(q.windows, q.searchStart, 0).Some?
            && Next(q.windows, q.searchStart, 0).value <= EndOf(s[i]) < q.searchEnd && Rests(q, s[i]) {
      forall n: nat ensures At(q, n).Some? {
        if n > 0 { var j := StaysBelow(q, s, i, n - 1); }
      }
    }
  }

  // ---------------------------------------------------------------- one window

  /** With a single window: the first probe fails, the window ends below the limit, and the object is
      empty or together with the window larger than the address space. */
  lemma OneWindowForeverIff<E>(w: Entry<Mapping<E>>, size: int, searchStart: int, searchEnd: int)
    requires Regular(w) && Word(size) && Word(searchStart) && Word(searchEnd)
    ensures Forever(Query([w], size, searchStart, searchEnd)) <==>
      && searchStart < Limit(searchEnd, size) && Overlaps<E>(searchStart, size)(w)
      && EndOf(w) < Limit(searchEnd, size) && (size == 0 || w.value.size + size > WORD)
  {
    hide Limit;
    var q := Query([w], size, searchStart, searchEnd);
    AtItsEnd(w, size);
    NextOne(w, searchStart, size);
    NextOne(w, EndOf(w), size);
    assert At(q, 0) == Some(searchStart);
    if Forever(q) {
      assert At(q, 1).Some? && At(q, 2).Some? && At(q, 3).Some?;
    } else if searchStart < q.Limited() && Overlaps<E>(searchStart, size)(w) && EndOf(w) < q.Limited() {
      assert At(q, 1) == Some(EndOf(w));
      assert At(q, 2) == Next([w], EndOf(w), size);
      if At(q, 2).Some? { Repeats(q, 1, 2); }
    }
  }

  lemma AtItsEnd<E>(w: Entry<Mapping<E>>, size: int)
    requires Regular(w) && Word(size)
    ensures Overlaps<E>(EndOf(w), size)(w) <==> size == 0 || w.value.size + size > WORD
  {
    NoMod(EndOf(w) - 1);
    NoMod(EndOf(w) + size - 1);
  }

  lemma NextOne<E>(w: Entry<Mapping<E>>, base: int, size: int)
    requires Regular(w)
    ensures Next([w], base, size) == if Overlaps<E>(base, size)(w) then Some(EndOf(w)) else None
  {
    NoMod(EndOf(w));
    assert [w][1..] == [];
  }

  // ---------------------------------------------------------------- inputs

  /** At the end of any window a search for an empty object stands still. */
  lemma EmptyStandsStill<E>(w: Entry<Mapping<E>>, searchEnd: int)
    requires Regular(w) && EndOf(w) < searchEnd < WORD
    ensures Forever(Query([w], 0, EndOf(w), searchEnd))
  {
    NoMod(searchEnd);
    AtItsEnd(w, 0);
    OneWindowForeverIff(w, 0, EndOf(w), searchEnd);
  }

  /** An object larger than `searchEnd` is placed beyond it. */
  lemma PlacedBeyondEnd<E>()
    ensures Searched<E>(Query([], 0x100000, 0x1000, 0x2000), Added(0x1000))
    ensures 0x1000 + 0x100000 > 0x2000
  {
    var q: Query<E> := Query([], 0x100000, 0x1000, 0x2000);
    NoMod(0x2000 - 0x100000);
    AtStart(q);
  }

  /** The probe of a range that passes the top of the address space can take the search back below
      where it started. */
  lemma PlacedBelowStart<E>(e: E)
    ensures var w := Entry(0, Mapping(0x1000, 0, e));
      Searched(Query([w], WORD - 0x1000, 0x2000, 0x2000), Added(0x1000))
  {
    var w, size := Entry(0, Mapping(0x1000, 0, e)), WORD - 0x1000;
    var q := Query([w], size, 0x2000, 0x2000);
    NoMod(0x2000 - size);
    NoMod(0x2000 + size - 1);
    NoMod(0x1000 + size - 1);
    NoMod(0x1000 - 1);
    NextOne(w, 0x2000, size);
    NextOne(w, 0x1000, size);
    AtStart(q);
    AtNext(q, 0);
  }

  /** A window that ends at the very top of the address space reports 0 as its end and sends the search
      for an object that fits back to 0, below `searchStart`. */
  lemma TopWindowSendsBack<E>(e: E)
    ensures var w := Entry(0x1000, Mapping(WORD - 0x1000, 0, e));
      !Regular(w) && EndOf(w) == WORD && Searched(Query([w], 0x1000, 0x1000, 0x3000), Added(0))
  {
    var w := Entry(0x1000, Mapping(WORD - 0x1000, 0, e));
    var q := Query([w], 0x1000, 0x1000, 0x3000);
    NoMod(WORD - 1);
    NoMod(0x1000 + 0x1000 - 1);
    NoMod(0x1000 - 1);
    NoMod(0x3000 - 0x1000);
    assert [w][1..] == [];
    AtStart(q);
    AtNext(q, 0);
  }

  // ---------------------------------------------------------------- the loop

  /** The addresses of the first `n` probes, all different. */
  ghost predicate Trail<E>(q: Query<E>, n: nat, seen: set<int>) {
    && |seen| == n && seen <= Ends(q.windows) + {q.searchStart}
    && forall x :: x in seen ==> Tried(q, n, x)
  }

  ghost predicate Tried<E>(q: Query<E>, n: nat, x: int) {
    exists i: nat :: i < n && At(q, i) == Some(x)
  }

  lemma TrailRepeats<E>(q: Query<E>, n: nat, seen: set<int>)
    requires Trail(q, n, seen) && At(q, n).Some? && At(q, n).value in seen
    ensures Forever(q)
  {
    hide At, Forever, Ends;
    assert Tried(q, n, At(q, n).value);
    var i: nat :| i < n && At(q, i) == At(q, n);
    Repeats(q, i, n);
  }

  lemma TrailMore<E>(q: Query<E>, n: nat, seen: set<int>, x: int)
    requires Trail(q, n, seen) && At(q, n) == Some(x) && x !in seen
    ensures Trail(q, n + 1, seen + {x}) && n <= |q.windows|
  {
    hide At;
    if n == 0 { AtStart(q); } else { AtInEnds(q, n); }
    SubsetSize(seen + {x}, Ends(q.windows) + {q.searchStart});
    forall y | y in seen + {x} ensures Tried(q, n + 1, y) {
      if y in seen {
        assert Tried(q, n, y);
        var i: nat :| i < n && At(q, i) == Some(y);
        assert i < n + 1;
      } else {
        assert n < n + 1 && At(q, n) == Some(y);
      }
    }
  }

  /** An object that fits below `searchEnd`: everything the search has passed is taken. */
  lemma {:induction false} TakenAt<E>(q: Query<E>, s: seq<Entry<Mapping<E>>>, n: nat)
    requires Proper(q, s) && 0 < q.size <= q.searchEnd && At(q, n).Some?
    ensures q.searchStart <= At(q, n).value && Taken(s, q.searchStart, At(q, n).value, q.size)
  {
    hide Next, Overlaps, Taken, At, Windows;
    if n == 0 {
      AtStart(q);
      SearchStarts(s, q.searchStart, q.size);
    } else {
      var w := Advance(q, s, n - 1);
      TakenAt(q, s, n - 1);
      AtWord(q, s, n - 1);
      NoMod(q.searchEnd - q.size);
      SearchStarts(s, At(q, n - 1).value, q.size);
      ProbeStep(s, w, 0, q.searchStart, At(q, n - 1).value, q.size);
    }
  }

  /** So the first free place is the lowest one. */
  lemma SearchedPlaced<E>(q: Query<E>, s: seq<Entry<Mapping<E>>>, r: AddResult)
    requires Proper(q, s) && 0 < q.size <= q.searchEnd && Searched(q, r)
    ensures Placed(s, r, q.size, q.searchStart, q.searchEnd)
  {
    hide Next, Overlaps, Taken, At, Windows, Free, Forever;
    NoMod(q.searchEnd - q.size);
    match r
    case Added(base) =>
      var n: nat :| At(q, n) == Some(base);
      TakenAt(q, s, n);
      FoundIsFree(q, s, base);
    case NoRoom =>
      var n: nat :| At(q, n).Some? && At(q, n).value >= q.Limited();
      TakenAt(q, s, n);
      TakenLess(s, q.searchStart, At(q, n).value, q.size, q.searchEnd - q.size);
    case Endless =>
      FittingEnds(q, s);
  }

  /** A caller can check it: the object is not empty and not larger than `searchEnd`, or there is nothing
      to search. */
  predicate Suited(size: int, searchStart: int, searchEnd: int) {
    0 < size <= searchEnd || Limit(searchEnd, size) <= searchStart
  }

  lemma SuitedPlaced<E>(q: Query<E>, s: seq<Entry<Mapping<E>>>, r: AddResult)
    requires Proper(q, s) && Suited(q.size, q.searchStart, q.searchEnd) && Searched(q, r)
    ensures Placed(s, r, q.size, q.searchStart, q.searchEnd)
  {
    hide Next, Overlaps, Windows, Free, Forever;
    if 0 < q.size <= q.searchEnd {
      SearchedPlaced(q, s, r);
    } else {
      AtStart(q);
      SearchedOnce(q, r, NoRoom);
      if q.size == 0 { ZeroLimit(q); }
    }
  }

  /** Whatever the windows are, the search gives the lowest free place or finds that there is none. */
  ghost predicate AlwaysPlaced<E(!new)>(size: int, searchStart: int, searchEnd: int, e: E) {
    forall p: seq<Entry<Mapping<E>>>, s: seq<Entry<Mapping<E>>>, r: AddResult ::
      var q := Query(p, size, searchStart, searchEnd);
      Proper(q, s) && Searched(q, r) ==> Placed(s, r, size, searchStart, searchEnd)
  }

  /** An empty map in which, or a window with which, the search goes wrong. */
  ghost function Spoiler<E>(size: int, searchStart: int, e: E): (p: seq<Entry<Mapping<E>>>) {
    if size > 0 then [] else [Entry(if searchStart > 0 then searchStart - 1 else 0, Mapping(1, 0, e))]
  }

  ghost function Spoiled(size: int, searchStart: int, searchEnd: int): AddResult {
    if size > 0 then Added(searchStart) else if searchStart == 0 && searchEnd == 1 then NoRoom else Endless
  }

  lemma SpoilerWorks<E>(size: int, searchStart: int, searchEnd: int, e: E)
    requires Word(size) && Word(searchStart) && Word(searchEnd) && !Suited(size, searchStart, searchEnd)
    ensures var p, r := Spoiler(size, searchStart, e), Spoiled(size, searchStart, searchEnd);
      var q := Query(p, size, searchStart, searchEnd);
      Proper(q, p) && Searched(q, r) && !Placed(p, r, size, searchStart, searchEnd)
  {
    hide Forever;
    var q := Query(Spoiler(size, searchStart, e), size, searchStart, searchEnd);
    AtStart(q);
    if size == 0 {
      var w := q.windows[0];
      ZeroLimit(q);
      if searchStart > 0 {
        EmptyStandsStill(w, searchEnd);
      } else {
        NoMod(EndOf(w) - 1);
        NoMod(-1 + WORD);
        assert Overlaps<E>(0, 0)(w);
        NextOne(w, 0, 0);
        AtNext(q, 0);
        OneWindowForeverIff(w, 0, 0, searchEnd);
        assert Free(q.windows, 0, 0);
      }
    }
  }

  /** For all maps whose windows end below the top of the address space: the arguments always lead to the
      lowest free place, or to a refusal when there is none, exactly when they are suited. */
  lemma AlwaysPlacedIff<E(!new)>(size: int, searchStart: int, searchEnd: int, e: E)
    requires Word(size) && Word(searchStart) && Word(searchEnd)
    ensures AlwaysPlaced(size, searchStart, searchEnd, e) <==> Suited(size, searchStart, searchEnd)
  {
    hide Proper, Searched, Placed, Suited, Spoiler, Spoiled;
    if Suited(size, searchStart, searchEnd) {
      forall p: seq<Entry<Mapping<E>>>, s: seq<Entry<Mapping<E>>>, r: AddResult |
        Proper(Query(p, size, searchStart, searchEnd), s) && Searched(Query(p, size, searchStart, searchEnd), r)
        ensures Placed(s, r, size, searchStart, searchEnd)
      {
        SuitedPlaced(Query(p, size, searchStart, searchEnd), s, r);
      }
    } else {
      SpoilerWorks(size, searchStart, searchEnd, e);
    }
  }

  lemma SearchBegins<E>(q: Query<E>)
    ensures At(q, 0) == Some(q.searchStart) && Trail(q, 0, {})
  {
  }

  lemma RunsForever<E>(q: Query<E>, s: seq<Entry<Mapping<E>>>, n: nat, seen: set<int>)
    requires Proper(q, s) && Trail(q, n, seen) && At(q, n).Some? && At(q, n).value in seen
    ensures Searched(q, Endless) && Forever(q)
    ensures Suited(q.size, q.searchStart, q.searchEnd) ==> Placed(s, Endless, q.size, q.searchStart, q.searchEnd)
  {
    hide At, Forever, Trail, Placed, Proper, Limit;
    TrailRepeats(q, n, seen);
    if Suited(q.size, q.searchStart, q.searchEnd) { SuitedPlaced(q, s, Endless); }
  }

  lemma RunsOut<E>(q: Query<E>, s: seq<Entry<Mapping<E>>>, n: nat)
    requires Proper(q, s) && At(q, n).Some? && At(q, n).value >= q.Limited()
    ensures Searched(q, NoRoom) && !Forever(q)
    ensures Suited(q.size, q.searchStart, q.searchEnd) ==> Placed(s, NoRoom, q.size, q.searchStart, q.searchEnd)
  {
    hide At, Placed, Proper, Limit, Forever;
    var k := Stops(q, NoRoom);
    if Suited(q.size, q.searchStart, q.searchEnd) { SuitedPlaced(q, s, NoRoom); }
  }

  lemma FoundIsFree<E>(q: Query<E>, s: seq<Entry<Mapping<E>>>, base: int)
    requires Proper(q, s) && 0 < q.size && Word(base) && base + q.size <= WORD && Next(q.windows, base, q.size) == None
    ensures Free(s, base, q.size)
  {
    hide Windows;
    NextNone(q.windows, base, q.size);
    assert NoneWith(s, Overlaps(base, q.size)) by {
      forall i | 0 <= i < |s| ensures !Overlaps<E>(base, q.size)(s[i]) {
        assert s[i] in q.windows;
        var j :| 0 <= j < |q.windows| && q.windows[j] == s[i];
      }
    }
    TestIsFree(s, base, q.size);
  }

  lemma {:induction false} PreorderLength<V>(t: Tree<V>)
    ensures |Preorder(t)| == |Entries(t)|
  {
    if t.T? {
      PreorderLength(t.l);
      PreorderLength(t.r);
    }
  }
}
