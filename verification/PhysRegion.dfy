/** `mem::PhysRegion`: a run of physical pages with a bitmap of the free ones. */
module PhysRegion {
  import opened Bits
  import opened Bitmap

  const PAGE := 4096
  const MIN_PAGES := 4
  const MAX_PAGES := 24576
  const WORDS := 384

  predicate CanAllocate(length: int) {
    length > PAGE * MIN_PAGES
  }

  /** Pages that one region object manages of a run of that many bytes. */
  function Managed(length: int): (n: int)
    requires length >= PAGE * MIN_PAGES
    ensures MIN_PAGES <= n <= MAX_PAGES && n * PAGE <= length
    ensures n < MAX_PAGES ==> length < n * PAGE + PAGE
  {
    if length / PAGE > MAX_PAGES then MAX_PAGES else length / PAGE
  }

  /** A bitmap of `WORDS` words. */
  predicate IsBitmap(m: seq<nat>) {
    |m| == WORDS && forall i :: 0 <= i < WORDS ==> m[i] < Pow2(64)
  }

  /** Page `k` is free: its bit is set. */
  predicate IsFree(m: seq<nat>, k: int)
    requires |m| == WORDS
  {
    0 <= k < MAX_PAGES && Bit(m[k / 64], k % 64)
  }

  lemma SetFree(m: seq<nat>, k: int)
    requires IsBitmap(m) && 0 <= k < MAX_PAGES
    ensures var m' := m[k / 64 := WithBit(m[k / 64], k % 64)];
      IsBitmap(m') && forall j :: IsFree(m', j) <==> IsFree(m, j) || j == k
  {
    hide Bit, Pow2, WithBit;
    WithBitIs(m[k / 64], k % 64);
    var m' := m[k / 64 := WithBit(m[k / 64], k % 64)];
    forall j | 0 <= j < MAX_PAGES ensures IsFree(m', j) <==> IsFree(m, j) || j == k {
      assert j / 64 == k / 64 && j % 64 == k % 64 ==> j == k;
    }
  }

  lemma ClearFree(m: seq<nat>, k: int)
    requires IsBitmap(m) && 0 <= k < MAX_PAGES
    ensures var m' := m[k / 64 := WithoutBit(m[k / 64], k % 64)];
      IsBitmap(m') && forall j :: IsFree(m', j) <==> IsFree(m, j) && j != k
  {
    hide Bit, Pow2, WithoutBit;
    WithoutBitIs(m[k / 64], k % 64);
    var m' := m[k / 64 := WithoutBit(m[k / 64], k % 64)];
    forall j | 0 <= j < MAX_PAGES ensures IsFree(m', j) <==> IsFree(m, j) && j != k {
      assert j / 64 == k / 64 && j % 64 == k % 64 ==> j == k;
    }
  }

  /** A word of the bitmap is zero exactly when none of its 64 pages is free. */
  lemma EmptyWord(m: seq<nat>, i: int)
    requires IsBitmap(m) && 0 <= i < WORDS
    ensures m[i] == 0 ==> forall k :: 64 * i <= k < 64 * i + 64 ==> !IsFree(m, k)
    ensures m[i] != 0 ==> Lowest(m[i]) < 64 && IsFree(m, 64 * i + Lowest(m[i]))
  {
    hide Pow2, Bit, Lowest;
    if m[i] == 0 {
      forall k | 64 * i <= k < 64 * i + 64 ensures !IsFree(m, k) {
        InWord(i, k - 64 * i);
        NoBits(k - 64 * i);
      }
    } else {
      BitBound(m[i], 64, Lowest(m[i]));
      InWord(i, Lowest(m[i]));
    }
  }

  lemma InWord(i: int, j: int)
    requires 0 <= i && 0 <= j < 64
    ensures (64 * i + j) / 64 == i && (64 * i + j) % 64 == j
  {
  }

  class Region {
    const base: int
    const length: int
    const pages: int
    var bitmap: seq<nat>
    var lastAllocIdx: int
    var next: Region?

    /** No bit is set from `bitmapMax` on, which is one less than the number of pages: the last page
        is never handed out. */
    ghost predicate Valid()
      reads this`bitmap, this`lastAllocIdx
    {
      && MIN_PAGES <= pages <= MAX_PAGES && IsBitmap(bitmap)
      && (forall k :: IsFree(bitmap, k) ==> k < pages - 1)
      && 0 <= lastAllocIdx <= WORDS
    }

    constructor (base: int, length: int)
      requires length >= PAGE * MIN_PAGES
      ensures Valid() && this.base == base && this.length == length && pages == Managed(length) && next == null
      ensures AllFree(this)
    {
      this.base, this.length, this.pages := base, length, Managed(length);
      bitmap, lastAllocIdx, next := seq(WORDS, _ => 0), 0, null;
      new;
      forall k ensures !IsFree(bitmap, k) {
        if 0 <= k < MAX_PAGES { NoBits(k % 64); }
      }
      for i := 0 to pages - 1
        invariant lastAllocIdx == 0 && next == null && IsBitmap(bitmap)
        invariant forall k :: IsFree(bitmap, k) <==> 0 <= k < i
      {
        SetFree(bitmap, i);
        bitmap := bitmap[i / 64 := WithBit(bitmap[i / 64], i % 64)];
      }
    }

    /** Scans the words from the hint up; a page found is taken. */
    method Scan() returns (found: bool, page: int, ghost k: int)
      requires Valid()
      modifies this`bitmap, this`lastAllocIdx
      ensures Valid()
      ensures found ==> Took(old(bitmap), bitmap, k) && page == base + k * PAGE
      ensures !found ==> bitmap == old(bitmap) && lastAllocIdx == old(lastAllocIdx)
      ensures !found ==> forall j :: 64 * lastAllocIdx <= j ==> !IsFree(bitmap, j)
    {
      hide Pow2, Bit, IsFree, WithoutBit;
      var maxIdx := (pages - 1 + 63) / 64;
      var i := lastAllocIdx;
      while i < maxIdx
        invariant bitmap == old(bitmap) && lastAllocIdx == old(lastAllocIdx) && lastAllocIdx <= i
        invariant IsBitmap(bitmap) && forall j :: 64 * lastAllocIdx <= j < 64 * i ==> !IsFree(bitmap, j)
      {
        EmptyWord(bitmap, i);
        if bitmap[i] != 0 {
          var bitOff := Lowest(bitmap[i]);
          var pageOff := i * 64 + bitOff;
          ClearFree(bitmap, pageOff);
          bitmap := bitmap[i := WithoutBit(bitmap[i], bitOff)];
          lastAllocIdx := i;
          return true, base + pageOff * PAGE, pageOff;
        }
        i := i + 1;
      }
      return false, 0, 0;
    }

    /** `alloc`: takes a free page if there is one anywhere, wherever the hint points; 0 is failure. */
    method Alloc() returns (page: int, ghost k: int)
      requires Valid()
      modifies this`bitmap, this`lastAllocIdx
      ensures Valid()
      ensures !Exhausted(old(bitmap)) ==>
        Took(old(bitmap), bitmap, k) && 0 <= k < pages - 1 && page == base + k * PAGE
      ensures Exhausted(old(bitmap)) ==> page == 0 && bitmap == old(bitmap)
    {
      var found;
      found, page, k := Scan();
      if !found && lastAllocIdx != 0 {
        lastAllocIdx := 0;
        found, page, k := Scan();
      }
      if !found {
        page := 0;
      }
    }

    predicate CheckAddress(address: int) {
      base <= address < base + pages * PAGE
    }

    /** `free` of one page: an address of another region is ignored; `ok` is false where the source
        stops because the page is one it never hands out. */
    method Free(page: int) returns (ok: bool)
      requires Valid()
      modifies this`bitmap
      ensures ok <==> !CheckAddress(page) || (page - base) / PAGE < pages - 1
      ensures !ok || !CheckAddress(page) ==> bitmap == old(bitmap)
      ensures ok ==> Valid()
      ensures ok && CheckAddress(page) ==>
        forall j :: IsFree(bitmap, j) <==> IsFree(old(bitmap), j) || j == (page - base) / PAGE
    {
      if !CheckAddress(page) {
        return true;
      }
      var pageOff := (page - base) / PAGE;
      if pageOff >= pages - 1 {
        return false;
      }
      SetFree(bitmap, pageOff);
      bitmap := bitmap[pageOff / 64 := WithBit(bitmap[pageOff / 64], pageOff % 64)];
      return true;
    }

    /** `initNextIfNeeded`: appends regions for the memory this one does not manage. They follow one
        another without gap or overlap and leave at most `MIN_PAGES` pages of the run unmanaged. */
    method InitNext() returns (ghost chain: seq<Region>)
      requires Valid() && length >= PAGE * MIN_PAGES && pages == Managed(length) && next == null
      modifies this`next
      ensures |chain| >= 1 && chain[0] == this && Linked(chain) && Consecutive(chain)
      ensures forall i :: 1 <= i < |chain| ==> fresh(chain[i]) && Ready(chain[i])
      ensures base + length - EndOf(chain) <= PAGE * MIN_PAGES && EndOf(chain) <= base + length
    {
      hide Ready, Linked, Consecutive;
      var offset := pages * PAGE;
      var remaining := length - offset;
      var region := this;
      chain := [this];
      OneLinked(this);
      while CanAllocate(remaining)
        invariant remaining == length - offset && 0 <= remaining
        invariant |chain| >= 1 && chain[0] == this && region == chain[|chain| - 1]
        invariant Linked(chain) && Consecutive(chain)
        invariant forall i :: 1 <= i < |chain| ==> fresh(chain[i]) && Ready(chain[i])
        invariant EndOf(chain) == base + offset
        decreases remaining
      {
        var child := region.AddChild(base + offset, length - offset, chain);
        MoreConsecutive(chain, child);
        chain := chain + [child];
        region := child;
        offset := offset + child.pages * PAGE;
        remaining := remaining - child.pages * PAGE;
      }
    }

    /** A new region behind the last one of a chain. */
    method AddChild(base': int, length': int, ghost chain: seq<Region>) returns (child: Region)
      requires length' >= PAGE * MIN_PAGES && |chain| >= 1 && chain[|chain| - 1] == this && Linked(chain)
      modifies this`next
      ensures fresh(child) && Ready(child) && Linked(chain + [child])
      ensures child.base == base' && child.pages == Managed(length')
    {
      child := new Region(base', length');
      assert forall i :: 0 <= i < |chain| - 1 ==> chain[i].next == chain[i + 1] && chain[i] != this;
      next := child;
    }
  }

  /** A region as it is after construction. */
  ghost predicate Ready(r: Region)
    reads r`bitmap, r`lastAllocIdx
  {
    r.Valid() && AllFree(r)
  }

  lemma OneLinked(r: Region)
    requires r.next == null
    ensures Linked([r]) && Consecutive([r])
  {
  }

  lemma MoreConsecutive(chain: seq<Region>, r: Region)
    requires |chain| >= 1 && Consecutive(chain) && r.base == EndOf(chain)
    ensures Consecutive(chain + [r])
  {
    var s := chain + [r];
    forall i | 0 <= i < |s| - 1 ensures s[i + 1].base == s[i].base + s[i].pages * PAGE {
      if i + 1 < |chain| { assert s[i + 1] == chain[i + 1]; }
    }
  }

  /** No page is free. */
  predicate Exhausted(m: seq<nat>) {
    |m| == WORDS && forall k :: 0 <= k < MAX_PAGES ==> !IsFree(m, k)
  }

  /** Page `k` was free and has been taken, and nothing else changed. */
  ghost predicate Took(m: seq<nat>, m': seq<nat>, k: int)
    requires |m| == WORDS && |m'| == WORDS
  {
    IsFree(m, k) && forall j :: IsFree(m', j) <==> IsFree(m, j) && j != k
  }

  ghost predicate AllFree(r: Region)
    reads r`bitmap
  {
    |r.bitmap| == WORDS && forall k :: IsFree(r.bitmap, k) <==> 0 <= k < r.pages - 1
  }

  /** The regions are linked through `next`, in order. */
  ghost predicate Linked(chain: seq<Region>)
    reads chain`next
  {
    && (forall i, j :: 0 <= i < j < |chain| ==> chain[i] != chain[j])
    && (forall i :: 0 <= i < |chain| ==> chain[i].next == if i + 1 < |chain| then chain[i + 1] else null)
  }

  /** Each region starts where the one before it ends. */
  ghost predicate Consecutive(chain: seq<Region>) {
    forall i :: 0 <= i < |chain| - 1 ==> chain[i + 1].base == chain[i].base + chain[i].pages * PAGE
  }

  ghost function EndOf(chain: seq<Region>): int
    requires |chain| >= 1
  {
    chain[|chain| - 1].base + chain[|chain| - 1].pages * PAGE
  }
}
