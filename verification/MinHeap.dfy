/** `rt::MinHeap`: a binary heap in a vector, ordered by an integer key. */
module MinHeap {

  function Parent(i: int): int
    requires i > 0
  {
    (i - 1) / 2
  }

  function Left(i: int): int {
    2 * i + 1
  }

  function Right(i: int): int {
    2 * i + 2
  }

  /** No element is smaller than its parent, except possibly element `hole` (up) or the children of
      `top` (down); -1 stands for no exception. */
  ghost predicate Ordered<T>(s: seq<T>, key: T -> int, hole: int, top: int) {
    forall j :: 0 < j < |s| && j != hole && Parent(j) != top ==> key(s[Parent(j)]) <= key(s[j])
  }

  ghost predicate Heap<T>(s: seq<T>, key: T -> int) {
    Ordered(s, key, -1, -1)
  }

  /** The children of `i` are no smaller than its parent. */
  ghost predicate Bridged<T>(s: seq<T>, key: T -> int, i: int) {
    forall j :: 0 < j < |s| && i > 0 && Parent(j) == i && i < |s| ==> key(s[Parent(i)]) <= key(s[j])
  }

  /** The first element of a heap is a smallest one. */
  lemma {:induction false} HeapMin<T>(s: seq<T>, key: T -> int, i: int)
    requires Heap(s, key) && 0 <= i < |s|
    ensures key(s[0]) <= key(s[i])
    decreases i
  {
    if i > 0 {
      HeapMin(s, key, Parent(i));
    }
  }

  function Swapped<T>(s: seq<T>, i: int, j: int): seq<T>
    requires 0 <= i < |s| && 0 <= j < |s|
  {
    s[i := s[j]][j := s[i]]
  }

  lemma SwapKeeps<T>(s: seq<T>, i: int, j: int)
    requires 0 <= i < |s| && 0 <= j < |s|
    ensures multiset(Swapped(s, i, j)) == multiset(s)
  {
  }

  /** Swapping a too small element with its parent moves the exception up. */
  lemma SwapUp<T>(s: seq<T>, key: T -> int, i: int)
    requires 0 < i < |s| && Ordered(s, key, i, -1) && Bridged(s, key, i) && key(s[Parent(i)]) > key(s[i])
    ensures var s' := Swapped(s, i, Parent(i)); Ordered(s', key, Parent(i), -1) && Bridged(s', key, Parent(i))
  {
    var p := Parent(i);
    var s' := Swapped(s, i, p);
    forall j | 0 < j < |s| && j != p ensures key(s'[Parent(j)]) <= key(s'[j]) {
      if Parent(j) == i {
        assert j != i && j != p;
      }
    }
    forall j | 0 < j < |s| && p > 0 && Parent(j) == p ensures key(s'[Parent(p)]) <= key(s'[j]) {
      assert key(s[Parent(p)]) <= key(s[p]);
    }
  }

  lemma UpDone<T>(s: seq<T>, key: T -> int, i: int)
    requires 0 <= i && Ordered(s, key, i, -1) && (0 < i < |s| ==> key(s[Parent(i)]) <= key(s[i]))
    ensures Heap(s, key)
  {
  }

  /** Index of the smallest among element `i` and its children, preferring `i`, then the left. */
  function Smallest<T>(s: seq<T>, key: T -> int, i: int): int
    requires 0 <= i
  {
    var m := if Left(i) < |s| && key(s[Left(i)]) < key(s[i]) then Left(i) else i;
    if Right(i) < |s| && key(s[Right(i)]) < key(s[m]) then Right(i) else m
  }

  /** Swapping a too large element with its smaller child moves the exception down. */
  lemma SwapDown<T>(s: seq<T>, key: T -> int, i: int)
    requires 0 <= i < |s| && Ordered(s, key, -1, i) && Bridged(s, key, i) && Smallest(s, key, i) != i
    ensures var m := Smallest(s, key, i);
      var s' := Swapped(s, i, m); Ordered(s', key, -1, m) && Bridged(s', key, m)
  {
    var m := Smallest(s, key, i);
    var s' := Swapped(s, i, m);
    assert Parent(m) == i;
    forall j | 0 < j < |s| && Parent(j) != m ensures key(s'[Parent(j)]) <= key(s'[j]) {
      if Parent(j) == i {
        assert j == Left(i) || j == Right(i);
      } else {
        assert j == i ==> key(s[Parent(i)]) <= key(s[m]);
      }
    }
    forall j | 0 < j < |s| && Parent(j) == m ensures key(s'[i]) <= key(s'[j]) {
      assert j != i && j != m;
    }
  }

  lemma DownDone<T>(s: seq<T>, key: T -> int, i: int)
    requires 0 <= i && Ordered(s, key, -1, i) && (i < |s| ==> Smallest(s, key, i) == i)
    ensures Heap(s, key)
  {
    forall j | 0 < j < |s| ensures key(s[Parent(j)]) <= key(s[j]) {
      assert Parent(j) == i ==> j == Left(i) || j == Right(i);
    }
  }

  class MinHeap<T> {
    const key: T -> int
    var storage: seq<T>

    ghost predicate Valid()
      reads this
    {
      Heap(storage, key)
    }

    constructor (key: T -> int)
      ensures Valid() && storage == [] && this.key == key
    {
      this.key := key;
      storage := [];
    }

    method HeapifyUp(i: int)
      requires 0 <= i < |storage| || i == 0
      requires Ordered(storage, key, i, -1) && Bridged(storage, key, i)
      modifies this
      ensures Valid() && multiset(storage) == old(multiset(storage)) && |storage| == old(|storage|)
      decreases i
    {
      if i != 0 && key(storage[Parent(i)]) > key(storage[i]) {
        SwapUp(storage, key, i);
        SwapKeeps(storage, i, Parent(i));
        storage := Swapped(storage, i, Parent(i));
        HeapifyUp(Parent(i));
      } else {
        UpDone(storage, key, i);
      }
    }

    method HeapifyDown(i: int)
      requires 0 <= i && Ordered(storage, key, -1, i) && Bridged(storage, key, i)
      modifies this
      ensures Valid() && multiset(storage) == old(multiset(storage)) && |storage| == old(|storage|)
      decreases |storage| - i
    {
      var smallest := i;
      if Left(i) < |storage| && key(storage[Left(i)]) < key(storage[i]) {
        smallest := Left(i);
      }
      if Right(i) < |storage| && key(storage[Right(i)]) < key(storage[smallest]) {
        smallest := Right(i);
      }
      if smallest != i {
        SwapDown(storage, key, i);
        SwapKeeps(storage, i, smallest);
        storage := Swapped(storage, i, smallest);
        HeapifyDown(smallest);
      } else {
        DownDone(storage, key, i);
      }
    }

    method Insert(x: T)
      requires Valid()
      modifies this
      ensures Valid() && multiset(storage) == old(multiset(storage)) + multiset{x}
    {
      storage := storage + [x];
      HeapifyUp(|storage| - 1);
    }

    /** Takes out a smallest element, the one `Min` returns. */
    method Extract()
      requires Valid() && storage != []
      modifies this
      ensures Valid() && multiset(storage) == old(multiset(storage)) - multiset{old(storage[0])}
      ensures |storage| == old(|storage|) - 1
    {
      ghost var s := storage;
      var last := |storage| - 1;
      storage := storage[0 := storage[last]];
      storage := storage[..last];
      PopFront(s, key);
      HeapifyDown(0);
    }

    method Min() returns (x: T)
      requires Valid() && storage != []
      ensures x == storage[0] && x in storage && forall y :: y in storage ==> key(x) <= key(y)
    {
      x := storage[0];
      forall i | 0 <= i < |storage| ensures key(x) <= key(storage[i]) { HeapMin(storage, key, i); }
    }

    /** Takes out the element at an index: the last one replaces it and moves up or down, as the
        comparison of the two says. */
    method Remove(i: int)
      requires Valid() && 0 <= i < |storage|
      modifies this
      ensures Valid() && multiset(storage) == old(multiset(storage)) - multiset{old(storage[i])}
    {
      ghost var s := storage;
      var last := |storage| - 1;
      var down := !(key(storage[i]) > key(storage[last]));
      storage := Swapped(storage, i, last);
      storage := storage[..last];
      if down {
        PopAtDown(s, key, i);
        HeapifyDown(i);
      } else {
        PopAtUp(s, key, i);
        HeapifyUp(i);
      }
    }
  }

  /** A heap whose first element was replaced by its last. */
  lemma PopFront<T>(s: seq<T>, key: T -> int)
    requires Heap(s, key) && s != []
    ensures var s' := s[0 := s[|s| - 1]][..|s| - 1];
      Ordered(s', key, -1, 0) && Bridged(s', key, 0) && multiset(s') == multiset(s) - multiset{s[0]}
  {
    PopSwap(s, 0);
    assert s[0 := s[|s| - 1]][..|s| - 1] == Swapped(s, 0, |s| - 1)[..|s| - 1];
  }

  lemma PopSwap<T>(s: seq<T>, i: int)
    requires 0 <= i < |s|
    ensures multiset(Swapped(s, i, |s| - 1)[..|s| - 1]) == multiset(s) - multiset{s[i]}
  {
    var s' := Swapped(s, i, |s| - 1);
    SwapKeeps(s, i, |s| - 1);
    assert s' == s'[..|s| - 1] + [s[i]];
  }

  lemma PopAtDown<T>(s: seq<T>, key: T -> int, i: int)
    requires Heap(s, key) && 0 <= i < |s| && key(s[i]) <= key(s[|s| - 1])
    ensures var s' := Swapped(s, i, |s| - 1)[..|s| - 1];
      Ordered(s', key, -1, i) && Bridged(s', key, i) && multiset(s') == multiset(s) - multiset{s[i]}
  {
    PopSwap(s, i);
  }

  lemma PopAtUp<T>(s: seq<T>, key: T -> int, i: int)
    requires Heap(s, key) && 0 <= i < |s| && key(s[i]) > key(s[|s| - 1])
    ensures var s' := Swapped(s, i, |s| - 1)[..|s| - 1];
      i < |s'| && Ordered(s', key, i, -1) && Bridged(s', key, i) && multiset(s') == multiset(s) - multiset{s[i]}
  {
    PopSwap(s, i);
  }
}
