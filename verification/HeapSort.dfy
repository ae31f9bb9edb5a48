/**
 The in-place heap sort of include/HeapSort.h, with its 32-bit indices.
 */
module HeapSort {
  import opened Word

  /** Beyond this size the index of a left child could leave 32 bits. */
  const MAX_SIZE: int := 0x4000_0000

  /** Half of a number as C++ computes it, rounded towards zero. */
  function Half(x: int32): int32
    requires x > -0x8000_0000
  {
    if x >= 0 then x / 2 else -(-x / 2)
  }

  /** The loop test computes `root * 2 + 1` for every root it reaches; it always fits exactly up to this size. */
  lemma LeftChildFits(size: int)
    requires 0 <= size < 0x8000_0000
    ensures (forall root :: 0 <= root < size ==> LeftChild(root) < 0x8000_0000) <==> size <= MAX_SIZE
  {
    if size > MAX_SIZE {
      assert LeftChild(size - 1) >= 0x8000_0000;
    }
  }

  function LeftChild(k: int): int {
    k * 2 + 1
  }

  function Parent(k: int): int {
    (k - 1) / 2
  }

  /** Exchanging two elements. */
  function Swapped<T>(s: seq<T>, i: int, j: int): seq<T>
    requires 0 <= i < |s| && 0 <= j < |s|
  {
    s[i := s[j]][j := s[i]]
  }

  lemma SwapPermutes<T>(s: seq<T>, i: int, j: int)
    requires 0 <= i < |s| && 0 <= j < |s|
    ensures multiset(Swapped(s, i, j)) == multiset(s)
  {
  }

  /** Lists that agree from n on are permutations only if their first parts are. */
  lemma PrefixPermutes<T>(s: seq<T>, t: seq<T>, n: nat)
    requires multiset(s) == multiset(t) && n <= |s| == |t| && s[n..] == t[n..]
    ensures multiset(s[..n]) == multiset(t[..n])
  {
    assert s == s[..n] + s[n..] && t == t[..n] + t[n..];
    assert multiset(s[..n]) == multiset(s) - multiset(s[n..]);
    assert multiset(t[..n]) == multiset(t) - multiset(t[n..]);
  }

  lemma MemberOfPermutation<T>(s: seq<T>, t: seq<T>, k: nat)
    requires multiset(s) == multiset(t) && k < |s|
    ensures s[k] in t
  {
    assert s[k] in multiset(s);
  }

  class Sorter<T(!new)> {
    /** Negative if the first argument comes before the second. */
    const compare: (T, T) -> int32

    constructor (compare: (T, T) -> int32)
      ensures this.compare == compare
    {
      this.compare := compare;
    }

    predicate Leq(x: T, y: T) {
      !(compare(y, x) < 0)
    }

    /** A total preorder: neither element before the other means they are equal in rank. */
    ghost predicate Preorder() {
      && (forall x, y :: Leq(x, y) || Leq(y, x))
      && (forall x, y, z :: Leq(x, y) && Leq(y, z) ==> Leq(x, z))
    }

    ghost predicate Sorted(s: seq<T>) {
      forall i, j :: 0 <= i < j < |s| ==> Leq(s[i], s[j])
    }

    /** No entry up to `high` is above its parent, for parents from `low` on. */
    ghost predicate Heap(s: seq<T>, low: int, high: int) {
      high < |s| && forall k :: 1 <= k <= high && low <= Parent(k) ==> Leq(s[k], s[Parent(k)])
    }

    /** A heap except that `root` may be below its children; they are not above its parent either. */
    ghost predicate HeapBut(s: seq<T>, low: int, high: int, root: int) {
      && 0 <= low <= root <= high < |s|
      && (forall k :: 1 <= k <= high && low <= Parent(k) && Parent(k) != root ==> Leq(s[k], s[Parent(k)]))
      && (root > low && Parent(root) >= low ==>
            forall k :: 1 <= k <= high && Parent(k) == root ==> Leq(s[k], s[Parent(root)]))
    }

    /** The root of a heap is its maximum. */
    lemma {:induction false} RootIsMaximum(s: seq<T>, high: int, k: int)
      requires Preorder() && Heap(s, 0, high) && 0 <= k <= high
      ensures Leq(s[k], s[0])
      decreases k
    {
      if k > 0 {
        RootIsMaximum(s, high, Parent(k));
      }
    }

    /** Moving the larger child up keeps the heap, but for the place the root has gone to. */
    lemma SwapDown(s: seq<T>, low: int, high: int, root: int, child: int)
      requires Preorder() && HeapBut(s, low, high, root) && root < child <= high && Parent(child) == root
      requires Leq(s[root], s[child])
      requires forall k :: 1 <= k <= high && Parent(k) == root ==> Leq(s[k], s[child])
      ensures HeapBut(Swapped(s, root, child), low, high, child)
    {
      var t := Swapped(s, root, child);
      forall k | 1 <= k <= high && low <= Parent(k) && Parent(k) != child ensures Leq(t[k], t[Parent(k)]) {
        if Parent(k) == root {
          assert t[Parent(k)] == s[child];
        } else if k == root {
          assert t[k] == s[child] && t[Parent(k)] == s[Parent(root)];
        } else {
          assert t[k] == s[k] && t[Parent(k)] == s[Parent(k)];
        }
      }
      forall k | 1 <= k <= high && Parent(k) == child ensures Leq(t[k], t[Parent(child)]) {
        assert t[k] == s[k] && t[Parent(child)] == s[child];
      }
    }

    /** When neither child is above the root, the heap is whole. */
    lemma Settled(s: seq<T>, low: int, high: int, root: int)
      requires HeapBut(s, low, high, root)
      requires forall k :: 1 <= k <= high && Parent(k) == root ==> Leq(s[k], s[root])
      ensures Heap(s, low, high)
    {
    }

    /** The larger of the root and its children. */
    method Largest(arr: array<T>, root: int32, high: int32) returns (swapIdx: int32)
      requires Preorder() && 0 <= root as int <= high as int < arr.Length && high as int < MAX_SIZE
      requires root * 2 + 1 <= high
      ensures swapIdx == root || (root < swapIdx <= high && Parent(swapIdx as int) == root as int)
      ensures Leq(arr[root], arr[swapIdx])
      ensures forall k :: 1 <= k <= high as int && Parent(k) == root as int ==> Leq(arr[k], arr[swapIdx])
    {
      var leftChild := root * 2 + 1;
      var rightChild := leftChild + 1;
      swapIdx := root;
      if compare(arr[swapIdx], arr[leftChild]) < 0 {
        swapIdx := leftChild;
      }
      assert Leq(arr[root], arr[swapIdx]) && Leq(arr[leftChild], arr[swapIdx]);
      if rightChild <= high && compare(arr[swapIdx], arr[rightChild]) < 0 {
        swapIdx := rightChild;
      }
      assert forall k :: Parent(k) == root as int ==> k == leftChild as int || k == rightChild as int;
    }

    method Swap(arr: array<T>, i: int32, j: int32)
      requires 0 <= i as int < arr.Length && 0 <= j as int < arr.Length
      modifies arr
      ensures arr[..] == Swapped(old(arr[..]), i as int, j as int)
      ensures forall k :: 0 <= k < arr.Length && k != i as int && k != j as int ==> arr[k] == old(arr[k])
      ensures multiset(arr[..]) == multiset(old(arr[..]))
    {
      SwapPermutes(arr[..], i as int, j as int);
      var tmp := arr[i];
      arr[i] := arr[j];
      arr[j] := tmp;
    }

    /** Sifts the entry at `low` down; everything else in reach was a heap already. */
    method ShiftRight(arr: array<T>, low: int32, high: int32)
      requires Preorder() && 0 <= low && -1 <= high && (high as int) < arr.Length && (high as int) < MAX_SIZE
      requires low as int < MAX_SIZE && Heap(arr[..], low as int + 1, high as int)
      modifies arr
      ensures Heap(arr[..], low as int, high as int)
      ensures multiset(arr[..]) == multiset(old(arr[..]))
      ensures forall k :: high as int < k < arr.Length ==> arr[k] == old(arr[k])
      ensures forall k :: 0 <= k < low as int && k < arr.Length ==> arr[k] == old(arr[k])
    {
      hide HeapBut;
      hide Heap;
      hide Preorder;
      hide Swapped;
      Unsettled(arr[..], low as int, high as int);
      var root := low;
      while root * 2 + 1 <= high
        invariant low <= root && (root as int) < MAX_SIZE && (root <= high || root == low)
        invariant root <= high ==> HeapBut(arr[..], low as int, high as int, root as int)
        invariant root > high ==> Heap(arr[..], low as int, high as int)
        invariant multiset(arr[..]) == multiset(old(arr[..]))
        invariant forall k :: high as int < k < arr.Length ==> arr[k] == old(arr[k])
        invariant forall k :: 0 <= k < low as int && k < arr.Length ==> arr[k] == old(arr[k])
        decreases high as int - root as int
      {
        ghost var s := arr[..];
        var swapIdx := Largest(arr, root, high);
        if swapIdx != root {
          SwapDown(s, low as int, high as int, root as int, swapIdx as int);
          Swap(arr, root, swapIdx);
          root := swapIdx;
        } else {
          Settled(s, low as int, high as int, root as int);
          return;
        }
      }
      if root <= high {
        Settled(arr[..], low as int, high as int, root as int);
      }
    }

    /** A heap above a node is a heap from that node on except for the node itself. */
    lemma Unsettled(s: seq<T>, low: int, high: int)
      requires Heap(s, low + 1, high) && 0 <= low
      ensures if low <= high then HeapBut(s, low, high, low) else Heap(s, low, high)
    {
    }

    /** Makes a heap of the whole array. */
    method Heapify(arr: array<T>, low: int32, high: int32)
      requires Preorder() && low == 0 && -1 <= high && (high as int) < arr.Length && (high as int) < MAX_SIZE
      modifies arr
      ensures Heap(arr[..], 0, high as int)
      ensures multiset(arr[..]) == multiset(old(arr[..]))
      ensures forall k :: high as int < k < arr.Length ==> arr[k] == old(arr[k])
    {
      var midIdx := Half(high - low - 1);
      while midIdx >= 0
        invariant -1 <= midIdx && (midIdx as int) < MAX_SIZE
        invariant Heap(arr[..], midIdx as int + 1, high as int)
        invariant multiset(arr[..]) == multiset(old(arr[..]))
        invariant forall k :: high as int < k < arr.Length ==> arr[k] == old(arr[k])
      {
        ShiftRight(arr, midIdx, high);
        midIdx := midIdx - 1;
      }
    }

    /** The entries from `high + 1` to `size` are in their final places. */
    ghost predicate Placed(s: seq<T>, high: int, size: int) {
      && -1 <= high < size <= |s|
      && Sorted(s[high + 1..size])
      && forall i, j :: 0 <= i <= high < j < size ==> Leq(s[i], s[j])
    }

    /** Putting the maximum of the heap behind it. */
    lemma Extract(s: seq<T>, high: int, size: int)
      requires Preorder() && 0 < high && Heap(s, 0, high) && Placed(s, high, size)
      ensures var t := Swapped(s, high, 0);
        Heap(t, 1, high - 1) && Placed(t, high - 1, size)
    {
      var t := Swapped(s, high, 0);
      forall k | 0 <= k <= high ensures Leq(s[k], s[0]) {
        RootIsMaximum(s, high, k);
      }
      forall i, j | 0 <= i < j < size && high <= j ensures Leq(t[i], t[j]) {
        if i < high {
          assert t[i] == s[if i == 0 then high else i];
          assert t[j] == s[if j == high then 0 else j];
        } else {
          assert t[i] == s[if i == high then 0 else i] && t[j] == s[j];
          if i > high {
            assert s[i] == s[high + 1..size][i - high - 1] && s[j] == s[high + 1..size][j - high - 1];
          }
        }
      }
    }

    /** Rearranging what is not placed yet. */
    lemma StillPlaced(s: seq<T>, t: seq<T>, high: int, size: int)
      requires Placed(s, high, size) && |t| == |s| && s[high + 1..] == t[high + 1..] && multiset(s) == multiset(t)
      ensures Placed(t, high, size)
    {
      PrefixPermutes(s, t, high + 1);
      forall k | high < k < |s| ensures s[k] == t[k] {
        assert s[k] == s[high + 1..][k - high - 1] && t[k] == t[high + 1..][k - high - 1];
      }
      assert s[high + 1..size] == t[high + 1..size];
      forall i, j | 0 <= i <= high < j < size ensures Leq(t[i], t[j]) {
        MemberOfPermutation(t[..high + 1], s[..high + 1], i);
        var m :| 0 <= m < high + 1 && s[..high + 1][m] == t[i];
        assert Leq(s[m], s[j]);
      }
    }

    lemma NonePlaced(s: seq<T>, size: int)
      requires 0 < size <= |s|
      ensures Placed(s, size - 1, size)
    {
    }

    /** One entry that is not placed is the smallest. */
    lemma AllPlaced(s: seq<T>, size: int)
      requires Placed(s, 0, size)
      ensures Sorted(s[..size])
    {
      forall i, j | 0 <= i < j < size ensures Leq(s[..size][i], s[..size][j]) {
        if i > 0 {
          assert s[i] == s[1..size][i - 1] && s[j] == s[1..size][j - 1];
        }
      }
    }

    /** Takes the maximum off the heap until it is empty. */
    method TakeAll(arr: array<T>, size: int32)
      requires Preorder() && 0 < size as int <= arr.Length && size as int <= MAX_SIZE
      requires Heap(arr[..], 0, size as int - 1)
      modifies arr
      ensures Sorted(arr[..size])
      ensures multiset(arr[..]) == multiset(old(arr[..]))
      ensures forall k :: size as int <= k < arr.Length ==> arr[k] == old(arr[k])
    {
      hide Heap;
      hide Placed;
      NonePlaced(arr[..], size as int);
      var high := size - 1;
      while high > 0
        invariant 0 <= high < size
        invariant Heap(arr[..], 0, high as int)
        invariant multiset(arr[..]) == multiset(old(arr[..]))
        invariant forall k :: size as int <= k < arr.Length ==> arr[k] == old(arr[k])
        invariant Placed(arr[..], high as int, size as int)
      {
        Extract(arr[..], high as int, size as int);
        Swap(arr, high, 0);
        high := high - 1;
        ghost var s := arr[..];
        ShiftRight(arr, 0, high);
        assert s[high as int + 1..] == arr[..][high as int + 1..];
        StillPlaced(s, arr[..], high as int, size as int);
      }
      AllPlaced(arr[..], size as int);
      assert arr[..][..size] == arr[..size];
    }

    /** Sorts the first `size` entries. */
    method Sort(arr: array<T>, size: int32)
      requires Preorder() && 0 <= size as int <= arr.Length && size as int <= MAX_SIZE
      modifies arr
      ensures Sorted(arr[..size])
      ensures multiset(arr[..size]) == multiset(old(arr[..size]))
      ensures arr[size..] == old(arr[size..])
    {
      Heapify(arr, 0, size - 1);
      if size > 0 {
        TakeAll(arr, size);
      }
      assert arr[size..] == old(arr[size..]);
      PrefixPermutes(old(arr[..]), arr[..], size as int);
      assert old(arr[..])[..size] == old(arr[..size]) && arr[..][..size] == arr[..size];
    }
  }
}
