/** minHeap of thread-worker.h: an array that doubles when full, changed in place by the sift loops. */
module HeapMachine {
  import opened Heap

  class MinHeap {
    var arr: array<Tcb?>
    var threads: nat
    var threshold: nat

    ghost predicate Valid()
      reads this, arr
    {
      && 1 <= threshold == arr.Length && threads <= threshold
      && forall i :: 0 <= i < threads ==> arr[i] != null
    }

    ghost function Contents(): (s: seq<Tcb>)
      requires Valid()
      reads this, arr
      ensures |s| == threads
    {
      arr[..threads]
    }

    /** initHeap; a capacity of 0 could never grow. */
    constructor (capacity: nat)
      requires capacity >= 1
      ensures Valid() && fresh(arr) && threshold == capacity && Contents() == []
    {
      arr := new Tcb?[capacity](_ => null);
      threads, threshold := 0, capacity;
    }

    /** heapResize */
    method HeapResize()
      requires Valid()
      modifies this
      ensures Valid() && fresh(arr) && threshold == 2 * old(threshold)
      ensures threads == old(threads) && Contents() == old(Contents())
    {
      var newArr := new Tcb?[threshold * 2](_ => null);
      forall i | 0 <= i < threads {
        newArr[i] := arr[i];
      }
      arr, threshold := newArr, threshold * 2;
    }

    /** The first n slots, all of them in use. */
    ghost predicate Filled(n: nat)
      reads this, arr
    {
      n <= arr.Length && forall i :: 0 <= i < n ==> arr[i] != null
    }

    ghost function Slots(n: nat): (s: seq<Tcb>)
      requires Filled(n)
      reads this, arr
      ensures |s| == n
    {
      arr[..n]
    }

    /** The sift-up loop, on the first n slots from idx0 on. */
    method SiftUpLoop(n: nat, idx0: nat)
      requires Filled(n) && idx0 < n
      modifies arr
      ensures Filled(n) && Slots(n) == SiftUp(old(Slots(n)), idx0)
      ensures arr[n..] == old(arr[n..])
    {
      var idx := idx0;
      while idx > 0
        invariant 0 <= idx < n && Filled(n)
        invariant SiftUp(Slots(n), idx) == SiftUp(old(Slots(n)), idx0)
        invariant arr[n..] == old(arr[n..])
      {
        var parent := Parent(idx);
        if arr[idx].timeQuant >= arr[parent].timeQuant {
          break;
        }
        ghost var s := Slots(n);
        arr[idx], arr[parent] := arr[parent], arr[idx];
        assert Slots(n) == Swapped(s, idx, parent);
        idx := parent;
      }
    }

    /** The sift-down loop, on the first n slots from i0 on: where it stops. */
    method SiftDownLoop(n: nat, i0: nat) returns (index: nat)
      requires Filled(n) && i0 < n
      modifies arr
      ensures Filled(n) && (Slots(n), index) == SiftDown(old(Slots(n)), i0)
      ensures arr[n..] == old(arr[n..])
    {
      hide Smallest;
      index := i0;
      var left := 2 * index + 1;
      while left < n
        invariant 0 <= index < n && left == 2 * index + 1 && Filled(n)
        invariant SiftDown(Slots(n), index) == SiftDown(old(Slots(n)), i0)
        invariant arr[n..] == old(arr[n..])
      {
        ghost var s := Slots(n);
        var smallest := SmallestOf(n, index);
        if smallest == index {
          break;
        }
        arr[index], arr[smallest] := arr[smallest], arr[index];
        assert Slots(n) == Swapped(s, index, smallest);
        index := smallest;
        left := 2 * index + 1;
      }
      LeafStays(Slots(n), index);
    }

    /** The choice in the sift-down loop: the least of a node and its children. */
    method SmallestOf(n: nat, index: nat) returns (smallest: nat)
      requires Filled(n) && 2 * index + 1 < n
      ensures smallest == Smallest(Slots(n), index)
    {
      var left, right := 2 * index + 1, 2 * index + 2;
      smallest := index;
      if arr[left].timeQuant < arr[smallest].timeQuant {
        smallest := left;
      }
      if right < n && arr[right].timeQuant < arr[smallest].timeQuant {
        smallest := right;
      }
    }

    method Enqueue(node: Tcb)
      requires Valid()
      modifies this, arr
      ensures Valid() && Contents() == Heap.Enqueue(old(Contents()), node)
      ensures arr == old(arr) || fresh(arr)
    {
      if threads == threshold {
        HeapResize();
      }
      arr[threads] := node;
      assert Slots(threads + 1) == old(Contents()) + [node];
      SiftUpLoop(threads + 1, threads);
      threads := threads + 1;
      assert Contents() == Slots(threads);
    }

    /** dequeue: the root, or null from an empty heap. */
    method Dequeue() returns (minNode: Tcb?)
      requires Valid()
      modifies this, arr
      ensures Valid() && arr == old(arr)
      ensures if old(Contents()) == [] then minNode == null && Contents() == []
              else minNode == old(Contents())[0] && Contents() == Dequeued(old(Contents()))
    {
      if threads == 0 {
        return null;
      }
      minNode := arr[0];
      threads := threads - 1;
      arr[0] := arr[threads];
      if threads > 0 {
        assert Slots(threads) == Refilled(old(Contents()), 0);
        var index := SiftDownLoop(threads, 0);
        assert Contents() == Slots(threads);
      }
    }

    method SearchByTID(tID: int) returns (node: Tcb?)
      requires Valid()
      ensures var i := IndexOf(Contents(), tID, 0); node == if i == threads then null else Contents()[i]
    {
      var i := 0;
      while i < threads
        invariant 0 <= i <= threads && IndexOf(Contents(), tID, 0) == IndexOf(Contents(), tID, i)
      {
        if arr[i].tID == tID {
          return arr[i];
        }
        i := i + 1;
      }
      return null;
    }

    method RemoveNode(tID: int) returns (rc: int)
      requires Valid()
      modifies this, arr
      ensures Valid() && arr == old(arr)
      ensures (rc, Contents()) == Heap.RemoveNode(old(Contents()), tID)
    {
      hide SiftDown, SiftUp, Refilled;
      var node := SearchByTID(tID);
      if node == null {
        return -1;
      }
      var index := 0;
      while index < threads && arr[index] != node
        invariant 0 <= index <= IndexOf(Contents(), tID, 0)
      {
        index := index + 1;
      }
      assert index == IndexOf(Contents(), tID, 0);
      threads := threads - 1;
      if index == threads {
        assert Contents() == old(Contents())[..index];
        return 0;
      }
      arr[index] := arr[threads];
      RefilledIs(old(Contents()), index, Slots(threads));
      var idx := SiftDownLoop(threads, index);
      SiftUpLoop(threads, idx);
      assert Contents() == Slots(threads);
      return 0;
    }
  }

  lemma LeafStays(s: seq<Tcb>, i: nat)
    requires i < |s|
    ensures 2 * i + 1 >= |s| ==> SiftDown(s, i) == (s, i)
  {
  }

  lemma RefilledIs(s: seq<Tcb>, i: nat, r: seq<Tcb>)
    requires i < |s| - 1 && |r| == |s| - 1
    requires forall k :: 0 <= k < |r| ==> r[k] == if k == i then s[|s| - 1] else s[k]
    ensures r == Refilled(s, i)
  {
  }
}
