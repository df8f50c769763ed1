/** The list-backed binary min-heap of (priority, item) pairs that the search uses as
    its frontier (class PriorityQueue, revised_code.py:4-34). The source delegates the
    heap operations to Python's heapq; here they are written out as the sift loops
    that keep the heap property heap[(k - 1) / 2] <= heap[k]. */
module PriorityQueues {

  datatype Option<T> = None | Some(value: T)

  /** A heap element: the source stores the tuple (priority, item). */
  datatype Entry<T> = Entry(priority: int, item: T)

  /** k is a child of p in the array layout of a binary tree. */
  predicate ChildOf(k: int, p: int)
  {
    k == 2 * p + 1 || k == 2 * p + 2
  }

  /** heap[p] <= heap[2p + 1] and heap[p] <= heap[2p + 2] wherever both exist. */
  ghost predicate IsHeap<T>(h: seq<Entry<T>>)
  {
    forall p, k :: 0 <= p < k < |h| && ChildOf(k, p) ==> h[p].priority <= h[k].priority
  }

  /** The heap property holds except possibly between position i and its parent, and
      i's parent is no larger than i's children: the state while an element rises. */
  ghost predicate HeapExceptAbove<T>(h: seq<Entry<T>>, i: nat)
  {
    && (forall p, k :: 0 <= p < k < |h| && ChildOf(k, p) && k != i ==> h[p].priority <= h[k].priority)
    && (forall a, k :: 0 <= a < i < k < |h| && ChildOf(i, a) && ChildOf(k, i) ==> h[a].priority <= h[k].priority)
  }

  /** The heap property holds except possibly between position i and its children, and
      i's parent is no larger than i's children: the state while an element sinks. */
  ghost predicate HeapExceptBelow<T>(h: seq<Entry<T>>, i: nat)
  {
    && (forall p, k :: 0 <= p < k < |h| && ChildOf(k, p) && p != i ==> h[p].priority <= h[k].priority)
    && (forall a, k :: 0 <= a < i < k < |h| && ChildOf(i, a) && ChildOf(k, i) ==> h[a].priority <= h[k].priority)
  }

  /** The root of a heap has the smallest priority. */
  lemma {:induction false} RootIsMinimal<T>(h: seq<Entry<T>>, k: nat)
    requires IsHeap(h) && k < |h|
    ensures h[0].priority <= h[k].priority
    decreases k
  {
    if k > 0 {
      var p := (k - 1) / 2;
      assert ChildOf(k, p);
      RootIsMinimal(h, p);
    }
  }

  /** Swapping a too-small element with its parent p moves the defect one level up. */
  lemma RiseStep<T>(h: seq<Entry<T>>, i: nat, p: nat)
    requires p < i < |h| && ChildOf(i, p) && HeapExceptAbove(h, i)
    requires h[i].priority < h[p].priority
    ensures HeapExceptAbove(h[i := h[p]][p := h[i]], p)
    ensures multiset(h[i := h[p]][p := h[i]]) == multiset(h)
  {
    var h' := h[i := h[p]][p := h[i]];
    forall a, k | 0 <= a < k < |h'| && ChildOf(k, a) && k != p
      ensures h'[a].priority <= h'[k].priority
    {
      if a == i {
        assert h'[a] == h[p];
      } else if a == p && k != i {
        assert h'[a] == h[i];
        assert h[p].priority <= h[k].priority;
      }
    }
    forall a, k | 0 <= a < p < k < |h'| && ChildOf(p, a) && ChildOf(k, p)
      ensures h'[a].priority <= h'[k].priority
    {
      assert h[a].priority <= h[p].priority;
    }
  }

  /** Swapping a too-large element at i with its smaller child m moves the defect one level down. */
  lemma SinkStep<T>(h: seq<Entry<T>>, i: nat, m: nat)
    requires i < m < |h| && ChildOf(m, i) && HeapExceptBelow(h, i)
    requires h[m].priority < h[i].priority
    requires h[m].priority <= h[2 * i + 1].priority
    requires 2 * i + 2 < |h| ==> h[m].priority <= h[2 * i + 2].priority
    ensures HeapExceptBelow(h[i := h[m]][m := h[i]], m)
    ensures multiset(h[i := h[m]][m := h[i]]) == multiset(h)
  {
    var h' := h[i := h[m]][m := h[i]];
    forall a, k | 0 <= a < k < |h'| && ChildOf(k, a) && a != m
      ensures h'[a].priority <= h'[k].priority
    {
      if a == i {
        assert h'[a] == h[m];
      } else if k == i {
        assert h'[k] == h[m];
      }
    }
    forall a, k | 0 <= a < m < k < |h'| && ChildOf(m, a) && ChildOf(k, m)
      ensures h'[a].priority <= h'[k].priority
    {
      assert h[m].priority <= h[k].priority;
    }
  }

  /** Once the element at i is no larger than its children, the heap is whole again. */
  lemma SinkDone<T>(h: seq<Entry<T>>, i: nat)
    requires i < |h| && HeapExceptBelow(h, i)
    requires 2 * i + 1 < |h| ==> h[i].priority <= h[2 * i + 1].priority
    requires 2 * i + 2 < |h| ==> h[i].priority <= h[2 * i + 2].priority
    ensures IsHeap(h)
  {
  }

  /** Moves the element at i towards the root until its parent is no larger
      (heapq._siftdown, used by heappush). */
  method SiftUp<T>(h0: seq<Entry<T>>, i0: nat) returns (h: seq<Entry<T>>)
    requires i0 < |h0| && HeapExceptAbove(h0, i0)
    ensures IsHeap(h) && multiset(h) == multiset(h0)
  {
    h := h0;
    var i: nat := i0;
    while 0 < i && h[i].priority < h[(i - 1) / 2].priority
      invariant i < |h| == |h0|
      invariant HeapExceptAbove(h, i)
      invariant multiset(h) == multiset(h0)
      decreases i
    {
      var p := (i - 1) / 2;
      RiseStep(h, i, p);
      h := h[i := h[p]][p := h[i]];
      i := p;
    }
    if 0 < i {
      assert ChildOf(i, (i - 1) / 2);
    }
  }

  /** Moves the element at i away from the root, swapping it with its smaller child,
      until no child is smaller (heapq._siftup, used by heappop). */
  method SiftDown<T>(h0: seq<Entry<T>>, i0: nat) returns (h: seq<Entry<T>>)
    requires i0 < |h0| && HeapExceptBelow(h0, i0)
    ensures IsHeap(h) && multiset(h) == multiset(h0)
  {
    h := h0;
    var i: nat := i0;
    while 2 * i + 1 < |h|
      invariant i < |h| == |h0|
      invariant HeapExceptBelow(h, i)
      invariant multiset(h) == multiset(h0)
      decreases |h| - i
    {
      var m := 2 * i + 1;
      if m + 1 < |h| && h[m + 1].priority < h[m].priority {
        m := m + 1;
      }
      if h[i].priority <= h[m].priority {
        SinkDone(h, i);
        break;
      }
      SinkStep(h, i, m);
      h := h[i := h[m]][m := h[i]];
      i := m;
    }
    if |h| <= 2 * i + 1 {
      SinkDone(h, i);
    }
  }

  class PriorityQueue<T> {
    var heap: seq<Entry<T>>

    ghost predicate Valid()
      reads this
    {
      IsHeap(heap)
    }

    /** The entries held, regardless of their place in the heap. */
    ghost function Contents(): multiset<Entry<T>>
      reads this
    {
      multiset(heap)
    }

    constructor ()
      ensures Valid() && Contents() == multiset{}
    {
      heap := [];
    }

    /** Adds the entry (priority, item) and restores the heap property. */
    method Push(item: T, priority: int)
      requires Valid()
      modifies this
      ensures Valid()
      ensures Contents() == old(Contents()) + multiset{Entry(priority, item)}
    {
      heap := SiftUp(heap + [Entry(priority, item)], |heap|);
    }

    /** Removes and returns an entry of smallest priority; on an empty heap it returns
        None, where heappop raises IndexError. */
    method Pop() returns (r: Option<Entry<T>>)
      requires Valid()
      modifies this
      ensures Valid()
      ensures old(Contents()) == multiset{} ==> r == None && Contents() == multiset{}
      ensures old(Contents()) != multiset{} ==>
        && r.Some?
        && r.value in old(Contents())
        && Contents() == old(Contents()) - multiset{r.value}
        && forall q :: q in old(Contents()) ==> r.value.priority <= q.priority
    {
      ghost var h0 := heap;
      if heap == [] {
        return None;
      }
      var last := heap[|heap| - 1];
      heap := heap[..|heap| - 1];
      assert h0 == heap + [last];
      if heap == [] {
        return Some(last);
      }
      var top := heap[0];
      forall q | q in h0
        ensures top.priority <= q.priority
      {
        var k :| 0 <= k < |h0| && h0[k] == q;
        RootIsMinimal(h0, k);
      }
      heap := SiftDown(heap[0 := last], 0);
      r := Some(top);
    }

    function IsEmpty(): (b: bool)
      reads this
      ensures b <==> Contents() == multiset{}
    {
      |heap| == 0
    }
  }
}
