/** The binary heap of heap_utils: an array-backed priority queue ordered by
    a caller-supplied comparator, in a fixed-capacity variant and in a
    dynamic variant whose capacity doubles on demand (up to a ceiling) and
    halves when under-used. The live nodes are modelled as a sequence whose
    length is the heap size; the allocated space is a number. The
    comparator answers "does the first belong above the second": less-than
    for a min-heap, greater-than for a max-heap. */
module Heap {
  import opened Wrappers

  /** HeapType: which push/pop API a heap belongs to. */
  datatype HeapType = Regular | Extended

  /** BinaryHeap. `nodes` are the live nodes (heapSize is |nodes|);
      `heapSpace` is the number of allocated slots; `maximumHeapSpace` is
      the growth ceiling of an extended heap. */
  datatype BinaryHeap<!T> = BinaryHeap(
    kind: HeapType,
    nodes: seq<T>,
    heapSpace: int,
    maximumHeapSpace: int,
    cmp: (T, T) -> bool)

  /** The heap needs the comparator to be a strict weak order: irreflexive,
      transitive, and with "not above" transitive as well. */
  ghost predicate StrictWeakOrder<T(!new)>(cmp: (T, T) -> bool) {
    && (forall a :: !cmp(a, a))
    && (forall a, b, c :: cmp(a, b) && cmp(b, c) ==> cmp(a, c))
    && (forall a, b, c :: !cmp(a, b) && !cmp(b, c) ==> !cmp(a, c))
  }

  /** Index of the parent of node i (i > 0). */
  function Parent(i: nat): nat
    requires i > 0
  {
    (i - 1) / 2
  }

  /** No node belongs above its parent. */
  ghost predicate HeapOrdered<T>(a: seq<T>, cmp: (T, T) -> bool) {
    forall i :: 0 < i < |a| ==> !cmp(a[i], a[Parent(i)])
  }

  /** Heap order everywhere except between node `k` and its parent. */
  ghost predicate OrderedExceptAt<T>(a: seq<T>, cmp: (T, T) -> bool, k: nat) {
    forall i :: 0 < i < |a| && i != k ==> !cmp(a[i], a[Parent(i)])
  }

  /** Heap order everywhere except between node `k` and its children. */
  ghost predicate OrderedExceptBelow<T>(a: seq<T>, cmp: (T, T) -> bool, k: nat) {
    forall i :: 0 < i < |a| && Parent(i) != k ==> !cmp(a[i], a[Parent(i)])
  }

  /** The children of node `k` do not belong above k's parent. */
  ghost predicate ChildrenBelowGrandparent<T>(a: seq<T>, cmp: (T, T) -> bool, k: nat) {
    k > 0 && k < |a| ==> forall i :: 0 < i < |a| && Parent(i) == k ==> !cmp(a[i], a[Parent(k)])
  }

  /** The state every operation keeps: no more live nodes than slots, heap
      order, and a regular heap's space equal to its ceiling. */
  ghost predicate Valid<T>(h: BinaryHeap<T>) {
    && |h.nodes| <= h.heapSpace
    && HeapOrdered(h.nodes, h.cmp)
    && (h.kind == Regular ==> h.heapSpace == h.maximumHeapSpace)
  }

  /** Swap */
  function Swap<T>(a: seq<T>, i: nat, j: nat): (r: seq<T>)
    requires i < |a| && j < |a|
    ensures |r| == |a| && r[i] == a[j] && r[j] == a[i]
    ensures forall k :: 0 <= k < |a| && k != i && k != j ==> r[k] == a[k]
    ensures multiset(r) == multiset(a)
  {
    a[i := a[j]][j := a[i]]
  }

  /** In a heap no node belongs above the root. */
  lemma {:induction false} RootIsBest<T(!new)>(a: seq<T>, cmp: (T, T) -> bool, i: nat)
    requires StrictWeakOrder(cmp) && HeapOrdered(a, cmp)
    requires i < |a|
    ensures !cmp(a[i], a[0])
    decreases i
  {
    if i > 0 {
      RootIsBest(a, cmp, Parent(i));
    }
  }

  // ---------------------------------------------------------------------
  // Sift-up and sift-down
  // ---------------------------------------------------------------------

  /** PushToHeapCommon: append the value and swap it with its parent while
      the parent does not belong above it. */
  method SiftUp<T(!new)>(nodes: seq<T>, value: T, cmp: (T, T) -> bool) returns (r: seq<T>)
    requires StrictWeakOrder(cmp) && HeapOrdered(nodes, cmp)
    ensures |r| == |nodes| + 1
    ensures multiset(r) == multiset(nodes) + multiset{value}
    ensures HeapOrdered(r, cmp)
  {
    r := nodes + [value];
    var index: nat := |nodes|;
    assert forall i :: 0 < i < |nodes| ==> r[i] == nodes[i] && r[Parent(i)] == nodes[Parent(i)];
    while index != 0 && !cmp(r[Parent(index)], r[index])
      invariant index < |r| == |nodes| + 1
      invariant multiset(r) == multiset(nodes) + multiset{value}
      invariant OrderedExceptAt(r, cmp, index)
      invariant ChildrenBelowGrandparent(r, cmp, index)
      decreases index
    {
      var p := Parent(index);
      SwapUp(r, cmp, index);
      r := Swap(r, p, index);
      index := p;
    }
  }

  /** One step of the sift-up: swapping node `index` with its parent moves
      the one possible violation up to the parent. */
  lemma SwapUp<T(!new)>(a: seq<T>, cmp: (T, T) -> bool, index: nat)
    requires StrictWeakOrder(cmp)
    requires 0 < index < |a|
    requires OrderedExceptAt(a, cmp, index)
    requires ChildrenBelowGrandparent(a, cmp, index)
    requires !cmp(a[Parent(index)], a[index])
    ensures OrderedExceptAt(Swap(a, Parent(index), index), cmp, Parent(index))
    ensures ChildrenBelowGrandparent(Swap(a, Parent(index), index), cmp, Parent(index))
  {
  }

  /** Heapify: move the node at `index` down, swapping it with the child
      that belongs highest while some child belongs above it. Given heap
      order everywhere except below `index` (and, for an inner node, its
      children not above its parent), the result is a heap. */
  method Heapify<T(!new)>(a: seq<T>, index: nat, cmp: (T, T) -> bool) returns (r: seq<T>)
    requires StrictWeakOrder(cmp)
    requires index < |a|
    requires OrderedExceptBelow(a, cmp, index)
    requires ChildrenBelowGrandparent(a, cmp, index)
    ensures |r| == |a|
    ensures multiset(r) == multiset(a)
    ensures HeapOrdered(r, cmp)
    decreases |a| - index
  {
    var limit := index;
    var left := 2 * index + 1;
    var right := 2 * index + 2;
    if left < |a| && cmp(a[left], a[limit]) {
      limit := left;
    }
    if right < |a| && cmp(a[right], a[limit]) {
      limit := right;
    }
    if limit != index {
      assert Parent(limit) == index;
      assert !cmp(a[index], a[limit]);
      assert forall c :: 0 < c < |a| && Parent(c) == index && c != limit ==> !cmp(a[c], a[limit]) by {
        forall c | 0 < c < |a| && Parent(c) == index && c != limit
          ensures !cmp(a[c], a[limit])
        {
          assert c == left || c == right;
        }
      }
      var s := Swap(a, index, limit);
      SwapDown(a, cmp, index, limit);
      r := Heapify(s, limit, cmp);
    } else {
      r := a;
      forall i | 0 < i < |a| && Parent(i) == index
        ensures !cmp(a[i], a[index])
      {
        assert i == left || i == right;
      }
    }
  }

  /** One swap of Heapify: when the chosen child belongs at least as high as
      the node and as its sibling, swapping them moves the exception down to
      the child's slot. */
  lemma SwapDown<T(!new)>(a: seq<T>, cmp: (T, T) -> bool, index: nat, limit: nat)
    requires StrictWeakOrder(cmp)
    requires index < limit < |a| && Parent(limit) == index
    requires OrderedExceptBelow(a, cmp, index)
    requires ChildrenBelowGrandparent(a, cmp, index)
    requires !cmp(a[index], a[limit])
    requires forall c :: 0 < c < |a| && Parent(c) == index && c != limit ==> !cmp(a[c], a[limit])
    ensures OrderedExceptBelow(Swap(a, index, limit), cmp, limit)
    ensures ChildrenBelowGrandparent(Swap(a, index, limit), cmp, limit)
  {
  }

  /** Replace the root by the last node and drop the last slot: the
      preparation for Heapify shared by both pops. */
  method RemoveRoot<T(!new)>(nodes: seq<T>, cmp: (T, T) -> bool) returns (top: T, r: seq<T>)
    requires StrictWeakOrder(cmp) && HeapOrdered(nodes, cmp)
    requires |nodes| > 0
    ensures top == nodes[0]
    ensures |r| == |nodes| - 1
    ensures multiset(r) + multiset{top} == multiset(nodes)
    ensures HeapOrdered(r, cmp)
    ensures forall y :: y in r ==> !cmp(y, top)
  {
    top := nodes[0];
    var n := |nodes|;
    if n == 1 {
      r := [];
    } else {
      var moved := [nodes[n - 1]] + nodes[1..n - 1];
      assert nodes == [nodes[0]] + nodes[1..n - 1] + [nodes[n - 1]];
      assert multiset(moved) + multiset{top} == multiset(nodes);
      assert forall i :: 0 < i < |moved| ==> moved[i] == nodes[i];
      r := Heapify(moved, 0, cmp);
    }
    forall y | y in r
      ensures !cmp(y, top)
    {
      assert y in multiset(nodes);
      var j :| 0 <= j < n && nodes[j] == y;
      RootIsBest(nodes, cmp, j);
    }
  }

  // ---------------------------------------------------------------------
  // Fixed-capacity heaps
  // ---------------------------------------------------------------------

  /** AllocateHeap: an empty regular heap whose space and ceiling are both
      the capacity. */
  function AllocateHeap<T>(capacity: int, cmp: (T, T) -> bool): (h: BinaryHeap<T>)
    ensures h.kind == Regular && |h.nodes| == 0
    ensures h.heapSpace == capacity && h.maximumHeapSpace == capacity && h.cmp == cmp
    ensures capacity >= 0 ==> Valid(h)
  {
    BinaryHeap(Regular, [], capacity, capacity, cmp)
  }

  /** PushToHeap: an internal error when the heap is full; otherwise one
      more node, the pushed value, in heap order. */
  method PushToHeap<T(!new)>(h: BinaryHeap<T>, value: T) returns (r: Result<BinaryHeap<T>>)
    requires h.kind == Regular && Valid(h) && StrictWeakOrder(h.cmp)
    ensures r.Failure? <==> |h.nodes| >= h.heapSpace
    ensures r.Failure? ==> r.error.code == Internal
    ensures r.Success? ==>
      && Valid(r.value)
      && multiset(r.value.nodes) == multiset(h.nodes) + multiset{value}
      && |r.value.nodes| == |h.nodes| + 1
      && r.value == h.(nodes := r.value.nodes)
  {
    if |h.nodes| >= h.heapSpace {
      return Fail(Internal, "Heap capacity exceeded while pushing new value");
    }
    var nodes := SiftUp(h.nodes, value, h.cmp);
    r := Success(h.(nodes := nodes));
  }

  /** PopFromHeap: removes and returns the root, a node no other belongs
      above. */
  method PopFromHeap<T(!new)>(h: BinaryHeap<T>) returns (top: T, r: BinaryHeap<T>)
    requires h.kind == Regular && Valid(h) && StrictWeakOrder(h.cmp)
    requires |h.nodes| > 0
    ensures top == h.nodes[0]
    ensures Valid(r) && r == h.(nodes := r.nodes)
    ensures |r.nodes| == |h.nodes| - 1
    ensures multiset(r.nodes) + multiset{top} == multiset(h.nodes)
    ensures forall y :: y in r.nodes ==> !h.cmp(y, top)
  {
    var nodes;
    top, nodes := RemoveRoot(h.nodes, h.cmp);
    r := h.(nodes := nodes);
  }

  /** TopHeap: the root, a stored value no other belongs above. */
  function TopHeap<T(!new)>(h: BinaryHeap<T>): (top: T)
    requires Valid(h) && StrictWeakOrder(h.cmp)
    requires |h.nodes| > 0
    ensures top in h.nodes
    ensures forall y :: y in h.nodes ==> !h.cmp(y, top)
  {
    TopIsBest(h.nodes, h.cmp);
    h.nodes[0]
  }

  lemma TopIsBest<T(!new)>(a: seq<T>, cmp: (T, T) -> bool)
    requires StrictWeakOrder(cmp) && HeapOrdered(a, cmp) && |a| > 0
    ensures forall y :: y in a ==> !cmp(y, a[0])
  {
    forall y | y in a
      ensures !cmp(y, a[0])
    {
      var j :| 0 <= j < |a| && a[j] == y;
      RootIsBest(a, cmp, j);
    }
  }

  // ---------------------------------------------------------------------
  // Dynamic heaps
  // ---------------------------------------------------------------------

  /** AllocateDynamicHeap: an empty extended heap with the given starting
      space and ceiling. */
  function AllocateDynamicHeap<T>(initialCapacity: int, maximumCapacity: int, cmp: (T, T) -> bool): (h: BinaryHeap<T>)
    ensures h.kind == Extended && |h.nodes| == 0
    ensures h.heapSpace == initialCapacity && h.maximumHeapSpace == maximumCapacity && h.cmp == cmp
    ensures initialCapacity >= 0 ==> Valid(h)
  {
    BinaryHeap(Extended, [], initialCapacity, maximumCapacity, cmp)
  }

  /** The space after the growth step of PushToDynamicHeap. */
  function GrownSpace(heapSize: int, heapSpace: int, maximumHeapSpace: int): (s: int)
    ensures heapSize < heapSpace ==> s == heapSpace
    ensures heapSize >= heapSpace ==> s <= maximumHeapSpace && s <= 2 * heapSpace
    ensures heapSize >= heapSpace ==> s == maximumHeapSpace || s == 2 * heapSpace
  {
    if heapSize >= heapSpace then
      if heapSpace * 2 < maximumHeapSpace then heapSpace * 2 else maximumHeapSpace
    else heapSpace
  }

  /** A dynamic heap allocated with no space never grows: doubling zero
      gives zero, so its first push would write past the allocated slots.
      PushToDynamicHeap therefore needs at least one slot. */
  lemma ZeroSpaceNeverGrows(maximumHeapSpace: int)
    requires maximumHeapSpace > 0
    ensures GrownSpace(0, 0, maximumHeapSpace) == 0
  {
  }

  /** PushToDynamicHeap: an internal error at the ceiling; otherwise, when
      the slots are full, the space doubles (capped at the ceiling) and the
      value is pushed as in a regular heap. */
  method PushToDynamicHeap<T(!new)>(h: BinaryHeap<T>, value: T) returns (r: Result<BinaryHeap<T>>)
    requires h.kind == Extended && Valid(h) && StrictWeakOrder(h.cmp)
    requires h.heapSpace >= 1
    ensures r.Failure? <==> |h.nodes| >= h.maximumHeapSpace
    ensures r.Failure? ==> r.error.code == Internal
    ensures r.Success? ==>
      && Valid(r.value)
      && multiset(r.value.nodes) == multiset(h.nodes) + multiset{value}
      && |r.value.nodes| == |h.nodes| + 1
      && r.value == h.(nodes := r.value.nodes, heapSpace := r.value.heapSpace)
      && r.value.heapSpace == GrownSpace(|h.nodes|, h.heapSpace, h.maximumHeapSpace)
      && r.value.heapSpace >= h.heapSpace
  {
    if |h.nodes| >= h.maximumHeapSpace {
      return Fail(Internal, "Heap capacity exceeded while pushing new value");
    }
    var space := GrownSpace(|h.nodes|, h.heapSpace, h.maximumHeapSpace);
    var nodes := SiftUp(h.nodes, value, h.cmp);
    r := Success(h.(nodes := nodes, heapSpace := space));
  }

  /** The space after the shrink step of PopFromDynamicHeap, for a heap
      left with `heapSize` nodes. */
  function ShrunkSpace(heapSize: nat, heapSpace: int): (s: int)
    ensures heapSize <= heapSpace ==> heapSize <= s
    ensures s <= heapSpace
    ensures heapSpace >= 1 ==> s >= 1
    ensures s < heapSpace <==> heapSpace > 1 && heapSize < heapSpace / 2
  {
    if heapSpace > 1 && heapSize < heapSpace / 2 then
      var half := if 1 < heapSpace / 2 then heapSpace / 2 else 1;
      if half < heapSize then heapSize else half
    else heapSpace
  }

  /** PopFromDynamicHeap: removes and returns the root; a heap left with
      fewer nodes than half its space gives back half of it (never below
      one slot, never below the nodes left). Popping the last node returns
      before that step. */
  method PopFromDynamicHeap<T(!new)>(h: BinaryHeap<T>) returns (top: T, r: BinaryHeap<T>)
    requires h.kind == Extended && Valid(h) && StrictWeakOrder(h.cmp)
    requires |h.nodes| > 0
    ensures top == h.nodes[0]
    ensures Valid(r) && r == h.(nodes := r.nodes, heapSpace := r.heapSpace)
    ensures |r.nodes| == |h.nodes| - 1
    ensures multiset(r.nodes) + multiset{top} == multiset(h.nodes)
    ensures forall y :: y in r.nodes ==> !h.cmp(y, top)
    ensures |h.nodes| == 1 ==> r.heapSpace == h.heapSpace
    ensures |h.nodes| > 1 ==> r.heapSpace == ShrunkSpace(|r.nodes|, h.heapSpace)
  {
    var nodes;
    top, nodes := RemoveRoot(h.nodes, h.cmp);
    if |h.nodes| == 1 {
      r := h.(nodes := nodes);
    } else {
      r := h.(nodes := nodes, heapSpace := ShrunkSpace(|nodes|, h.heapSpace));
    }
  }

  /** A push that grows a dynamic heap at least doubles its free room: after
      growing, the heap uses at most half of its new space plus one slot,
      unless the ceiling capped the growth. */
  lemma GrowthDoubles(heapSize: int, heapSpace: int, maximumHeapSpace: int)
    requires 1 <= heapSpace == heapSize < maximumHeapSpace
    ensures var s := GrownSpace(heapSize, heapSpace, maximumHeapSpace);
      heapSize < s && (s == 2 * heapSpace || s == maximumHeapSpace)
  {
  }

  /** After a shrink the heap still uses less than its new space, or exactly
      fills it, and the space has not dropped below one slot. */
  lemma ShrinkKeepsRoom(heapSize: nat, heapSpace: int)
    requires heapSize <= heapSpace && heapSpace >= 1
    ensures 1 <= ShrunkSpace(heapSize, heapSpace) && heapSize <= ShrunkSpace(heapSize, heapSpace)
    ensures heapSpace > 1 && heapSize < heapSpace / 2 ==>
      ShrunkSpace(heapSize, heapSpace) == (if heapSpace / 2 < 1 then 1 else heapSpace / 2)
  {
  }
}
