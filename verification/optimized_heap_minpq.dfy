/** The indexed binary min-heap priority queue. Pairs live in a 1-indexed
    array whose slot 0 holds a null sentinel; the parent of slot i is slot i/2.
    A side map sends each element to its slot and is updated together with the
    array on every swap. */
module OptimizedHeapMinPQ {
  import opened Results
  import opened PriorityNodes

  /** An array slot: the sentinel at index 0, a pair everywhere else. */
  datatype Slot<E> = Null | Entry(node: PriorityNode<E>)

  /** The heap array and the element-to-slot map. */
  datatype Heap<E> = Heap(elements: seq<Slot<E>>, elementsToIndex: map<E, int>)

  /** Slot 0 is the sentinel and every other slot holds a pair. */
  predicate Occupied<E>(a: seq<Slot<E>>) {
    && |a| >= 1
    && a[0] == Null
    && forall i :: 1 <= i < |a| ==> a[i].Entry?
  }

  function Prio<E>(a: seq<Slot<E>>, i: int): real
    requires 0 <= i < |a| && a[i].Entry?
  {
    a[i].node.priority
  }

  /** The map is the inverse of the array on slots 1 .. |a|-1. */
  predicate IndexConsistent<E(==)>(h: Heap<E>) {
    var a, m := h.elements, h.elementsToIndex;
    && Occupied(a)
    && (forall i :: 1 <= i < |a| ==> a[i].node.element in m && m[a[i].node.element] == i)
    && (forall e :: e in m ==> 1 <= m[e] < |a| && a[m[e]].node.element == e)
  }

  /** Every slot from 2 on has a priority no smaller than its parent's. */
  predicate HeapOrdered<E>(a: seq<Slot<E>>)
    requires Occupied(a)
  {
    forall i :: 2 <= i < |a| ==> Prio(a, i / 2) <= Prio(a, i)
  }

  /** The representation invariant of a queue built by the no-argument constructor. */
  predicate Valid<E(==)>(h: Heap<E>) {
    IndexConsistent(h) && HeapOrdered(h.elements)
  }

  /** Heap order holds except possibly between slot k and its parent. */
  predicate OrderedExcept<E>(a: seq<Slot<E>>, k: int)
    requires Occupied(a)
  {
    forall i :: 2 <= i < |a| && i != k ==> Prio(a, i / 2) <= Prio(a, i)
  }

  /** Heap order holds except possibly between slot k and its children. */
  predicate OrderedBelow<E>(a: seq<Slot<E>>, k: int)
    requires Occupied(a)
  {
    forall i :: 2 <= i < |a| && i / 2 != k ==> Prio(a, i / 2) <= Prio(a, i)
  }

  /** The parent of slot k is no larger than the children of slot k. */
  predicate ParentBoundsChildren<E>(a: seq<Slot<E>>, k: int)
    requires Occupied(a)
  {
    k >= 2 ==> forall c :: 2 <= c < |a| && c / 2 == k ==> Prio(a, k / 2) <= Prio(a, c)
  }

  /** The stored pairs, slot 1 first. */
  function Pairs<E>(a: seq<Slot<E>>): (s: seq<PriorityNode<E>>)
    requires Occupied(a)
    ensures |s| == |a| - 1
    ensures forall i :: 0 <= i < |s| ==> s[i] == a[i + 1].node
  {
    seq(|a| - 1, i requires 0 <= i < |a| - 1 => a[i + 1].node)
  }

  /** The index map makes the stored elements distinct, as the shared
      min-priority queue contract demands. */
  lemma ConsistentMeansDistinct<E>(h: Heap<E>)
    requires IndexConsistent(h)
    ensures DistinctElements(Pairs(h.elements))
  {
    var s := Pairs(h.elements);
    forall i, j | 0 <= i < j < |s| ensures s[i].element != s[j].element {
      assert h.elementsToIndex[s[i].element] == i + 1;
    }
  }

  /** The no-argument constructor: only the sentinel. */
  function Empty<E(==)>(): (h: Heap<E>)
    ensures Valid(h) && Size(h) == 0
  {
    Heap([Null], map[])
  }

  /** The number of pairs: the array length minus the sentinel. */
  function Size<E>(h: Heap<E>): int {
    |h.elements| - 1
  }

  /** Membership is a map lookup; it agrees with a scan of the array. */
  function Contains<E(==)>(h: Heap<E>, e: E): (b: bool)
    requires IndexConsistent(h)
    ensures b <==> exists i :: 1 <= i < |h.elements| && h.elements[i].node.element == e
    ensures b <==> Holds(Pairs(h.elements), e)
  {
    var s := Pairs(h.elements);
    assert forall i :: 1 <= i < |h.elements| ==> s[i - 1] == h.elements[i].node;
    e in h.elementsToIndex
  }

  /** The priority stored for `e`, found through the map. */
  function GetPriority<E(==)>(h: Heap<E>, e: E): (r: Result<real>)
    requires IndexConsistent(h)
    ensures r.Err? <==> !Contains(h, e)
    ensures r.Err? ==> r.error == NoSuchElement
    ensures r.Ok? ==> exists i :: 1 <= i < |h.elements| && h.elements[i].node == PriorityNode(e, r.value)
  {
    if e !in h.elementsToIndex then Err(NoSuchElement)
    else
      var i := h.elementsToIndex[e];
      assert h.elements[i].node == PriorityNode(e, Prio(h.elements, i));
      Ok(Prio(h.elements, i))
  }

  /** In a heap-ordered array the root has the least priority. */
  lemma {:induction false} RootIsMinimum<E>(a: seq<Slot<E>>, i: int)
    requires Occupied(a) && HeapOrdered(a)
    requires 1 <= i < |a|
    ensures Prio(a, 1) <= Prio(a, i)
    decreases i
  {
    if i > 1 {
      RootIsMinimum(a, i / 2);
    }
  }

  /** The element at the root, which has the least priority; throws when empty. */
  function PeekMin<E(==)>(h: Heap<E>): (r: Result<E>)
    requires Valid(h)
    ensures r.Err? <==> Size(h) == 0
    ensures r.Err? ==> r.error == NoSuchElement
    ensures r.Ok? ==> exists k :: 0 <= k < Size(h) && Pairs(h.elements)[k].element == r.value
                                  && AtMostAll(Pairs(h.elements), Pairs(h.elements)[k].priority)
  {
    if Size(h) == 0 then Err(NoSuchElement)
    else
      RootIsLeast(h.elements);
      assert Pairs(h.elements)[0] == h.elements[1].node;
      Ok(h.elements[1].node.element)
  }

  /** The root's priority bounds every stored priority from below. */
  lemma RootIsLeast<E>(a: seq<Slot<E>>)
    requires Occupied(a) && HeapOrdered(a) && |a| >= 2
    ensures forall i :: 1 <= i < |a| ==> Prio(a, 1) <= Prio(a, i)
    ensures AtMostAll(Pairs(a), Prio(a, 1))
  {
    forall i | 1 <= i < |a|
      ensures Prio(a, 1) <= Prio(a, i)
    {
      RootIsMinimum(a, i);
    }
    var s := Pairs(a);
    forall j | 0 <= j < |s|
      ensures Prio(a, 1) <= s[j].priority
    {
      RootIsMinimum(a, j + 1);
    }
  }

  /** The array with slots i and j exchanged. */
  function SwapSlots<E>(a: seq<Slot<E>>, i: int, j: int): (a': seq<Slot<E>>)
    requires 0 <= i < |a| && 0 <= j < |a|
    ensures |a'| == |a| && multiset(a') == multiset(a)
    ensures a'[i] == a[j] && a'[j] == a[i]
    ensures forall k :: 0 <= k < |a| && k != i && k != j ==> a'[k] == a[k]
  {
    a[i := a[j]][j := a[i]]
  }

  /** Exchanges two slots and re-points both elements in the map. */
  function Swap<E(==)>(h: Heap<E>, i: int, j: int): (h': Heap<E>)
    requires IndexConsistent(h)
    requires 1 <= i < |h.elements| && 1 <= j < |h.elements|
    ensures IndexConsistent(h')
    ensures h'.elements == SwapSlots(h.elements, i, j)
    ensures h'.elementsToIndex.Keys == h.elementsToIndex.Keys
  {
    var a' := SwapSlots(h.elements, i, j);
    var m' := h.elementsToIndex[a'[i].node.element := i][a'[j].node.element := j];
    SwapKeepsConsistent(h, i, j);
    Heap(a', m')
  }

  lemma SwapKeepsConsistent<E>(h: Heap<E>, i: int, j: int)
    requires IndexConsistent(h)
    requires 1 <= i < |h.elements| && 1 <= j < |h.elements|
    ensures var a' := SwapSlots(h.elements, i, j);
            IndexConsistent(Heap(a', h.elementsToIndex[a'[i].node.element := i][a'[j].node.element := j]))
  {
    var a, m := h.elements, h.elementsToIndex;
    var a' := SwapSlots(a, i, j);
    var m' := m[a'[i].node.element := i][a'[j].node.element := j];
    forall k | 1 <= k < |a'|
      ensures a'[k].node.element in m' && m'[a'[k].node.element] == k
    {
      if k != i && k != j {
        assert m[a[k].node.element] == k;
      }
    }
    forall e | e in m'
      ensures 1 <= m'[e] < |a'| && a'[m'[e]].node.element == e
    {
      if e != a'[i].node.element && e != a'[j].node.element {
        assert e in m;
        var k := m[e];
        assert a[k].node.element == e;
        assert k != i && k != j;
      }
    }
  }

  /** One swim step: swapping slot k with its larger-priority parent restores
      order at k and moves the only possible violation up to the parent. */
  lemma SwimStep<E>(a: seq<Slot<E>>, k: int)
    requires Occupied(a) && 2 <= k < |a|
    requires Prio(a, k) < Prio(a, k / 2)
    requires OrderedExcept(a, k) && ParentBoundsChildren(a, k)
    ensures Occupied(SwapSlots(a, k, k / 2))
    ensures OrderedExcept(SwapSlots(a, k, k / 2), k / 2)
    ensures ParentBoundsChildren(SwapSlots(a, k, k / 2), k / 2)
  {
    var p := k / 2;
    var a' := SwapSlots(a, k, p);
    forall i | 2 <= i < |a'| && i != p
      ensures Prio(a', i / 2) <= Prio(a', i)
    {
      if i == k {
      } else if i / 2 == k {
        assert Prio(a, p) <= Prio(a, i);
      } else if i / 2 == p {
        assert Prio(a, p) <= Prio(a, i);
      } else {
        assert Prio(a, i / 2) <= Prio(a, i);
      }
    }
    if p >= 2 {
      forall c | 2 <= c < |a'| && c / 2 == p
        ensures Prio(a', p / 2) <= Prio(a', c)
      {
        assert Prio(a, p / 2) <= Prio(a, p);
        if c != k {
          assert Prio(a, p) <= Prio(a, c);
        }
      }
    }
  }

  /** One sink step: swapping slot k with its smaller child j restores order
      below k and moves the only possible violation down to j. */
  lemma SinkStep<E>(a: seq<Slot<E>>, k: int, j: int)
    requires Occupied(a) && 1 <= k && 2 * k < |a|
    requires j == 2 * k || (j == 2 * k + 1 && j < |a|)
    requires forall c :: 2 * k <= c <= 2 * k + 1 && c < |a| ==> Prio(a, j) <= Prio(a, c)
    requires Prio(a, j) < Prio(a, k)
    requires OrderedBelow(a, k) && ParentBoundsChildren(a, k)
    ensures Occupied(SwapSlots(a, k, j))
    ensures OrderedBelow(SwapSlots(a, k, j), j)
    ensures ParentBoundsChildren(SwapSlots(a, k, j), j)
  {
    var a' := SwapSlots(a, k, j);
    forall i | 2 <= i < |a'| && i / 2 != j
      ensures Prio(a', i / 2) <= Prio(a', i)
    {
      if i == j {
      } else if i / 2 == k {
        assert Prio(a, j) <= Prio(a, i);
      } else if i == k {
        assert Prio(a, k / 2) <= Prio(a, j);
      } else {
        assert Prio(a, i / 2) <= Prio(a, i);
      }
    }
    forall c | 2 <= c < |a'| && c / 2 == j
      ensures Prio(a', k) <= Prio(a', c)
    {
      assert Prio(a, j) <= Prio(a, c);
    }
  }

  /** Moves the pair at slot k0 up while it beats its parent. */
  method Swim<E(==)>(h: Heap<E>, k0: int) returns (h': Heap<E>)
    requires IndexConsistent(h)
    requires 1 <= k0 < |h.elements|
    requires OrderedExcept(h.elements, k0)
    requires ParentBoundsChildren(h.elements, k0)
    ensures Valid(h')
    ensures |h'.elements| == |h.elements|
    ensures multiset(h'.elements) == multiset(h.elements)
    ensures h'.elementsToIndex.Keys == h.elementsToIndex.Keys
  {
    h' := h;
    var k := k0;
    while k > 1 && Prio(h'.elements, k) < Prio(h'.elements, k / 2)
      invariant IndexConsistent(h')
      invariant 1 <= k < |h'.elements| == |h.elements|
      invariant multiset(h'.elements) == multiset(h.elements)
      invariant h'.elementsToIndex.Keys == h.elementsToIndex.Keys
      invariant OrderedExcept(h'.elements, k)
      invariant ParentBoundsChildren(h'.elements, k)
      decreases k
    {
      SwimStep(h'.elements, k);
      h' := Swap(h', k, k / 2);
      k := k / 2;
    }
  }

  /** Moves the pair at slot k0 down, towards its smaller child, while that child beats it. */
  method Sink<E(==)>(h: Heap<E>, k0: int) returns (h': Heap<E>)
    requires IndexConsistent(h)
    requires k0 == 1 || 1 <= k0 < |h.elements|
    requires OrderedBelow(h.elements, k0)
    requires ParentBoundsChildren(h.elements, k0)
    ensures Valid(h')
    ensures |h'.elements| == |h.elements|
    ensures multiset(h'.elements) == multiset(h.elements)
    ensures h'.elementsToIndex.Keys == h.elementsToIndex.Keys
  {
    h' := h;
    var k := k0;
    var n := |h.elements|;
    while 2 * k < n
      invariant IndexConsistent(h')
      invariant 1 <= k && |h'.elements| == n
      invariant multiset(h'.elements) == multiset(h.elements)
      invariant h'.elementsToIndex.Keys == h.elementsToIndex.Keys
      invariant OrderedBelow(h'.elements, k)
      invariant ParentBoundsChildren(h'.elements, k)
      decreases n - k
    {
      var j := 2 * k;
      if j + 1 < n && Prio(h'.elements, j + 1) < Prio(h'.elements, j) {
        j := j + 1;
      }
      if Prio(h'.elements, k) <= Prio(h'.elements, j) {
        SinkDone(h'.elements, k, j);
        break;
      }
      SinkStep(h'.elements, k, j);
      h' := Swap(h', k, j);
      k := j;
    }
    if 2 * k >= n {
      SinkDone(h'.elements, k, k);
    }
  }

  /** Sinking stops with the heap in order: the pair at k is no larger than
      its smaller child j, or k has no children. */
  lemma SinkDone<E>(a: seq<Slot<E>>, k: int, j: int)
    requires Occupied(a) && 1 <= k
    requires OrderedBelow(a, k) && ParentBoundsChildren(a, k)
    requires 2 * k < |a| ==> 2 * k <= j <= 2 * k + 1 && j < |a| && Prio(a, k) <= Prio(a, j)
    requires 2 * k < |a| ==> forall c :: 2 * k <= c <= 2 * k + 1 && c < |a| ==> Prio(a, j) <= Prio(a, c)
    ensures HeapOrdered(a)
  {
    forall i | 2 <= i < |a| ensures Prio(a, i / 2) <= Prio(a, i) {
      if i / 2 == k {
        assert Prio(a, j) <= Prio(a, i);
      }
    }
  }

  /** Rejects an element already present; otherwise appends the pair and swims it up. */
  method Add<E(==)>(h: Heap<E>, e: E, p: real) returns (r: Result<Heap<E>>)
    requires Valid(h)
    ensures r.Err? <==> Contains(h, e)
    ensures r.Err? ==> r.error == IllegalArgument
    ensures r.Ok? ==> Valid(r.value) && Contains(r.value, e)
    ensures r.Ok? ==> r.value.elementsToIndex.Keys == h.elementsToIndex.Keys + {e}
    ensures r.Ok? ==> multiset(r.value.elements) == multiset(h.elements) + multiset{Entry(PriorityNode(e, p))}
    ensures r.Ok? ==> Size(r.value) == Size(h) + 1
  {
    if e in h.elementsToIndex {
      return Err(IllegalArgument);
    }
    var a := h.elements + [Entry(PriorityNode(e, p))];
    var index := |a| - 1;
    var h1 := Heap(a, h.elementsToIndex[e := index]);
    var h2 := Swim(h1, index);
    return Ok(h2);
  }

  /** Removes the root: swaps it with the last slot, drops the last slot and
      the element's map entry, then sinks the moved pair from the root. */
  method RemoveMin<E(==)>(h: Heap<E>) returns (r: Result<(E, Heap<E>)>)
    requires Valid(h)
    ensures r.Err? <==> Size(h) == 0
    ensures r.Err? ==> r.error == NoSuchElement
    ensures r.Ok? ==> Valid(r.value.1) && Size(r.value.1) == Size(h) - 1
    ensures r.Ok? ==> exists k :: 1 <= k < |h.elements| && h.elements[k].node.element == r.value.0
                                  && AtMostAll(Pairs(h.elements), Prio(h.elements, k))
                                  && multiset(r.value.1.elements) == multiset(h.elements) - multiset{h.elements[k]}
    ensures r.Ok? ==> r.value.1.elementsToIndex.Keys == h.elementsToIndex.Keys - {r.value.0}
  {
    if Size(h) == 0 {
      return Err(NoSuchElement);
    }
    var a := h.elements;
    var minElement := a[1].node.element;
    RootIsLeast(a);
    var h2 := DropRoot(h);
    var h3 := Sink(h2, 1);
    return Ok((minElement, h3));
  }

  /** The first half of removeMin: swap the root with the last slot, drop the
      last slot and the removed element's map entry. Only the root may now be
      out of order with its children. */
  function DropRoot<E(==)>(h: Heap<E>): (h': Heap<E>)
    requires Valid(h) && Size(h) >= 1
    ensures IndexConsistent(h') && Size(h') == Size(h) - 1
    ensures OrderedBelow(h'.elements, 1) && ParentBoundsChildren(h'.elements, 1)
    ensures multiset(h'.elements) == multiset(h.elements) - multiset{h.elements[1]}
    ensures h'.elementsToIndex.Keys == h.elementsToIndex.Keys - {h.elements[1].node.element}
  {
    var last := |h.elements| - 1;
    var h1 := Swap(h, 1, last);
    var x := h.elements[1];
    assert h1.elements[last] == x;
    DropLastKeepsConsistent(h1);
    DropRootOrder(h.elements);
    DropLastMultiset(h1.elements, x);
    Heap(h1.elements[..last], h1.elementsToIndex - {x.node.element})
  }

  lemma DropLastMultiset<E>(a: seq<Slot<E>>, x: Slot<E>)
    requires |a| >= 1 && a[|a| - 1] == x
    ensures multiset(a[..|a| - 1]) == multiset(a) - multiset{x}
  {
    assert a == a[..|a| - 1] + [x];
  }

  /** Dropping the last slot and its element's map entry keeps the map the array's inverse. */
  lemma DropLastKeepsConsistent<E>(h: Heap<E>)
    requires IndexConsistent(h) && |h.elements| >= 2
    ensures var last := |h.elements| - 1;
            IndexConsistent(Heap(h.elements[..last], h.elementsToIndex - {h.elements[last].node.element}))
  {
    var a, m := h.elements, h.elementsToIndex;
    var last := |a| - 1;
    var x := a[last].node.element;
    var a2, m2 := a[..last], m - {x};
    forall i | 1 <= i < |a2|
      ensures a2[i].node.element in m2 && m2[a2[i].node.element] == i
    {
      assert m[a[i].node.element] == i;
    }
    forall e | e in m2
      ensures 1 <= m2[e] < |a2| && a2[m2[e]].node.element == e
    {
      assert m[x] == last;
    }
  }

  /** After the root is replaced by the last pair and the last slot dropped,
      only the root may be out of order. */
  lemma DropRootOrder<E>(a: seq<Slot<E>>)
    requires Occupied(a) && HeapOrdered(a) && |a| >= 2
    ensures var a2 := SwapSlots(a, 1, |a| - 1)[..|a| - 1];
            && Occupied(a2) && OrderedBelow(a2, 1) && ParentBoundsChildren(a2, 1)
  {
    var a2 := SwapSlots(a, 1, |a| - 1)[..|a| - 1];
    forall i | 2 <= i < |a2| && i / 2 != 1
      ensures Prio(a2, i / 2) <= Prio(a2, i)
    {
      assert a2[i] == a[i] && a2[i / 2] == a[i / 2];
    }
  }

  /** The slot the map gives for `e` is the one slot holding `e`, so any stored
      pair for `e` is the one `GetPriority` reads. */
  lemma StoredPairIsFound<E>(h: Heap<E>, e: E, p: real)
    requires IndexConsistent(h)
    requires Entry(PriorityNode(e, p)) in multiset(h.elements)
    ensures GetPriority(h, e) == Ok(p)
  {
    var i :| 0 <= i < |h.elements| && h.elements[i] == Entry(PriorityNode(e, p));
    assert h.elementsToIndex[h.elements[i].node.element] == i;
  }

  /** Overwrites the priority of `e` in place, then swims on a decrease and sinks otherwise. */
  method ChangePriority<E(==)>(h: Heap<E>, e: E, p: real) returns (r: Result<Heap<E>>)
    requires Valid(h)
    ensures r.Err? <==> !Contains(h, e)
    ensures r.Err? ==> r.error == NoSuchElement
    ensures r.Ok? ==> Valid(r.value) && GetPriority(r.value, e) == Ok(p)
    ensures r.Ok? ==> r.value.elementsToIndex.Keys == h.elementsToIndex.Keys
    ensures r.Ok? ==> exists q :: GetPriority(h, e) == Ok(q)
                                  && multiset(r.value.elements) == multiset(h.elements) - multiset{Entry(PriorityNode(e, q))} + multiset{Entry(PriorityNode(e, p))}
  {
    if e !in h.elementsToIndex {
      return Err(NoSuchElement);
    }
    var index := h.elementsToIndex[e];
    var oldPriority := Prio(h.elements, index);
    var h1 := SetPriority(h, e, p);
    var h2;
    if p < oldPriority {
      h2 := Swim(h1, index);
    } else {
      h2 := Sink(h1, index);
    }
    assert h.elements[index] == Entry(PriorityNode(e, oldPriority));
    StoredPairIsFound(h2, e, p);
    return Ok(h2);
  }

  /** The in-place priority update of changePriority, before the heap is repaired:
      a decrease can only break order with the parent, an increase only with the children. */
  function SetPriority<E(==)>(h: Heap<E>, e: E, p: real): (h': Heap<E>)
    requires Valid(h) && e in h.elementsToIndex
    ensures IndexConsistent(h') && h'.elementsToIndex == h.elementsToIndex
    ensures var k := h.elementsToIndex[e];
            && h'.elements == h.elements[k := Entry(PriorityNode(e, p))]
            && (p < Prio(h.elements, k) ==> OrderedExcept(h'.elements, k))
            && (Prio(h.elements, k) <= p ==> OrderedBelow(h'.elements, k))
            && ParentBoundsChildren(h'.elements, k)
  {
    var a, k := h.elements, h.elementsToIndex[e];
    var a' := a[k := Entry(PriorityNode(e, p))];
    assert forall i :: 1 <= i < |a'| && i != k ==> a'[i] == a[i];
    Heap(a', h.elementsToIndex)
  }

  /** The pairs of `entries` as array slots, in order. */
  function Slots<E>(entries: seq<PriorityNode<E>>): (a: seq<Slot<E>>)
    ensures |a| == |entries|
    ensures forall i :: 0 <= i < |a| ==> a[i] == Entry(entries[i])
  {
    seq(|entries|, i requires 0 <= i < |entries| => Entry(entries[i]))
  }

  /** The elements of `entries`. */
  function Keys<E>(entries: seq<PriorityNode<E>>): set<E> {
    set i | 0 <= i < |entries| :: entries[i].element
  }

  /** The map-taking constructor, with the sentinel the no-argument constructor
      stores: adding the pairs one by one in the map's iteration order (here the
      order of `entries`) yields a valid heap holding exactly those pairs. */
  method FromMap<E(==)>(entries: seq<PriorityNode<E>>) returns (h: Heap<E>)
    requires DistinctElements(entries)
    ensures Valid(h) && Size(h) == |entries|
    ensures h.elementsToIndex.Keys == Keys(entries)
    ensures multiset(h.elements) == multiset([Null] + Slots(entries))
  {
    h := Empty();
    var i := 0;
    while i < |entries|
      invariant 0 <= i <= |entries|
      invariant Valid(h) && Size(h) == i
      invariant h.elementsToIndex.Keys == Keys(entries[..i])
      invariant multiset(h.elements) == multiset([Null] + Slots(entries[..i]))
    {
      var n := entries[i];
      assert n.element !in Keys(entries[..i]);
      var r := Add(h, n.element, n.priority);
      h := r.value;
      assert entries[..i + 1] == entries[..i] + [n];
      assert Slots(entries[..i + 1]) == Slots(entries[..i]) + [Entry(n)];
      assert Keys(entries[..i + 1]) == Keys(entries[..i]) + {n.element};
      i := i + 1;
    }
    assert entries[..i] == entries;
  }

  /** The map-taking constructor as written: it starts from an empty array and
      never stores the sentinel, so its first pair lands in slot 0, which `size`,
      `peekMin`, `removeMin` and `swim` treat as the sentinel. */
  function FromMapAsWritten<E(==)>(entries: seq<PriorityNode<E>>): (r: Result<Heap<E>>)
    ensures r.Ok? ==> |r.value.elements| == |entries|
    ensures r.Ok? ==> forall i :: 0 <= i < |r.value.elements| ==> r.value.elements[i].Entry?
    decreases |entries|
  {
    if |entries| == 0 then Ok(Heap([], map[]))
    else
      match FromMapAsWritten(entries[..|entries| - 1])
      case Err(x) => Err(x)
      case Ok(h) => AddAsWritten(h, entries[|entries| - 1])
  }

  /** `add` on an array without the sentinel: rejects a repeated element,
      appends the pair, records its slot and swims it. */
  function AddAsWritten<E(==)>(h: Heap<E>, n: PriorityNode<E>): (r: Result<Heap<E>>)
    requires forall i :: 0 <= i < |h.elements| ==> h.elements[i].Entry?
    ensures r.Err? <==> n.element in h.elementsToIndex
    ensures r.Ok? ==> |r.value.elements| == |h.elements| + 1
    ensures r.Ok? ==> forall i :: 0 <= i < |r.value.elements| ==> r.value.elements[i].Entry?
    ensures r.Ok? ==> n.element in r.value.elementsToIndex && h.elementsToIndex.Keys <= r.value.elementsToIndex.Keys
    ensures r.Ok? ==> multiset(r.value.elements) == multiset(h.elements) + multiset{Entry(n)}
  {
    if n.element in h.elementsToIndex then Err(IllegalArgument)
    else
      var a := h.elements + [Entry(n)];
      Ok(SwimAsWritten(Heap(a, h.elementsToIndex[n.element := |a| - 1]), |a| - 1))
  }

  /** `swim` on an array whose every slot holds a pair: it stops at slot 1,
      never comparing with slot 0. */
  function SwimAsWritten<E(==)>(h: Heap<E>, k: int): (h': Heap<E>)
    requires forall i :: 0 <= i < |h.elements| ==> h.elements[i].Entry?
    requires 0 <= k < |h.elements|
    ensures |h'.elements| == |h.elements|
    ensures forall i :: 0 <= i < |h'.elements| ==> h'.elements[i].Entry?
    ensures h.elementsToIndex.Keys <= h'.elementsToIndex.Keys
    ensures multiset(h'.elements) == multiset(h.elements)
    decreases k
  {
    if k > 1 && Prio(h.elements, k) < Prio(h.elements, k / 2) then
      var a' := SwapSlots(h.elements, k, k / 2);
      var m' := h.elementsToIndex[a'[k].node.element := k][a'[k / 2].node.element := k / 2];
      SwimAsWritten(Heap(a', m'), k / 2)
    else h
  }

  /** A map holding one pair builds a queue whose size is 0 although it
      contains the element; with two pairs, the slot `peekMin` reads holds the
      larger priority. */
  lemma FromMapLosesSentinel<E>(a: E, b: E)
    requires a != b
    ensures var r := FromMapAsWritten([PriorityNode(a, 1.0)]);
            r.Ok? && Size(r.value) == 0 && a in r.value.elementsToIndex
    ensures var r := FromMapAsWritten([PriorityNode(a, 1.0), PriorityNode(b, 2.0)]);
            r.Ok? && Size(r.value) == 1 && r.value.elements[1] == Entry(PriorityNode(b, 2.0))
            && r.value.elements[0] == Entry(PriorityNode(a, 1.0))
  {
    var one := [PriorityNode(a, 1.0)];
    var two := [PriorityNode(a, 1.0), PriorityNode(b, 2.0)];
    assert one[..0] == [];
    assert two[..1] == one;
  }
}
