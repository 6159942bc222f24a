/** The unsorted-list priority queue: pairs are kept in insertion order and
    every query is a linear scan of the list. */
module UnsortedArrayMinPQ {
  import opened Results
  import opened PriorityNodes

  /** The backing list of element-priority pairs, in no particular order. */
  type Queue<E> = seq<PriorityNode<E>>

  /** The no-argument constructor: an empty list. */
  function Empty<E>(): (q: Queue<E>)
    ensures |q| == 0 && DistinctElements(q)
  {
    []
  }

  /** The map-taking constructor: adds the pairs one by one in the map's
      iteration order (here the order of `entries`); the keys of a map are
      distinct, so no `add` throws and the list is the entries themselves. */
  method FromMap<E(==)>(entries: seq<PriorityNode<E>>) returns (q: Queue<E>)
    requires DistinctElements(entries)
    ensures q == entries && DistinctElements(q)
  {
    q := Empty();
    var i := 0;
    while i < |entries|
      invariant 0 <= i <= |entries|
      invariant q == entries[..i]
    {
      assert !Holds(q, entries[i].element);
      var r := Add(q, entries[i].element, entries[i].priority);
      q := r.value;
      assert entries[..i + 1] == entries[..i] + [entries[i]];
      i := i + 1;
    }
    assert entries[..i] == entries;
  }

  /** The number of stored pairs. */
  function Size<E>(q: Queue<E>): nat {
    |q|
  }

  /** A linear scan for `e`. */
  method Contains<E(==)>(q: Queue<E>, e: E) returns (b: bool)
    ensures b <==> Holds(q, e)
  {
    var i := 0;
    while i < |q|
      invariant 0 <= i <= |q|
      invariant forall j :: 0 <= j < i ==> q[j].element != e
    {
      if q[i].element == e {
        return true;
      }
      i := i + 1;
    }
    return false;
  }

  /** Rejects an element already present; otherwise appends the pair. */
  method Add<E(==)>(q: Queue<E>, e: E, p: real) returns (r: Result<Queue<E>>)
    ensures r.Err? <==> Holds(q, e)
    ensures r.Err? ==> r.error == IllegalArgument
    ensures r.Ok? ==> r.value == q + [PriorityNode(e, p)]
    ensures r.Ok? ==> Holds(r.value, e) && Size(r.value) == Size(q) + 1
    ensures r.Ok? && DistinctElements(q) ==> DistinctElements(r.value)
  {
    var present := Contains(q, e);
    if present {
      return Err(IllegalArgument);
    }
    var q' := q + [PriorityNode(e, p)];
    assert q'[|q|].element == e;
    return Ok(q');
  }

  /** The priority of the first pair holding `e`. */
  method GetPriority<E(==)>(q: Queue<E>, e: E) returns (r: Result<real>)
    ensures r.Err? <==> !Holds(q, e)
    ensures r.Err? ==> r.error == NoSuchElement
    ensures r.Ok? ==> exists i :: FirstIndexOf(q, e, i) && q[i].priority == r.value
  {
    var i := 0;
    while i < |q|
      invariant 0 <= i <= |q|
      invariant forall j :: 0 <= j < i ==> q[j].element != e
    {
      if q[i].element == e {
        return Ok(q[i].priority);
      }
      i := i + 1;
    }
    return Err(NoSuchElement);
  }

  /** The position of the first least priority: the scan replaces the current
      candidate only on a strictly smaller priority. */
  method FindMin<E>(q: Queue<E>) returns (k: int)
    requires |q| > 0
    ensures FirstMinimum(q, k)
  {
    k := 0;
    var i := 1;
    while i < |q|
      invariant 1 <= i <= |q|
      invariant 0 <= k < i
      invariant forall j :: 0 <= j < i ==> q[k].priority <= q[j].priority
      invariant forall j :: 0 <= j < k ==> q[k].priority < q[j].priority
    {
      if q[i].priority < q[k].priority {
        k := i;
      }
      i := i + 1;
    }
  }

  /** The element of the first least-priority pair; throws on an empty queue. */
  method PeekMin<E>(q: Queue<E>) returns (r: Result<E>)
    ensures r.Err? <==> |q| == 0
    ensures r.Err? ==> r.error == NoSuchElement
    ensures r.Ok? ==> exists k :: FirstMinimum(q, k) && q[k].element == r.value
  {
    if |q| == 0 {
      return Err(NoSuchElement);
    }
    var k := FindMin(q);
    return Ok(q[k].element);
  }

  /** Removes the first least-priority pair, keeping the others in order, and
      returns its element with the remaining list. */
  method RemoveMin<E(==)>(q: Queue<E>) returns (r: Result<(E, Queue<E>)>)
    ensures r.Err? <==> |q| == 0
    ensures r.Err? ==> r.error == NoSuchElement
    ensures r.Ok? ==> exists k :: FirstMinimum(q, k) && r.value.0 == q[k].element && r.value.1 == q[..k] + q[k+1..]
    ensures r.Ok? ==> Size(r.value.1) == Size(q) - 1
    ensures r.Ok? && DistinctElements(q) ==> DistinctElements(r.value.1) && !Holds(r.value.1, r.value.0)
  {
    if |q| == 0 {
      return Err(NoSuchElement);
    }
    var k := FindMin(q);
    if DistinctElements(q) {
      RemovePreservesDistinct(q, k);
    }
    return Ok((q[k].element, q[..k] + q[k+1..]));
  }

  /** Gives every pair holding `e` the priority `p`; throws if there is none. */
  method ChangePriority<E(==)>(q: Queue<E>, e: E, p: real) returns (r: Result<Queue<E>>)
    ensures r.Err? <==> !Holds(q, e)
    ensures r.Err? ==> r.error == NoSuchElement
    ensures r.Ok? ==> |r.value| == |q|
    ensures r.Ok? ==> forall i :: 0 <= i < |q| ==> r.value[i].element == q[i].element
    ensures r.Ok? ==> forall i :: 0 <= i < |q| && q[i].element != e ==> r.value[i] == q[i]
    ensures r.Ok? ==> forall i :: 0 <= i < |q| && q[i].element == e ==> r.value[i].priority == p
    ensures r.Ok? && DistinctElements(q) ==> DistinctElements(r.value)
  {
    var present := Contains(q, e);
    if !present {
      return Err(NoSuchElement);
    }
    var q' := q;
    var i := 0;
    while i < |q|
      invariant 0 <= i <= |q| && |q'| == |q|
      invariant forall j :: i <= j < |q| ==> q'[j] == q[j]
      invariant forall j :: 0 <= j < i ==> q'[j] == (if q[j].element == e then PriorityNode(e, p) else q[j])
    {
      if q'[i].element == e {
        q' := q'[i := PriorityNode(e, p)];
      }
      i := i + 1;
    }
    return Ok(q');
  }
}
