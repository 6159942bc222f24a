/** Element-priority pairs and the contract shared by every min-priority queue
    strategy: an associative collection of distinct elements, each carrying a
    priority, from which the least priority is read or removed. */
module PriorityNodes {

  /** One stored pair; the element identifies the pair, the priority ranks it.
      Priorities are reals: IEEE double rounding, NaN and infinities are not modelled. */
  datatype PriorityNode<E> = PriorityNode(element: E, priority: real)

  /** Some pair in `s` holds element `e`. */
  predicate Holds<E(==)>(s: seq<PriorityNode<E>>, e: E) {
    exists i :: 0 <= i < |s| && s[i].element == e
  }

  /** No element is stored twice. */
  predicate DistinctElements<E(==)>(s: seq<PriorityNode<E>>) {
    forall i, j :: 0 <= i < j < |s| ==> s[i].element != s[j].element
  }

  /** `p` is no greater than any stored priority. */
  predicate AtMostAll<E>(s: seq<PriorityNode<E>>, p: real) {
    forall j :: 0 <= j < |s| ==> p <= s[j].priority
  }

  /** `i` is the first position of element `e`. */
  predicate FirstIndexOf<E(==)>(s: seq<PriorityNode<E>>, e: E, i: int) {
    && 0 <= i < |s|
    && s[i].element == e
    && forall j :: 0 <= j < i ==> s[j].element != e
  }

  /** `k` is the first position holding a least priority. */
  predicate FirstMinimum<E>(s: seq<PriorityNode<E>>, k: int) {
    && 0 <= k < |s|
    && AtMostAll(s, s[k].priority)
    && forall j :: 0 <= j < k ==> s[k].priority < s[j].priority
  }

  /** Removing one position keeps the others distinct. */
  lemma RemovePreservesDistinct<E>(s: seq<PriorityNode<E>>, k: int)
    requires DistinctElements(s)
    requires 0 <= k < |s|
    ensures DistinctElements(s[..k] + s[k+1..])
    ensures !Holds(s[..k] + s[k+1..], s[k].element)
  {
    var t := s[..k] + s[k+1..];
    forall i | 0 <= i < |t|
      ensures t[i] == if i < k then s[i] else s[i+1]
    {
    }
  }
}
