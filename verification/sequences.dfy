/** Vocabulary shared by every module that treats a sequence as a collection:
    the set of its terms, the absence of repeats, and reversal. */
module Sequences {

  /** The terms of a sequence, as a set. */
  function Members<T>(s: seq<T>): set<T> {
    set x | x in s
  }

  /** No term occurs twice. */
  predicate Distinct<T(==)>(s: seq<T>) {
    forall i, j :: 0 <= i < j < |s| ==> s[i] != s[j]
  }

  lemma MemberAt<T>(s: seq<T>, i: int)
    requires 0 <= i < |s|
    ensures s[i] in Members(s)
  {
  }

  lemma MembersConcat<T>(a: seq<T>, b: seq<T>)
    ensures Members(a + b) == Members(a) + Members(b)
  {
    assert forall x :: x in a + b <==> x in a || x in b;
  }

  lemma AppendMembers<T>(p: seq<T>, v: T)
    ensures Members(p + [v]) == Members(p) + {v}
  {
    assert forall x :: x in p + [v] <==> x in p || x == v;
  }

  lemma AppendDistinct<T>(p: seq<T>, v: T)
    requires Distinct(p) && v !in Members(p)
    ensures Distinct(p + [v])
  {
    var q := p + [v];
    forall i, j | 0 <= i < j < |q| ensures q[i] != q[j] {
      assert q[i] == p[i];
      if j < |p| {
        assert q[j] == p[j];
      }
    }
  }

  /** `Collections.reverse`: entry `i` of the result is entry `n - 1 - i` of the input. */
  function Reverse<T>(s: seq<T>): (r: seq<T>)
    ensures |r| == |s|
    ensures forall i :: 0 <= i < |s| ==> r[i] == s[|s| - 1 - i]
  {
    if |s| == 0 then [] else Reverse(s[1..]) + [s[0]]
  }
}
