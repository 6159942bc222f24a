/** The ternary-search-tree autocomplete. Each node holds one character; its
    left and right subtrees hold the alternative characters for the same
    position (smaller and larger), its middle subtree the next position of the
    terms that continue through it. A node is flagged when the path to it
    spells a whole stored term. */
module TernarySearchTreeAutocomplete {
  import opened Results
  import opened Sequences
  import opened CharSequences

  /** A tree; `Null` is the absent child. */
  datatype Tree = Null | Node(data: char, isTerm: bool, left: Tree, mid: Tree, right: Tree)

  /** The characters offered at this tree's position: the node and its left/right alternatives. */
  function Level(t: Tree): set<char> {
    match t
    case Null => {}
    case Node(d, _, l, _, r) => Level(l) + {d} + Level(r)
  }

  /** The search-tree ordering at every position. */
  predicate Ordered(t: Tree) {
    match t
    case Null => true
    case Node(d, _, l, m, r) =>
      && (forall c :: c in Level(l) ==> c < d)
      && (forall c :: c in Level(r) ==> d < c)
      && Ordered(l) && Ordered(m) && Ordered(r)
  }

  /** The terms stored in `t` when the path above it spells `p`. */
  function Stored(t: Tree, p: string): set<string> {
    match t
    case Null => {}
    case Node(d, b, l, m, r) =>
      Stored(l, p) + (if b then {p + [d]} else {}) + Stored(m, p + [d]) + Stored(r, p)
  }

  /** The terms held by a whole tree. */
  function Terms(root: Tree): set<string> {
    Stored(root, [])
  }

  /** The terms of `s` that extend `p`. */
  function Matching(s: set<string>, p: string): set<string> {
    set x | x in s && IsPrefix(p, x)
  }

  /** Every term stored under path `p` extends `p` by at least one character,
      and its next character is one this position offers. */
  lemma {:induction false} StoredShape(t: Tree, p: string, x: string)
    requires x in Stored(t, p)
    ensures IsPrefix(p, x) && |x| > |p| && x[|p|] in Level(t)
  {
    match t
    case Node(d, b, l, m, r) =>
      if x in Stored(l, p) {
        StoredShape(l, p, x);
      } else if x in Stored(r, p) {
        StoredShape(r, p, x);
      } else if x in Stored(m, p + [d]) {
        StoredShape(m, p + [d], x);
        assert x[..|p| + 1] == p + [d];
        assert x[..|p|] == (p + [d])[..|p|];
      }
  }

  /** The recursive insertion of `term[i..]` below the path `p`. */
  function Add(t: Tree, term: string, i: nat): (r: Tree)
    requires i < |term|
    ensures r.Node?
    ensures Level(r) == Level(t) + {term[i]}
    ensures forall p :: Stored(r, p) == Stored(t, p) + {p + term[i..]}
    ensures Ordered(t) ==> Ordered(r)
    decreases |term| - i, t
  {
    var c := term[i];
    match t
    case Null =>
      if i + 1 < |term| then
        var m := Add(Null, term, i + 1);
        AppendStep(term, i);
        Node(c, false, Null, m, Null)
      else
        assert term[i..] == [c];
        Node(c, true, Null, Null, Null)
    case Node(d, b, l, m, r) =>
      if c < d then Node(d, b, Add(l, term, i), m, r)
      else if c > d then Node(d, b, l, m, Add(r, term, i))
      else if i + 1 < |term| then
        var m' := Add(m, term, i + 1);
        AppendStep(term, i);
        Node(d, b, l, m', r)
      else
        assert term[i..] == [c];
        Node(d, true, l, m, r)
  }

  lemma AppendStep(term: string, i: nat)
    requires i < |term|
    ensures forall p :: (p + [term[i]]) + term[i + 1..] == p + term[i..]
  {
    assert term[i..] == [term[i]] + term[i + 1..];
  }

  /** Inserts every term in order; an empty term makes `charAt(0)` throw. */
  function AddAll(root: Tree, terms: seq<string>): (r: Result<Tree>)
    ensures r.Ok? <==> forall k :: 0 <= k < |terms| ==> |terms[k]| > 0
    ensures r.Err? ==> r.error == IndexOutOfBounds
    ensures r.Ok? ==> Terms(r.value) == Terms(root) + Members(terms)
    ensures r.Ok? && Ordered(root) ==> Ordered(r.value)
    decreases |terms|
  {
    if |terms| == 0 then Ok(root)
    else if |terms[0]| == 0 then Err(IndexOutOfBounds)
    else
      var t := Add(root, terms[0], 0);
      assert [] + terms[0][0..] == terms[0];
      assert Members(terms) == {terms[0]} + Members(terms[1..]);
      AddAll(t, terms[1..])
  }

  /** The node whose path spells `prefix`, or `Null` if no path does. */
  function GetNode(t: Tree, prefix: string, i: nat): (r: Tree)
    requires i < |prefix|
    ensures Ordered(t) ==> Ordered(r)
    ensures r.Node? ==> r.data == prefix[|prefix| - 1]
    ensures Ordered(t) && r.Null? ==> Matching(Stored(t, prefix[..i]), prefix) == {}
    ensures Ordered(t) && r.Node? ==>
      Matching(Stored(t, prefix[..i]), prefix) == (if r.isTerm then {prefix} else {}) + Stored(r.mid, prefix)
    decreases t
  {
    match t
    case Null => Null
    case Node(d, b, l, m, rt) =>
      var c := prefix[i];
      var q := prefix[..i];
      if c < d then
        var r := GetNode(l, prefix, i);
        GetNodeSkips(t, prefix, i, l);
        r
      else if c > d then
        var r := GetNode(rt, prefix, i);
        GetNodeSkips(t, prefix, i, rt);
        r
      else if i + 1 == |prefix| then
        GetNodeStops(t, prefix, i);
        t
      else
        assert q + [d] == prefix[..i + 1];
        GetNodeDescends(t, prefix, i);
        GetNode(m, prefix, i + 1)
  }

  /** When the next prefix character differs from the node's, only the
      subtree on that side can hold matches. */
  lemma GetNodeSkips(t: Tree, prefix: string, i: nat, side: Tree)
    requires t.Node? && i < |prefix|
    requires (prefix[i] < t.data && side == t.left) || (prefix[i] > t.data && side == t.right)
    ensures Ordered(t) ==>
      Matching(Stored(t, prefix[..i]), prefix) == Matching(Stored(side, prefix[..i]), prefix)
  {
    if Ordered(t) {
      var q := prefix[..i];
      forall x | x in Stored(t, q) && IsPrefix(prefix, x)
        ensures x in Stored(side, q)
      {
        StoredShape(t, q, x);
        assert x[i] == prefix[i];
        if x in Stored(t.left, q) {
          StoredShape(t.left, q, x);
        } else if x in Stored(t.right, q) {
          StoredShape(t.right, q, x);
        } else if x in Stored(t.mid, q + [t.data]) {
          StoredShape(t.mid, q + [t.data], x);
        }
      }
    }
  }

  /** When the last prefix character is the node's, the matches are the node's
      own term and everything below its middle child. */
  lemma GetNodeStops(t: Tree, prefix: string, i: nat)
    requires t.Node? && i + 1 == |prefix| && prefix[i] == t.data
    ensures Ordered(t) ==>
      Matching(Stored(t, prefix[..i]), prefix) == (if t.isTerm then {prefix} else {}) + Stored(t.mid, prefix)
  {
    if Ordered(t) {
      var q := prefix[..i];
      assert q + [t.data] == prefix;
      forall x | x in Stored(t, q) && IsPrefix(prefix, x)
        ensures x in (if t.isTerm then {prefix} else {}) + Stored(t.mid, prefix)
      {
        if x in Stored(t.left, q) {
          StoredShape(t.left, q, x);
        } else if x in Stored(t.right, q) {
          StoredShape(t.right, q, x);
        }
      }
      forall x | x in Stored(t.mid, prefix)
        ensures IsPrefix(prefix, x)
      {
        StoredShape(t.mid, prefix, x);
      }
    }
  }

  /** When the prefix continues past the node's character, the matches all lie below its middle child. */
  lemma GetNodeDescends(t: Tree, prefix: string, i: nat)
    requires t.Node? && i + 1 < |prefix| && prefix[i] == t.data
    ensures Ordered(t) ==>
      Matching(Stored(t, prefix[..i]), prefix) == Matching(Stored(t.mid, prefix[..i + 1]), prefix)
  {
    if Ordered(t) {
      var q := prefix[..i];
      assert q + [t.data] == prefix[..i + 1];
      forall x | x in Stored(t, q) && IsPrefix(prefix, x)
        ensures x in Stored(t.mid, prefix[..i + 1])
      {
        assert x[i] == prefix[i];
        if x in Stored(t.left, q) {
          StoredShape(t.left, q, x);
        } else if x in Stored(t.right, q) {
          StoredShape(t.right, q, x);
        }
      }
    }
  }

  /** The in-order walk of `collectMatches`: left alternatives, the node's own
      term, the terms continuing through the middle child, right alternatives. */
  function Collect(t: Tree, p: string): (r: seq<string>)
    ensures Members(r) == Stored(t, p)
    ensures Ordered(t) ==> StrictlySorted(r)
  {
    match t
    case Null => []
    case Node(d, b, l, m, rt) =>
      var left := Collect(l, p);
      var self := if b then [p + [d]] else [];
      var mid := Collect(m, p + [d]);
      var right := Collect(rt, p);
      CollectInOrder(t, p, left, self, mid, right);
      left + (self + (mid + right))
  }

  lemma CollectInOrder(t: Tree, p: string, left: seq<string>, self: seq<string>, mid: seq<string>, right: seq<string>)
    requires t.Node?
    requires Members(left) == Stored(t.left, p)
    requires self == if t.isTerm then [p + [t.data]] else []
    requires Members(mid) == Stored(t.mid, p + [t.data])
    requires Members(right) == Stored(t.right, p)
    requires Ordered(t) ==> StrictlySorted(left) && StrictlySorted(mid) && StrictlySorted(right)
    ensures Members(left + (self + (mid + right))) == Stored(t, p)
    ensures Ordered(t) ==> StrictlySorted(left + (self + (mid + right)))
  {
    MembersConcat(mid, right);
    MembersConcat(self, mid + right);
    MembersConcat(left, self + (mid + right));
    if Ordered(t) {
      MidBeforeRight(t, p, mid, right);
      ConcatStrictlySorted(mid, right);
      SelfBeforeRest(t, p, self, mid + right);
      ConcatStrictlySorted(self, mid + right);
      LeftBeforeRest(t, p, left, self + (mid + right));
      ConcatStrictlySorted(left, self + (mid + right));
    }
  }

  lemma MidBeforeRight(t: Tree, p: string, mid: seq<string>, right: seq<string>)
    requires t.Node? && Ordered(t)
    requires Members(mid) == Stored(t.mid, p + [t.data])
    requires Members(right) == Stored(t.right, p)
    ensures AllLess(mid, right)
  {
    forall i, j | 0 <= i < |mid| && 0 <= j < |right|
      ensures Less(mid[i], right[j])
    {
      assert mid[i] in Members(mid) && right[j] in Members(right);
      StoredShape(t.mid, p + [t.data], mid[i]);
      StoredShape(t.right, p, right[j]);
      assert mid[i][..|p|] == (p + [t.data])[..|p|];
      LessAt(mid[i], right[j], |p|);
    }
  }

  lemma SelfBeforeRest(t: Tree, p: string, self: seq<string>, rest: seq<string>)
    requires t.Node? && Ordered(t)
    requires self == if t.isTerm then [p + [t.data]] else []
    requires Members(rest) == Stored(t.mid, p + [t.data]) + Stored(t.right, p)
    ensures AllLess(self, rest)
  {
    forall i, j | 0 <= i < |self| && 0 <= j < |rest|
      ensures Less(self[i], rest[j])
    {
      assert rest[j] in Members(rest);
      if rest[j] in Stored(t.mid, p + [t.data]) {
        StoredShape(t.mid, p + [t.data], rest[j]);
        ProperPrefixLess(self[i], rest[j]);
      } else {
        StoredShape(t.right, p, rest[j]);
        LessAt(self[i], rest[j], |p|);
      }
    }
  }

  lemma LeftBeforeRest(t: Tree, p: string, left: seq<string>, rest: seq<string>)
    requires t.Node? && Ordered(t)
    requires Members(left) == Stored(t.left, p)
    requires Members(rest) == (if t.isTerm then {p + [t.data]} else {}) + (Stored(t.mid, p + [t.data]) + Stored(t.right, p))
    ensures AllLess(left, rest)
  {
    forall i, j | 0 <= i < |left| && 0 <= j < |rest|
      ensures Less(left[i], rest[j])
    {
      assert left[i] in Members(left) && rest[j] in Members(rest);
      LeftBeforeTerm(t, p, left[i], rest[j]);
    }
  }

  lemma LeftBeforeTerm(t: Tree, p: string, x: string, y: string)
    requires t.Node? && Ordered(t)
    requires x in Stored(t.left, p)
    requires y in (if t.isTerm then {p + [t.data]} else {}) + (Stored(t.mid, p + [t.data]) + Stored(t.right, p))
    ensures Less(x, y)
  {
    StoredShape(t.left, p, x);
    if y in Stored(t.mid, p + [t.data]) {
      StoredShape(t.mid, p + [t.data], y);
      assert y[..|p|] == (p + [t.data])[..|p|];
    } else if y in Stored(t.right, p) {
      StoredShape(t.right, p, y);
    }
    LessAt(x, y, |p|);
  }

  /** `allMatches`: descend to the node spelling the prefix, emit the prefix
      itself if it is a term, then every term below the node's middle child.
      An empty prefix on a non-empty tree makes `charAt(0)` throw. */
  function AllMatches(root: Tree, prefix: string): (r: Result<seq<string>>)
    ensures r.Err? <==> root.Node? && |prefix| == 0
    ensures r.Err? ==> r.error == IndexOutOfBounds
    ensures r.Ok? && Ordered(root) ==> Members(r.value) == Matching(Terms(root), prefix)
    ensures r.Ok? && Ordered(root) ==> StrictlySorted(r.value)
    ensures r.Ok? && Ordered(root) ==> (prefix in Terms(root) <==> |r.value| > 0 && r.value[0] == prefix)
  {
    if root.Null? then Ok([])
    else if |prefix| == 0 then Err(IndexOutOfBounds)
    else
      var n := GetNode(root, prefix, 0);
      assert prefix[..0] == [];
      if n.Null? then
        NoNodeNoMatch(root, prefix);
        Ok([])
      else
        var self := if n.isTerm then [prefix] else [];
        var rest := Collect(n.mid, prefix);
        MatchesBelowNode(n, prefix, self, rest);
        Ok(self + rest)
  }

  /** `allMatches` with the empty prefix answered as every stored term, in
      order, instead of throwing. */
  function AllMatchesEveryPrefix(root: Tree, prefix: string): (r: seq<string>)
    ensures Ordered(root) ==> Members(r) == Matching(Terms(root), prefix)
    ensures Ordered(root) ==> StrictlySorted(r)
  {
    if |prefix| == 0 then
      assert forall x :: IsPrefix(prefix, x);
      Collect(root, [])
    else AllMatches(root, prefix).value
  }

  /** A tree holding only `"a"`: `allMatches("")` throws, although `"a"`
      extends the empty prefix and the corrected query returns it. */
  lemma EmptyPrefixThrows()
    ensures Terms(Add(Null, "a", 0)) == {"a"}
    ensures AllMatches(Add(Null, "a", 0), "") == Err(IndexOutOfBounds)
    ensures AllMatchesEveryPrefix(Add(Null, "a", 0), "") == ["a"]
  {
    var t := Add(Null, "a", 0);
    assert Stored(Null, []) == {};
    assert [] + "a"[0..] == "a";
    assert Stored(t, []) == Stored(Null, []) + {[] + "a"[0..]};
    assert Ordered(t);
    var r := AllMatchesEveryPrefix(t, "");
    assert Members(r) == {"a"} by {
      assert IsPrefix("", "a");
    }
    assert "a" in r;
  }

  /** When no node spells the prefix, nothing stored extends it, the prefix
      itself included. */
  lemma NoNodeNoMatch(root: Tree, prefix: string)
    requires |prefix| > 0 && GetNode(root, prefix, 0).Null?
    ensures Ordered(root) ==> Members<string>([]) == Matching(Terms(root), prefix) && prefix !in Terms(root)
  {
    assert prefix[..0] == [];
    assert IsPrefix(prefix, prefix);
    if Ordered(root) {
      assert Matching(Stored(root, prefix[..0]), prefix) == {};
      assert Members<string>([]) == {};
    }
  }

  lemma MatchesBelowNode(n: Tree, prefix: string, self: seq<string>, rest: seq<string>)
    requires n.Node?
    requires self == if n.isTerm then [prefix] else []
    requires Members(rest) == Stored(n.mid, prefix)
    ensures Members(self + rest) == (if n.isTerm then {prefix} else {}) + Stored(n.mid, prefix)
    ensures StrictlySorted(rest) ==> StrictlySorted(self + rest)
    ensures prefix !in Stored(n.mid, prefix)
    ensures |self + rest| > 0 && (self + rest)[0] == prefix <==> n.isTerm
  {
    MembersConcat(self, rest);
    forall i, j | 0 <= i < |self| && 0 <= j < |rest|
      ensures Less(self[i], rest[j])
    {
      assert rest[j] in Members(rest);
      StoredShape(n.mid, prefix, rest[j]);
      ProperPrefixLess(prefix, rest[j]);
    }
    if StrictlySorted(rest) {
      ConcatStrictlySorted(self, rest);
    }
    if prefix in Stored(n.mid, prefix) {
      StoredShape(n.mid, prefix, prefix);
    }
    if !n.isTerm && |rest| > 0 {
      assert rest[0] in Members(rest);
      StoredShape(n.mid, prefix, rest[0]);
    }
  }

  /** Adding a term a second time changes nothing: no node is created and the
      term's flag is already set. */
  lemma {:induction false} AddIdempotent(t: Tree, term: string, i: nat)
    requires i < |term|
    ensures Add(Add(t, term, i), term, i) == Add(t, term, i)
    decreases |term| - i, t
  {
    match t
    case Null =>
      if i + 1 < |term| {
        AddIdempotent(Null, term, i + 1);
      }
    case Node(d, b, l, m, r) =>
      if term[i] < d {
        AddIdempotent(l, term, i);
      } else if term[i] > d {
        AddIdempotent(r, term, i);
      } else if i + 1 < |term| {
        AddIdempotent(m, term, i + 1);
      }
  }

  /** After a term is added, descending along it ends at a node flagged as a term. */
  lemma AddThenFind(t: Tree, term: string)
    requires Ordered(t) && |term| > 0
    ensures GetNode(Add(t, term, 0), term, 0).Node?
    ensures GetNode(Add(t, term, 0), term, 0).isTerm
  {
    var t' := Add(t, term, 0);
    var n := GetNode(t', term, 0);
    assert term[..0] == [] && [] + term[0..] == term;
    assert term in Matching(Terms(t'), term);
    if n.Node? && !n.isTerm {
      StoredShape(n.mid, term, term);
    }
  }
}
