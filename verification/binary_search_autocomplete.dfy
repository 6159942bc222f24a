/** The sorted-list autocomplete: terms are appended and the whole list sorted
    by `CharSequence.compare`; a query binary-searches for the prefix and scans
    forward while the terms extend it. */
module BinarySearchAutocomplete {
  import opened Results
  import opened CharSequences

  /** Inserts one term into a sorted list, before the first term not below it. */
  function Insert(x: string, s: seq<string>): (r: seq<string>)
    requires Sorted(s)
    ensures Sorted(r) && multiset(r) == multiset(s) + multiset{x}
  {
    if |s| == 0 then [x]
    else if LessEq(x, s[0]) then
      InsertFront(x, s);
      [x] + s
    else
      var rest := Insert(x, s[1..]);
      assert s == [s[0]] + s[1..];
      LessEqTotal(x, s[0]);
      InsertBehind(s[0], x, s[1..], rest);
      [s[0]] + rest
  }

  lemma InsertFront(x: string, s: seq<string>)
    requires Sorted(s) && |s| > 0 && LessEq(x, s[0])
    ensures Sorted([x] + s)
  {
    forall j | 0 < j < |s| + 1
      ensures LessEq(x, ([x] + s)[j])
    {
      LessEqTransitive(x, s[0], s[j - 1]);
    }
  }

  lemma InsertBehind(h: string, x: string, tail: seq<string>, rest: seq<string>)
    requires Sorted([h] + tail) && LessEq(h, x)
    requires Sorted(rest) && multiset(rest) == multiset(tail) + multiset{x}
    ensures Sorted([h] + rest)
  {
    forall j | 0 <= j < |rest|
      ensures LessEq(h, rest[j])
    {
      assert rest[j] in multiset(rest);
      assert ([h] + tail)[0] == h;
      if rest[j] != x {
        assert rest[j] in multiset(tail);
        var k :| 0 <= k < |tail| && tail[k] == rest[j];
        assert ([h] + tail)[k + 1] == tail[k];
      }
    }
  }

  /** An ordering of the terms by `CharSequence.compare`. */
  function Sort(s: seq<string>): (r: seq<string>)
    ensures Sorted(r) && multiset(r) == multiset(s)
  {
    if |s| == 0 then []
    else
      assert s == [s[0]] + s[1..];
      Insert(s[0], Sort(s[1..]))
  }

  /** Sorting is determined by its input: two sorted lists holding the same
      terms are equal, so any correct sort yields the list Java's sort yields. */
  lemma {:induction false} SortedUnique(a: seq<string>, b: seq<string>)
    requires Sorted(a) && Sorted(b) && multiset(a) == multiset(b)
    ensures a == b
    decreases |a|
  {
    if |a| == 0 {
      assert |multiset(b)| == 0;
    } else {
      assert |b| > 0 by {
        assert |multiset(b)| == |multiset(a)| == |a|;
      }
      SortedHeadsEqual(a, b);
      assert a == [a[0]] + a[1..] && b == [b[0]] + b[1..];
      assert multiset(a[1..]) == multiset(a) - multiset{a[0]};
      assert multiset(b[1..]) == multiset(b) - multiset{b[0]};
      SortedUnique(a[1..], b[1..]);
    }
  }

  /** Both lists start with their least term, which is the same term. */
  lemma SortedHeadsEqual(a: seq<string>, b: seq<string>)
    requires Sorted(a) && Sorted(b) && multiset(a) == multiset(b)
    requires |a| > 0 && |b| > 0
    ensures a[0] == b[0]
  {
    assert a[0] in multiset(b) && b[0] in multiset(a);
    var k :| 0 <= k < |b| && b[k] == a[0];
    var m :| 0 <= m < |a| && a[m] == b[0];
    assert LessEq(b[0], b[k]) || k == 0;
    assert LessEq(a[0], a[m]) || m == 0;
    LessEqAntisymmetric(a[0], b[0]);
  }

  /** `addAll`: append the new terms, then sort the whole list. */
  function AddAll(elements: seq<string>, terms: seq<string>): (r: seq<string>)
    ensures Sorted(r)
    ensures multiset(r) == multiset(elements) + multiset(terms)
  {
    Sort(elements + terms)
  }

  /** `Collections.binarySearch` with `CharSequence.compare`: an index holding
      the key, or `-(insertion point) - 1` when the key is absent. */
  method BinarySearch(list: seq<string>, key: string) returns (i: int)
    requires Sorted(list)
    ensures 0 <= i ==> i < |list| && list[i] == key
    ensures i < 0 ==> -i - 1 <= |list|
    ensures i < 0 ==> forall j :: 0 <= j < -i - 1 ==> Less(list[j], key)
    ensures i < 0 ==> forall j :: -i - 1 <= j < |list| ==> Less(key, list[j])
  {
    var low, high := 0, |list| - 1;
    while low <= high
      invariant 0 <= low <= high + 1 <= |list|
      invariant forall j :: 0 <= j < low ==> Less(list[j], key)
      invariant forall j :: high < j < |list| ==> Less(key, list[j])
    {
      var mid := (low + high) / 2;
      if Less(list[mid], key) {
        forall j | 0 <= j <= mid ensures Less(list[j], key) {
          if j < mid {
            LessEqLessTransitive(list[j], list[mid], key);
          }
        }
        low := mid + 1;
      } else if Less(key, list[mid]) {
        forall j | mid <= j < |list| ensures Less(key, list[j]) {
          if mid < j {
            LessEqLessTransitive(key, list[mid], list[j]);
          }
        }
        high := mid - 1;
      } else {
        LessTotal(list[mid], key);
        return mid;
      }
    }
    return -(low + 1);
  }

  /** The forward scan as written: `elements.get(i)` is read with no
      `i < size()` guard, so reaching the end of the list throws. */
  function ScanAsWritten(list: seq<string>, prefix: string, i: nat): (r: Result<seq<string>>)
    requires i <= |list|
    ensures r.Err? <==> forall k :: i <= k < |list| ==> IsPrefix(prefix, list[k])
    ensures r.Err? ==> r.error == IndexOutOfBounds
    ensures r.Ok? ==> r.value == Scan(list, prefix, i)
    decreases |list| - i
  {
    if i == |list| then Err(IndexOutOfBounds)
    else if IsPrefix(prefix, list[i]) then
      match ScanAsWritten(list, prefix, i + 1)
      case Ok(rest) => Ok([list[i]] + rest)
      case Err(e) => Err(e)
    else Ok([])
  }

  /** `list[i..e]` is a maximal run of terms extending `prefix`: all of them
      do, and the term at `e`, if any, does not. */
  predicate RunEnd(list: seq<string>, prefix: string, i: int, e: int) {
    && 0 <= i <= e <= |list|
    && (forall k :: i <= k < e ==> IsPrefix(prefix, list[k]))
    && (e < |list| ==> !IsPrefix(prefix, list[e]))
  }

  /** The forward scan with the bounds guard: the longest run of terms
      extending `prefix` that starts at `i`. */
  function Scan(list: seq<string>, prefix: string, i: nat): (r: seq<string>)
    requires i <= |list|
    ensures exists e :: RunEnd(list, prefix, i, e) && r == list[i..e]
    decreases |list| - i
  {
    if i == |list| || !IsPrefix(prefix, list[i]) then
      assert RunEnd(list, prefix, i, i) && [] == list[i..i];
      []
    else
      var rest := Scan(list, prefix, i + 1);
      var e :| RunEnd(list, prefix, i + 1, e) && rest == list[i + 1..e];
      assert RunEnd(list, prefix, i, e);
      assert [list[i]] + rest == list[i..e];
      [list[i]] + rest
  }

  /** Where the scan starts: the binary-search hit, or the insertion point. */
  function ScanStart(i: int): int {
    if i < 0 then -i - 1 else i
  }

  /** `allMatches` as written. The scan throws exactly when the run of
      matches reaches the end of the list: the list is empty, its last term
      extends the prefix, or every term sorts below the prefix. When it does
      not throw, it answers what the guarded `AllMatches` answers. */
  method AllMatchesAsWritten(elements: seq<string>, prefix: string) returns (r: Result<seq<string>>)
    requires Sorted(elements)
    ensures r.Err? <==> |elements| == 0 || IsPrefix(prefix, elements[|elements| - 1])
                        || Less(elements[|elements| - 1], prefix)
    ensures r.Err? ==> r.error == IndexOutOfBounds
    ensures r.Ok? ==> exists s, e :: 0 <= s <= e <= |elements| && r.value == elements[s..e]
    ensures r.Ok? ==> forall x :: x in r.value <==> x in elements && IsPrefix(prefix, x)
    ensures r.Ok? ==> Sorted(r.value)
    ensures r.Ok? && multiset(elements)[prefix] <= 1 ==> r.value == Matches(elements, prefix)
  {
    var i := BinarySearch(elements, prefix);
    var start := ScanStart(i);
    BeforeStartNoMatch(elements, prefix, i);
    r := ScanAsWritten(elements, prefix, start);
    ReachesEnd(elements, prefix, i);
    if r.Ok? {
      var e :| RunEnd(elements, prefix, start, e) && r.value == elements[start..e];
      AfterRunNoMatch(elements, prefix, start, e);
      if i < 0 {
        LessIrreflexive(prefix);
      }
      RunIsComplete(elements, prefix, start, e);
      if multiset(elements)[prefix] <= 1 {
        RunIsMatches(elements, prefix, start, e);
      }
    }
  }

  /** The run starting at the scan start covers the rest of the list exactly
      when the list is empty, its last term matches, or all terms sort below the prefix. */
  lemma ReachesEnd(elements: seq<string>, prefix: string, i: int)
    requires Sorted(elements)
    requires 0 <= i ==> i < |elements| && elements[i] == prefix
    requires i < 0 ==> -i - 1 <= |elements|
    requires i < 0 ==> forall j :: 0 <= j < -i - 1 ==> Less(elements[j], prefix)
    requires i < 0 ==> forall j :: -i - 1 <= j < |elements| ==> Less(prefix, elements[j])
    ensures 0 <= ScanStart(i) <= |elements|
    ensures (forall k :: ScanStart(i) <= k < |elements| ==> IsPrefix(prefix, elements[k]))
        <==> |elements| == 0 || IsPrefix(prefix, elements[|elements| - 1]) || Less(elements[|elements| - 1], prefix)
  {
    var n := |elements|;
    var start := ScanStart(i);
    BeforeStartNoMatch(elements, prefix, i);
    if n > 0 {
      var last := elements[n - 1];
      if IsPrefix(prefix, last) {
        forall k | start <= k < n ensures IsPrefix(prefix, elements[k]) {
          PrefixBetween(prefix, elements[k], last);
        }
      } else if Less(last, prefix) {
        if start < n {
          assert LessEq(prefix, last);
          LessAsymmetric(last, prefix);
          assert false;
        }
      } else {
        assert !IsPrefix(prefix, elements[n - 1]);
      }
    }
  }

  /** Before the scan start the only terms that can extend the prefix are
      copies of the prefix itself, left behind when the search hit a later
      copy; stored at most once, nothing before the start matches. */
  lemma BeforeStartNoMatch(elements: seq<string>, prefix: string, i: int)
    requires Sorted(elements)
    requires 0 <= i ==> i < |elements| && elements[i] == prefix
    requires i < 0 ==> -i - 1 <= |elements|
    requires i < 0 ==> forall j :: 0 <= j < -i - 1 ==> Less(elements[j], prefix)
    requires i < 0 ==> forall j :: -i - 1 <= j < |elements| ==> Less(prefix, elements[j])
    ensures 0 <= ScanStart(i) <= |elements|
    ensures forall j :: 0 <= j < ScanStart(i) ==> elements[j] == prefix || !IsPrefix(prefix, elements[j])
    ensures multiset(elements)[prefix] <= 1 ==> forall j :: 0 <= j < ScanStart(i) ==> !IsPrefix(prefix, elements[j])
    ensures forall j :: ScanStart(i) <= j < |elements| ==> LessEq(prefix, elements[j])
  {
    if 0 <= i {
      forall j | 0 <= j < i ensures elements[j] == prefix || !IsPrefix(prefix, elements[j]) {
        if elements[j] != prefix {
          LessThanPrefixIsNotMatch(elements[j], prefix);
        }
      }
      if multiset(elements)[prefix] <= 1 {
        forall j | 0 <= j < i ensures elements[j] != prefix {
          if elements[j] == prefix {
            TwoCopies(elements, j, i);
            assert false;
          }
        }
      }
    } else {
      forall j | 0 <= j < -i - 1 ensures !IsPrefix(prefix, elements[j]) {
        LessThanPrefixIsNotMatch(elements[j], prefix);
      }
    }
  }

  lemma TwoCopies(s: seq<string>, j: int, i: int)
    requires 0 <= j < i < |s| && s[j] == s[i]
    ensures multiset(s)[s[i]] >= 2
  {
    assert s == s[..j] + [s[j]] + s[j + 1..i] + [s[i]] + s[i + 1..];
  }

  /** The terms of `list` that extend `prefix`, in list order: what a query
      is meant to answer. */
  function Matches(list: seq<string>, prefix: string): (r: seq<string>)
    ensures forall x :: x in r <==> x in list && IsPrefix(prefix, x)
    ensures |r| <= |list|
    ensures Sorted(list) ==> Sorted(r)
    ensures StrictlySorted(list) ==> StrictlySorted(r)
    decreases |list|
  {
    if |list| == 0 then []
    else
      var rest := Matches(list[1..], prefix);
      assert forall x :: x in list <==> x == list[0] || x in list[1..];
      if IsPrefix(prefix, list[0]) then
        HeadBeforeRest(list, rest);
        [list[0]] + rest
      else rest
  }

  /** The head of a sorted list sorts before any term drawn from its tail. */
  lemma HeadBeforeRest(list: seq<string>, rest: seq<string>)
    requires |list| > 0
    requires forall x :: x in rest ==> x in list[1..]
    ensures Sorted(list) && Sorted(rest) ==> Sorted([list[0]] + rest)
    ensures StrictlySorted(list) && StrictlySorted(rest) ==> StrictlySorted([list[0]] + rest)
  {
    forall j | 0 <= j < |rest|
      ensures exists k :: 1 <= k < |list| && list[k] == rest[j]
    {
      assert rest[j] in list[1..];
      var k :| 0 <= k < |list[1..]| && list[1..][k] == rest[j];
      assert list[k + 1] == rest[j];
    }
  }

  lemma {:induction false} MatchesConcat(a: seq<string>, b: seq<string>, prefix: string)
    ensures Matches(a + b, prefix) == Matches(a, prefix) + Matches(b, prefix)
    decreases |a|
  {
    if |a| == 0 {
      assert a + b == b;
    } else {
      assert (a + b)[0] == a[0] && (a + b)[1..] == a[1..] + b;
      MatchesConcat(a[1..], b, prefix);
    }
  }

  lemma {:induction false} MatchesNone(a: seq<string>, prefix: string)
    requires forall k :: 0 <= k < |a| ==> !IsPrefix(prefix, a[k])
    ensures Matches(a, prefix) == []
    decreases |a|
  {
    if |a| > 0 {
      MatchesNone(a[1..], prefix);
    }
  }

  lemma {:induction false} MatchesAll(a: seq<string>, prefix: string)
    requires forall k :: 0 <= k < |a| ==> IsPrefix(prefix, a[k])
    ensures Matches(a, prefix) == a
    decreases |a|
  {
    if |a| > 0 {
      MatchesAll(a[1..], prefix);
      assert a == [a[0]] + a[1..];
    }
  }

  /** `allMatches` with the `i < size()` guard the loop needs: the run of
      terms extending the prefix from the search position. It never fails,
      returns a slice of the list, and holds every stored match; when the
      prefix is stored at most once it is exactly the list's matches in order. */
  method AllMatches(elements: seq<string>, prefix: string) returns (r: seq<string>)
    requires Sorted(elements)
    ensures exists s, e :: 0 <= s <= e <= |elements| && r == elements[s..e]
    ensures forall x :: x in r <==> x in elements && IsPrefix(prefix, x)
    ensures Sorted(r)
    ensures multiset(elements)[prefix] <= 1 ==> r == Matches(elements, prefix)
  {
    var i := BinarySearch(elements, prefix);
    var start := ScanStart(i);
    BeforeStartNoMatch(elements, prefix, i);
    var k := start;
    r := [];
    while k < |elements| && IsPrefix(prefix, elements[k])
      invariant start <= k <= |elements|
      invariant r == elements[start..k]
      invariant forall j :: start <= j < k ==> IsPrefix(prefix, elements[j])
    {
      r := r + [elements[k]];
      k := k + 1;
    }
    AfterRunNoMatch(elements, prefix, start, k);
    if i < 0 {
      LessIrreflexive(prefix);
    }
    RunIsComplete(elements, prefix, start, k);
    if multiset(elements)[prefix] <= 1 {
      RunIsMatches(elements, prefix, start, k);
    }
  }

  /** The run `elements[start..e]` is sorted and holds every stored match. */
  lemma RunIsComplete(elements: seq<string>, prefix: string, start: int, e: int)
    requires Sorted(elements) && 0 <= start <= e <= |elements|
    requires forall j :: 0 <= j < start ==> elements[j] == prefix || !IsPrefix(prefix, elements[j])
    requires (start < |elements| && elements[start] == prefix) || forall j :: 0 <= j < start ==> elements[j] != prefix
    requires forall j :: start <= j < e ==> IsPrefix(prefix, elements[j])
    requires forall j :: e <= j < |elements| ==> !IsPrefix(prefix, elements[j])
    ensures forall x :: x in elements[start..e] <==> x in elements && IsPrefix(prefix, x)
    ensures Sorted(elements[start..e])
  {
    var r := elements[start..e];
    forall x | x in elements && IsPrefix(prefix, x) ensures x in r {
      var j :| 0 <= j < |elements| && elements[j] == x;
      if j < start {
        assert IsPrefix(prefix, elements[start]);
        assert r[0] == prefix;
      } else {
        assert r[j - start] == x;
      }
    }
    forall a, b | 0 <= a < b < |r| ensures LessEq(r[a], r[b]) {
      assert r[a] == elements[start + a] && r[b] == elements[start + b];
    }
  }

  /** With no match before the run and none after it, the run is the filter. */
  lemma RunIsMatches(elements: seq<string>, prefix: string, start: int, e: int)
    requires 0 <= start <= e <= |elements|
    requires forall j :: 0 <= j < start ==> !IsPrefix(prefix, elements[j])
    requires forall j :: start <= j < e ==> IsPrefix(prefix, elements[j])
    requires forall j :: e <= j < |elements| ==> !IsPrefix(prefix, elements[j])
    ensures elements[start..e] == Matches(elements, prefix)
  {
    var a, r, b := elements[..start], elements[start..e], elements[e..];
    assert elements == a + r + b;
    assert Matches(a, prefix) == [] by {
      assert forall k :: 0 <= k < |a| ==> a[k] == elements[k];
      MatchesNone(a, prefix);
    }
    assert Matches(r, prefix) == r by {
      assert forall k :: 0 <= k < |r| ==> r[k] == elements[start + k];
      MatchesAll(r, prefix);
    }
    assert Matches(b, prefix) == [] by {
      assert forall k :: 0 <= k < |b| ==> b[k] == elements[e + k];
      MatchesNone(b, prefix);
    }
    MatchesConcat(a + r, b, prefix);
    MatchesConcat(a, r, prefix);
  }

  /** Once a term at or above the prefix fails to extend it, no later term
      of the sorted list extends it either. */
  lemma AfterRunNoMatch(elements: seq<string>, prefix: string, start: int, e: int)
    requires Sorted(elements) && 0 <= start <= e <= |elements|
    requires forall j :: start <= j < |elements| ==> LessEq(prefix, elements[j])
    requires e < |elements| ==> !IsPrefix(prefix, elements[e])
    ensures forall j :: e <= j < |elements| ==> !IsPrefix(prefix, elements[j])
  {
    forall j | e <= j < |elements| ensures !IsPrefix(prefix, elements[j]) {
      if IsPrefix(prefix, elements[j]) && e < j {
        PrefixBetween(prefix, elements[e], elements[j]);
      }
    }
  }

  /** A one-term list whose term extends the prefix: the search finds the
      insertion point 0, the run reaches the end, and the unguarded read past
      it throws, while the guarded scan answers the term. */
  lemma ScanPastEnd()
    ensures Less("d", "dog") && IsPrefix("d", "dog")
    ensures ScanAsWritten(["dog"], "d", 0) == Err(IndexOutOfBounds)
    ensures Matches(["dog"], "d") == ["dog"]
  {
    ProperPrefixLess("d", "dog");
  }

  /** The empty prefix on a non-empty list: every term extends it, so the
      unguarded scan always runs off the end, while the guarded one returns
      the whole list. */
  lemma EmptyPrefixPastEnd(elements: seq<string>)
    requires Sorted(elements) && |elements| > 0
    ensures ScanAsWritten(elements, "", 0) == Err(IndexOutOfBounds)
    ensures Matches(elements, "") == elements
  {
    assert forall k :: 0 <= k < |elements| ==> IsPrefix("", elements[k]);
    MatchesAll(elements, "");
  }
}
