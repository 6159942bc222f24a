/** The two autocomplete implementations answer alike: loaded with the same
    distinct non-empty terms, the ternary search tree and the sorted list with
    the bound check (`BinarySearchAutocomplete.AllMatches`) return the same
    matches, in the same order, for every non-empty prefix. The sorted list as
    written agrees with them whenever it does not throw. */
module Autocompletes {
  import opened Results
  import opened Sequences
  import opened CharSequences
  import TST = TernarySearchTreeAutocomplete
  import BSA = BinarySearchAutocomplete

  /** A sorted list without repeated terms is strictly sorted. */
  lemma SortedDistinctIsStrict(s: seq<string>)
    requires Sorted(s) && forall x :: multiset(s)[x] <= 1
    ensures StrictlySorted(s)
  {
    forall i, j | 0 <= i < j < |s| ensures Less(s[i], s[j]) {
      if s[i] == s[j] {
        BSA.TwoCopies(s, i, j);
      }
    }
  }

  /** Distinct terms occur at most once each. */
  lemma {:induction false} DistinctCounts(terms: seq<string>)
    requires Distinct(terms)
    ensures forall x :: multiset(terms)[x] <= 1
    decreases |terms|
  {
    if |terms| > 0 {
      var rest := terms[1..];
      assert terms == [terms[0]] + rest;
      assert Distinct(rest);
      DistinctCounts(rest);
      assert terms[0] !in rest;
    }
  }

  /** The sorted list's matches form a strictly sorted sequence of exactly the
      stored terms that extend the prefix. */
  lemma SortedListAnswer(terms: seq<string>, prefix: string)
    requires Distinct(terms)
    ensures StrictlySorted(BSA.Matches(BSA.AddAll([], terms), prefix))
    ensures Members(BSA.Matches(BSA.AddAll([], terms), prefix)) == TST.Matching(Members(terms), prefix)
  {
    var list := BSA.AddAll([], terms);
    assert [] + terms == terms;
    DistinctCounts(terms);
    SortedDistinctIsStrict(list);
    forall x ensures x in list <==> x in terms {
      assert x in list <==> x in multiset(list);
    }
  }

  /** Loaded with the same distinct non-empty terms, the tree answers a
      non-empty prefix without throwing and with the sorted list's matches,
      as the filter `Matches` defines them. */
  lemma SameAnswers(terms: seq<string>, prefix: string)
    requires |prefix| > 0
    requires forall k :: 0 <= k < |terms| ==> |terms[k]| > 0
    requires Distinct(terms)
    ensures TST.AddAll(TST.Null, terms).Ok?
    ensures TST.AllMatches(TST.AddAll(TST.Null, terms).value, prefix) == Ok(BSA.Matches(BSA.AddAll([], terms), prefix))
  {
    var root := TST.AddAll(TST.Null, terms).value;
    assert TST.Terms(root) == Members(terms);
    var r := TST.AllMatches(root, prefix).value;
    SortedListAnswer(terms, prefix);
    StrictlySortedUnique(r, BSA.Matches(BSA.AddAll([], terms), prefix));
  }

  /** With the empty prefix answered as every term, the tree and the sorted
      list agree on every prefix, the empty one included. */
  lemma SameAnswersEveryPrefix(terms: seq<string>, prefix: string)
    requires forall k :: 0 <= k < |terms| ==> |terms[k]| > 0
    requires Distinct(terms)
    ensures TST.AddAll(TST.Null, terms).Ok?
    ensures TST.AllMatchesEveryPrefix(TST.AddAll(TST.Null, terms).value, prefix) == BSA.Matches(BSA.AddAll([], terms), prefix)
  {
    var root := TST.AddAll(TST.Null, terms).value;
    assert TST.Terms(root) == Members(terms);
    var r := TST.AllMatchesEveryPrefix(root, prefix);
    SortedListAnswer(terms, prefix);
    StrictlySortedUnique(r, BSA.Matches(BSA.AddAll([], terms), prefix));
  }

  /** Both autocompletes queried alike: the tree, the sorted list with the
      bound check, and the sorted list as written. The first two agree; the
      third throws exactly when the run of matches reaches the end of the
      list, and otherwise agrees with them too. */
  method CompareAnswers(terms: seq<string>, prefix: string)
    returns (tree: Result<seq<string>>, guarded: seq<string>, asWritten: Result<seq<string>>)
    requires |prefix| > 0
    requires forall k :: 0 <= k < |terms| ==> |terms[k]| > 0
    requires Distinct(terms)
    ensures tree == Ok(guarded)
    ensures asWritten.Ok? ==> asWritten == tree
    ensures var list := BSA.AddAll([], terms);
            asWritten.Err? <==> |list| == 0 || IsPrefix(prefix, list[|list| - 1]) || Less(list[|list| - 1], prefix)
  {
    SameAnswers(terms, prefix);
    var root := TST.AddAll(TST.Null, terms).value;
    tree := TST.AllMatches(root, prefix);
    var list := BSA.AddAll([], terms);
    assert [] + terms == terms;
    DistinctCounts(terms);
    guarded := BSA.AllMatches(list, prefix);
    asWritten := BSA.AllMatchesAsWritten(list, prefix);
  }
}
