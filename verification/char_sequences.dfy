/** Character sequences under the ordering of Java's `CharSequence.compare`:
    characters compared by code, first difference decides, and a proper prefix
    sorts before its extensions. A `char` is a Unicode scalar value; Java
    compares UTF-16 code units, which agrees for characters below U+10000. Also the literal-prefix relation used by
    autocomplete. */
module CharSequences {
  import opened Sequences

  /** `p` is a literal prefix of `s`. */
  predicate IsPrefix(p: string, s: string) {
    |p| <= |s| && s[..|p|] == p
  }

  /** `CharSequence.compare(a, b) < 0`. */
  predicate Less(a: string, b: string)
    decreases |a|
  {
    if |a| == 0 then |b| > 0
    else |b| > 0 && (a[0] < b[0] || (a[0] == b[0] && Less(a[1..], b[1..])))
  }

  /** `CharSequence.compare(a, b) <= 0`; it returns 0 only for equal sequences. */
  predicate LessEq(a: string, b: string) {
    a == b || Less(a, b)
  }

  /** Every pair in order, equal neighbours allowed. */
  predicate Sorted(s: seq<string>) {
    forall i, j :: 0 <= i < j < |s| ==> LessEq(s[i], s[j])
  }

  /** Every pair strictly in order, so no term occurs twice. */
  predicate StrictlySorted(s: seq<string>) {
    forall i, j :: 0 <= i < j < |s| ==> Less(s[i], s[j])
  }

  lemma {:induction false} LessIrreflexive(a: string)
    ensures !Less(a, a)
    decreases |a|
  {
    if |a| > 0 {
      LessIrreflexive(a[1..]);
    }
  }

  lemma {:induction false} LessTransitive(a: string, b: string, c: string)
    requires Less(a, b) && Less(b, c)
    ensures Less(a, c)
    decreases |a|
  {
    if |a| > 0 && a[0] == b[0] && b[0] == c[0] {
      LessTransitive(a[1..], b[1..], c[1..]);
    }
  }

  lemma {:induction false} LessTotal(a: string, b: string)
    ensures a == b || Less(a, b) || Less(b, a)
    decreases |a|
  {
    if |a| > 0 && |b| > 0 && a[0] == b[0] {
      LessTotal(a[1..], b[1..]);
      if a[1..] == b[1..] {
        assert a == [a[0]] + a[1..] && b == [b[0]] + b[1..];
      }
    }
  }

  lemma LessAsymmetric(a: string, b: string)
    requires Less(a, b)
    ensures !Less(b, a) && a != b
  {
    LessIrreflexive(a);
    if Less(b, a) {
      LessTransitive(a, b, a);
    }
  }

  lemma LessEqTransitive(a: string, b: string, c: string)
    requires LessEq(a, b) && LessEq(b, c)
    ensures LessEq(a, c)
  {
    if Less(a, b) && Less(b, c) {
      LessTransitive(a, b, c);
    }
  }

  /** A shared leading part does not change the comparison. */
  lemma {:induction false} LessCommonPrefix(p: string, x: string, y: string)
    ensures Less(p + x, p + y) <==> Less(x, y)
    decreases |p|
  {
    if |p| > 0 {
      assert (p + x)[1..] == p[1..] + x;
      assert (p + y)[1..] == p[1..] + y;
      LessCommonPrefix(p[1..], x, y);
    } else {
      assert p + x == x && p + y == y;
    }
  }

  /** After a shared leading part, the first differing character decides. */
  lemma LessAfterPrefix(p: string, x: string, y: string)
    requires |x| > 0 && |y| > 0 && x[0] < y[0]
    ensures Less(p + x, p + y)
  {
    LessCommonPrefix(p, x, y);
  }

  /** A proper prefix sorts before the sequence it begins. */
  lemma ProperPrefixLess(p: string, s: string)
    requires IsPrefix(p, s) && |p| < |s|
    ensures Less(p, s)
  {
    assert s == p + s[|p|..];
    assert p == p + [];
    LessCommonPrefix(p, [], s[|p|..]);
  }

  lemma PrefixLessEq(p: string, s: string)
    requires IsPrefix(p, s)
    ensures LessEq(p, s)
  {
    if |p| < |s| {
      ProperPrefixLess(p, s);
    }
  }

  /** Everything between a prefix and one of its extensions extends it too. */
  lemma {:induction false} PrefixBetween(p: string, x: string, y: string)
    requires LessEq(p, x) && LessEq(x, y) && IsPrefix(p, y)
    ensures IsPrefix(p, x)
    decreases |p|
  {
    if |p| > 0 && p != x && x != y {
      assert y[0] == p[0];
      PrefixBetween(p[1..], x[1..], y[1..]);
    }
  }

  /** A sequence below a prefix does not extend it. */
  lemma LessThanPrefixIsNotMatch(s: string, p: string)
    requires Less(s, p)
    ensures !IsPrefix(p, s)
  {
    if IsPrefix(p, s) {
      PrefixLessEq(p, s);
      LessAsymmetric(s, p);
    }
  }

  /** Two strictly sorted sequences with the same elements are equal. */
  lemma {:induction false} StrictlySortedUnique(a: seq<string>, b: seq<string>)
    requires StrictlySorted(a) && StrictlySorted(b)
    requires Members(a) == Members(b)
    ensures a == b
    decreases |a|
  {
    if |a| == 0 {
      if |b| > 0 {
        MemberAt(b, 0);
        assert false;
      }
    } else {
      assert a[0] in Members(b);
      assert b[0] in Members(a);
      var k :| 0 <= k < |b| && b[k] == a[0];
      var m :| 0 <= m < |a| && a[m] == b[0];
      if k > 0 {
        if m > 0 {
          LessAsymmetric(a[0], a[m]);
        } else {
          LessIrreflexive(a[0]);
        }
      }
      assert a[0] == b[0];
      var sa, sb := Members(a[1..]), Members(b[1..]);
      forall x | x in sa ensures x in sb {
        var i :| 1 <= i < |a| && a[i] == x;
        assert x in Members(b);
        LessAsymmetric(a[0], a[i]);
      }
      forall x | x in sb ensures x in sa {
        var i :| 1 <= i < |b| && b[i] == x;
        assert x in Members(a);
        LessAsymmetric(b[0], b[i]);
      }
      StrictlySortedUnique(a[1..], b[1..]);
      assert a == [a[0]] + a[1..] && b == [b[0]] + b[1..];
    }
  }

  /** Sequences agreeing on their first `n` characters are ordered by character `n`. */
  lemma LessAt(a: string, b: string, n: nat)
    requires n < |a| && n < |b| && a[..n] == b[..n] && a[n] < b[n]
    ensures Less(a, b)
  {
    assert a == a[..n] + a[n..] && b == b[..n] + b[n..];
    LessCommonPrefix(a[..n], a[n..], b[n..]);
  }

  /** Every element of `x` is below every element of `y`. */
  predicate AllLess(x: seq<string>, y: seq<string>) {
    forall i, j :: 0 <= i < |x| && 0 <= j < |y| ==> Less(x[i], y[j])
  }

  lemma ConcatStrictlySorted(x: seq<string>, y: seq<string>)
    requires StrictlySorted(x) && StrictlySorted(y) && AllLess(x, y)
    ensures StrictlySorted(x + y)
  {
    forall i, j | 0 <= i < j < |x + y|
      ensures Less((x + y)[i], (x + y)[j])
    {
      if j < |x| {
        assert Less(x[i], x[j]);
      } else if i >= |x| {
        assert Less(y[i - |x|], y[j - |x|]);
      } else {
        assert Less(x[i], y[j - |x|]);
      }
    }
  }

  lemma LessEqLessTransitive(a: string, b: string, c: string)
    requires (LessEq(a, b) && Less(b, c)) || (Less(a, b) && LessEq(b, c))
    ensures Less(a, c)
  {
    if a != b && b != c {
      LessTransitive(a, b, c);
    }
  }

  lemma LessEqAntisymmetric(a: string, b: string)
    requires LessEq(a, b) && LessEq(b, a)
    ensures a == b
  {
    if a != b {
      LessAsymmetric(a, b);
    }
  }

  lemma LessEqTotal(a: string, b: string)
    ensures LessEq(a, b) || LessEq(b, a)
  {
    LessTotal(a, b);
  }
}
