/**
 * How `compare_images` turns the per-source cosine scores into one value
 * (Mean or Median, with the two-sample rejection), and `is_similar`.
 * Scores are `f32` in the library; here they are exact reals.
 */
module Aggregation {
  import opened Wrappers
  import opened Errors

  /** How the per-source scores are reduced to one cosine. */
  datatype Methodology = Mean | Median

  /** `RECOMMENDED_COSINE_THRESHOLD`, the default threshold of `is_similar`. */
  const RecommendedCosineThreshold: real := 0.48

  const SampleTooSmallText := "Sample size is too small. You should consider to use the mean methodology instead"
  const LowMidText := "Unable to get the low mid"
  const HighMidText := "Unable to get the high mid"
  const MedianText := "Unable to get the median"

  /** `fold(0., |acc, x| acc + x)`: the scores added left to right. */
  function Sum(s: seq<real>): real {
    if |s| == 0 then 0.0 else Sum(s[..|s| - 1]) + s[|s| - 1]
  }

  /** Number of scores strictly below `x`. */
  function CountBelow(s: seq<real>, x: real): nat {
    if |s| == 0 then 0 else CountBelow(s[..|s| - 1], x) + (if s[|s| - 1] < x then 1 else 0)
  }

  /** Number of scores strictly above `x`. */
  function CountAbove(s: seq<real>, x: real): nat {
    if |s| == 0 then 0 else CountAbove(s[..|s| - 1], x) + (if s[|s| - 1] > x then 1 else 0)
  }

  predicate SortedAsc(s: seq<real>) {
    forall i, j :: 0 <= i < j < |s| ==> s[i] <= s[j]
  }

  /** Puts `x` into its place in an ascending sequence. */
  function Insert(x: real, s: seq<real>): (r: seq<real>)
    requires SortedAsc(s)
    ensures SortedAsc(r)
    ensures multiset(r) == multiset(s) + multiset{x}
  {
    if |s| == 0 || x <= s[0] then
      ConsSorted(x, s);
      [x] + s
    else
      var rest := Insert(x, s[1..]);
      assert s == [s[0]] + s[1..];
      BelowAll(s[0], rest, s[1..] + [x]);
      ConsSorted(s[0], rest);
      [s[0]] + rest
  }

  lemma ConsSorted(h: real, t: seq<real>)
    requires SortedAsc(t)
    requires |t| > 0 ==> h <= t[0]
    ensures SortedAsc([h] + t)
  {
  }

  /** A value at most every element of `u` is at most every element of a permutation of `u`. */
  lemma BelowAll(h: real, t: seq<real>, u: seq<real>)
    requires multiset(t) == multiset(u)
    requires forall j :: 0 <= j < |u| ==> h <= u[j]
    ensures |t| > 0 ==> h <= t[0]
  {
    if |t| > 0 {
      assert t[0] in multiset(u);
    }
  }

  /**
   * `sort_unstable_by(|a, b| a.total_cmp(b))` on the scores: an ascending
   * permutation of them. Which of two equal scores comes first cannot be
   * observed in a sequence of reals, so stability does not matter.
   */
  function SortAscending(s: seq<real>): (r: seq<real>)
    ensures SortedAsc(r)
    ensures multiset(r) == multiset(s)
  {
    if |s| == 0 then []
    else
      assert s == s[..|s| - 1] + [s[|s| - 1]];
      Insert(s[|s| - 1], SortAscending(s[..|s| - 1]))
  }

  /** `Vec::get`: the element at `k`, if there is one. */
  function Get(s: seq<real>, k: int): Option<real> {
    if 0 <= k < |s| then Some(s[k]) else None
  }

  /**
   * The selection on the sorted scores: the middle element for an odd
   * count; for an even count the average of the elements just below and
   * just above the midpoint index `mid = len / 2`, that is `mid - 1` and
   * `mid + 1`, with an error when either does not exist.
   */
  function SelectMedian(sorted: seq<real>): (r: Result<real, FFIError>)
    ensures |sorted| % 2 == 1 ==> r == Ok(sorted[|sorted| / 2])
    ensures |sorted| % 2 == 0 && |sorted| >= 4 ==>
      r == Ok((sorted[|sorted| / 2 - 1] + sorted[|sorted| / 2 + 1]) / 2.0)
    ensures |sorted| == 2 ==> r == Err(Comparison(HighMidText))
  {
    var mid := |sorted| / 2;
    if |sorted| % 2 == 0 then
      match (Get(sorted, mid - 1), Get(sorted, mid + 1))
      case (Some(low), Some(high)) => Ok((low + high) / 2.0)
      case (None, _) => Err(Comparison(LowMidText))
      case (_, None) => Err(Comparison(HighMidText))
    else
      match Get(sorted, mid)
      case Some(v) => Ok(v)
      case None => Err(Comparison(MedianText))
  }

  /**
   * The reduction in `compare_images`: Median on exactly two scores is
   * refused; Mean divides the sum by `count`, the number of source
   * features; Median selects from the ascending-sorted scores.
   * `count` is zero only for an empty source list, which the library
   * does not handle (0/0 for Mean, `mid - 1` underflow for Median).
   */
  function Aggregate(scores: seq<real>, count: nat, methodology: Methodology): Result<real, FFIError>
    requires count > 0
  {
    if |scores| == 2 && methodology == Median then
      Err(Comparison(SampleTooSmallText))
    else
      match methodology
      case Mean => Ok(Sum(scores) / count as real)
      case Median => SelectMedian(SortAscending(scores))
  }

  /** `is_similar`: the cosine reaches the threshold, 0.48 unless one is given. */
  function IsSimilar(cosine: real, threshold: Option<real>): bool {
    cosine >= threshold.UnwrapOr(RecommendedCosineThreshold)
  }

  // ----- Sorting -----

  /** Two ascending sequences holding the same scores are equal. */
  lemma {:induction false} SortedUnique(a: seq<real>, b: seq<real>)
    requires SortedAsc(a) && SortedAsc(b) && multiset(a) == multiset(b)
    ensures a == b
    decreases |a|
  {
    assert |a| == |multiset(a)| == |multiset(b)| == |b|;
    if |a| > 0 {
      BelowAll(a[0], b, a);
      BelowAll(b[0], a, b);
      TailMultiset(a, b);
      SortedUnique(a[1..], b[1..]);
      assert a == [a[0]] + a[1..] && b == [b[0]] + b[1..];
    }
  }

  lemma TailMultiset(a: seq<real>, b: seq<real>)
    requires |a| > 0 && |b| > 0 && a[0] == b[0] && multiset(a) == multiset(b)
    ensures multiset(a[1..]) == multiset(b[1..])
  {
    assert a == [a[0]] + a[1..] && b == [b[0]] + b[1..];
    assert multiset(a[1..]) == multiset(a) - multiset{a[0]};
    assert multiset(b[1..]) == multiset(b) - multiset{b[0]};
  }

  lemma SortSortedIsIdentity(s: seq<real>)
    requires SortedAsc(s)
    ensures SortAscending(s) == s
  {
    SortedUnique(SortAscending(s), s);
  }

  // ----- Sums and counts do not depend on the order of the scores -----

  lemma {:induction false} SumRemove(s: seq<real>, k: nat)
    requires k < |s|
    ensures Sum(s) == Sum(s[..k] + s[k + 1..]) + s[k]
    decreases |s|
  {
    var n := |s|;
    if k < n - 1 {
      var init := s[..n - 1];
      SumRemove(init, k);
      assert init[..k] + init[k + 1..] == (s[..k] + s[k + 1..])[..n - 2];
      assert (s[..k] + s[k + 1..])[n - 2] == s[n - 1];
    } else {
      assert s[..k] + s[k + 1..] == s[..n - 1];
    }
  }

  lemma {:induction false} CountBelowRemove(s: seq<real>, k: nat, x: real)
    requires k < |s|
    ensures CountBelow(s, x) == CountBelow(s[..k] + s[k + 1..], x) + (if s[k] < x then 1 else 0)
    decreases |s|
  {
    var n := |s|;
    if k < n - 1 {
      var init := s[..n - 1];
      CountBelowRemove(init, k, x);
      assert init[..k] + init[k + 1..] == (s[..k] + s[k + 1..])[..n - 2];
      assert (s[..k] + s[k + 1..])[n - 2] == s[n - 1];
    } else {
      assert s[..k] + s[k + 1..] == s[..n - 1];
    }
  }

  lemma {:induction false} CountAboveRemove(s: seq<real>, k: nat, x: real)
    requires k < |s|
    ensures CountAbove(s, x) == CountAbove(s[..k] + s[k + 1..], x) + (if s[k] > x then 1 else 0)
    decreases |s|
  {
    var n := |s|;
    if k < n - 1 {
      var init := s[..n - 1];
      CountAboveRemove(init, k, x);
      assert init[..k] + init[k + 1..] == (s[..k] + s[k + 1..])[..n - 2];
      assert (s[..k] + s[k + 1..])[n - 2] == s[n - 1];
    } else {
      assert s[..k] + s[k + 1..] == s[..n - 1];
    }
  }

  /**
   * For two permutations of each other, the last element of `a` sits at
   * some index `k` of `b`, and what remains of each is again a permutation.
   */
  lemma MatchLast(a: seq<real>, b: seq<real>) returns (k: nat)
    requires |a| > 0 && multiset(a) == multiset(b)
    ensures k < |b| && b[k] == a[|a| - 1]
    ensures multiset(a[..|a| - 1]) == multiset(b[..k] + b[k + 1..])
  {
    var n := |a|;
    var last := a[n - 1];
    assert a == a[..n - 1] + [last];
    assert last in multiset(b);
    k :| 0 <= k < |b| && b[k] == last;
    assert b == b[..k] + [b[k]] + b[k + 1..];
    assert multiset(b[..k] + b[k + 1..]) == multiset(b) - multiset{last};
  }

  /** Reordering the scores does not change their sum. */
  lemma {:induction false} SumPermutation(a: seq<real>, b: seq<real>)
    requires multiset(a) == multiset(b)
    ensures Sum(a) == Sum(b)
    decreases |a|
  {
    assert |a| == |multiset(a)| == |multiset(b)| == |b|;
    if |a| > 0 {
      var k := MatchLast(a, b);
      SumPermutation(a[..|a| - 1], b[..k] + b[k + 1..]);
      SumRemove(b, k);
    }
  }

  /** Reordering the scores does not change how many lie below or above a value. */
  lemma {:induction false} CountPermutation(a: seq<real>, b: seq<real>, x: real)
    requires multiset(a) == multiset(b)
    ensures CountBelow(a, x) == CountBelow(b, x)
    ensures CountAbove(a, x) == CountAbove(b, x)
    decreases |a|
  {
    assert |a| == |multiset(a)| == |multiset(b)| == |b|;
    if |a| > 0 {
      var k := MatchLast(a, b);
      CountPermutation(a[..|a| - 1], b[..k] + b[k + 1..], x);
      CountBelowRemove(b, k, x);
      CountAboveRemove(b, k, x);
    }
  }

  // ----- Counting against a sorted sequence -----

  /** In an ascending sequence, only the elements before index `k` can lie below `s[k]`. */
  lemma {:induction false} CountBelowSorted(s: seq<real>, k: nat)
    requires SortedAsc(s) && k < |s|
    ensures CountBelow(s, s[k]) <= k
    decreases |s|
  {
    if |s| - 1 > k {
      CountBelowSorted(s[..|s| - 1], k);
    } else {
      CountBelowAtMostLength(s[..|s| - 1], s[k]);
    }
  }

  /** In an ascending sequence, only the elements after index `k` can lie above `s[k]`. */
  lemma {:induction false} CountAboveSorted(s: seq<real>, k: nat)
    requires SortedAsc(s) && k < |s|
    ensures CountAbove(s, s[k]) <= |s| - 1 - k
    decreases |s|
  {
    if |s| - 1 > k {
      CountAboveSorted(s[..|s| - 1], k);
    } else {
      CountAboveNone(s[..|s| - 1], s[k]);
    }
  }

  lemma {:induction false} CountBelowAtMostLength(s: seq<real>, x: real)
    ensures CountBelow(s, x) <= |s|
    decreases |s|
  {
    if |s| > 0 {
      CountBelowAtMostLength(s[..|s| - 1], x);
    }
  }

  lemma {:induction false} CountAboveNone(s: seq<real>, x: real)
    requires forall j :: 0 <= j < |s| ==> s[j] <= x
    ensures CountAbove(s, x) == 0
    decreases |s|
  {
    if |s| > 0 {
      CountAboveNone(s[..|s| - 1], x);
    }
  }

  // ----- Properties of the reduction -----

  /**
   * Median on exactly two scores always fails with the sample-size error,
   * whose message is the one the library's test expects. Mean on two
   * scores is a value.
   */
  lemma TwoSamples(scores: seq<real>, count: nat)
    requires |scores| == 2 && count > 0
    ensures Aggregate(scores, count, Median).Err?
    ensures Message(Aggregate(scores, count, Median).error)
      == "Unable to compare image due to: "
         + "Sample size is too small. You should consider to use the mean methodology instead"
    ensures Aggregate(scores, count, Mean).Ok?
  {
    var e := Aggregate(scores, count, Median).error;
    assert e == Comparison(SampleTooSmallText);
    assert Message(e) == ComparisonPrefix + SampleTooSmallText;
  }

  /**
   * Without the two-sample guard the even-count selection would still fail
   * on two scores (index `mid + 1` is past the end), only with a different
   * message. For every other non-empty count the selection yields a value.
   */
  lemma SelectMedianDefined(sorted: seq<real>)
    ensures |sorted| == 2 ==> SelectMedian(sorted) == Err(Comparison(HighMidText))
    ensures |sorted| > 0 && |sorted| != 2 ==> SelectMedian(sorted).Ok?
  {
  }

  lemma {:induction false} SumBounds(s: seq<real>, lo: real, hi: real)
    requires forall j :: 0 <= j < |s| ==> lo <= s[j] <= hi
    ensures |s| as real * lo <= Sum(s) <= |s| as real * hi
    decreases |s|
  {
    if |s| > 0 {
      var n := |s| as real;
      SumBounds(s[..|s| - 1], lo, hi);
      assert |s[..|s| - 1]| as real == n - 1.0;
      assert n * lo == (n - 1.0) * lo + lo;
      assert n * hi == (n - 1.0) * hi + hi;
    }
  }

  lemma QuotientBounds(total: real, n: real, lo: real, hi: real)
    requires n > 0.0 && n * lo <= total <= n * hi
    ensures lo <= total / n <= hi
  {
    var m := total / n;
    assert m * n == total;
  }

  /** Mean over all the scores is their sum divided by their number. */
  lemma MeanIsAverage(scores: seq<real>)
    requires |scores| > 0
    ensures Aggregate(scores, |scores|, Mean) == Ok(Sum(scores) / |scores| as real)
  {
  }

  /** Mean lies between the least and the greatest score. */
  lemma MeanBounds(scores: seq<real>, count: nat, lo: real, hi: real)
    requires |scores| > 0 && count == |scores|
    requires forall j :: 0 <= j < |scores| ==> lo <= scores[j] <= hi
    ensures Aggregate(scores, count, Mean).Ok?
    ensures lo <= Aggregate(scores, count, Mean).value <= hi
  {
    SumBounds(scores, lo, hi);
    QuotientBounds(Sum(scores), |scores| as real, lo, hi);
  }

  /** Mean does not depend on the order in which the scores were collected. */
  lemma MeanOrderIndependent(a: seq<real>, b: seq<real>, count: nat)
    requires multiset(a) == multiset(b) && count > 0
    ensures Aggregate(a, count, Mean) == Aggregate(b, count, Mean)
  {
    SumPermutation(a, b);
  }

  /** Median does not depend on the order in which the scores were collected. */
  lemma MedianOrderIndependent(a: seq<real>, b: seq<real>, count: nat)
    requires multiset(a) == multiset(b) && count > 0
    ensures Aggregate(a, count, Median) == Aggregate(b, count, Median)
  {
    assert |a| == |multiset(a)| == |multiset(b)| == |b|;
    SortedUnique(SortAscending(a), SortAscending(b));
  }

  /**
   * For an odd number of scores, Median is one of the scores, and at most
   * half of the scores (rounded down) lie strictly below it and at most
   * half strictly above it.
   */
  lemma MedianOdd(scores: seq<real>, count: nat)
    requires |scores| % 2 == 1 && count > 0
    ensures Aggregate(scores, count, Median).Ok?
    ensures Aggregate(scores, count, Median).value in multiset(scores)
    ensures CountBelow(scores, Aggregate(scores, count, Median).value) <= |scores| / 2
    ensures CountAbove(scores, Aggregate(scores, count, Median).value) <= |scores| / 2
  {
    var t := SortAscending(scores);
    assert |t| == |scores| by {
      assert |t| == |multiset(t)| == |multiset(scores)| == |scores|;
    }
    var k := |t| / 2;
    var m := t[k];
    assert Aggregate(scores, count, Median) == Ok(m) by {
      assert Aggregate(scores, count, Median) == SelectMedian(t);
    }
    assert m in multiset(scores) by {
      assert m in multiset(t);
    }
    CountBelowSorted(t, k);
    CountAboveSorted(t, k);
    CountPermutation(t, scores, m);
  }

  /**
   * For an even number of scores, at least four, Median averages the
   * sorted scores at `mid - 1` and `mid + 1`. It is never below the
   * textbook median (the average at `mid - 1` and `mid`), and equals it
   * exactly when the sorted scores at `mid` and `mid + 1` are equal.
   */
  lemma MedianEven(scores: seq<real>, count: nat)
    requires |scores| % 2 == 0 && |scores| >= 4 && count > 0
    ensures var t := SortAscending(scores); var mid := |scores| / 2;
      && |t| == |scores|
      && Aggregate(scores, count, Median) == Ok((t[mid - 1] + t[mid + 1]) / 2.0)
      && Aggregate(scores, count, Median).value >= (t[mid - 1] + t[mid]) / 2.0
      && (Aggregate(scores, count, Median).value == (t[mid - 1] + t[mid]) / 2.0 <==> t[mid] == t[mid + 1])
  {
    var t := SortAscending(scores);
    var mid := |scores| / 2;
    assert |t| == |scores| by {
      assert |t| == |multiset(t)| == |multiset(scores)| == |scores|;
    }
    assert Aggregate(scores, count, Median) == Ok((t[mid - 1] + t[mid + 1]) / 2.0) by {
      assert Aggregate(scores, count, Median) == SelectMedian(t);
    }
    assert t[mid] <= t[mid + 1];
    HalfSums(t[mid - 1], t[mid], t[mid + 1]);
  }

  /** Averaging `x` with the larger of two ordered values gives the larger average. */
  lemma HalfSums(x: real, y: real, z: real)
    requires y <= z
    ensures (x + z) / 2.0 >= (x + y) / 2.0
    ensures (x + z) / 2.0 == (x + y) / 2.0 <==> y == z
  {
  }

  /** Median lies between the least and the greatest score. */
  lemma MedianBounds(scores: seq<real>, count: nat, lo: real, hi: real)
    requires |scores| > 0 && |scores| != 2 && count > 0
    requires forall j :: 0 <= j < |scores| ==> lo <= scores[j] <= hi
    ensures Aggregate(scores, count, Median).Ok?
    ensures lo <= Aggregate(scores, count, Median).value <= hi
  {
    var t := SortAscending(scores);
    assert |t| == |multiset(t)| == |scores|;
    forall j | 0 <= j < |t|
      ensures lo <= t[j] <= hi
    {
      assert t[j] in multiset(scores);
    }
  }

  /** On scores that are already ascending, Median is the selection on them as they are. */
  lemma MedianOfSorted(t: seq<real>, count: nat)
    requires SortedAsc(t) && |t| != 2 && count > 0
    ensures Aggregate(t, count, Median) == SelectMedian(t)
  {
    SortSortedIsIdentity(t);
  }

  /** Five ascending scores, such as 0.1, 0.2, 0.3, 0.4, 0.5, give the middle one. */
  lemma MedianOfFive(a: real, b: real, c: real, d: real, e: real)
    requires a <= b <= c <= d <= e
    ensures Aggregate([a, b, c, d, e], 5, Median) == Ok(c)
  {
    var s := [a, b, c, d, e];
    assert |s| / 2 == 2 && s[2] == c;
    assert SelectMedian(s) == Ok(c);
    MedianOfSorted(s, 5);
  }

  /**
   * Four scores a <= b <= c <= d, collected in any order (here d, a, c, b),
   * give (b + d) / 2: for 0.1, 0.2, 0.3, 0.4 that is 0.3, not the
   * textbook 0.25.
   */
  lemma MedianOfFour(a: real, b: real, c: real, d: real)
    requires a <= b <= c <= d
    ensures Aggregate([d, a, c, b], 4, Median) == Ok((b + d) / 2.0)
  {
    SortedFour(a, b, c, d);
    ShuffledFour(a, b, c, d);
    MedianOrderIndependent([d, a, c, b], [a, b, c, d], 4);
  }

  lemma SortedFour(a: real, b: real, c: real, d: real)
    requires a <= b <= c <= d
    ensures Aggregate([a, b, c, d], 4, Median) == Ok((b + d) / 2.0)
  {
    var s := [a, b, c, d];
    assert |s| / 2 == 2 && s[1] == b && s[3] == d;
    assert SelectMedian(s) == Ok((b + d) / 2.0);
    MedianOfSorted(s, 4);
  }

  lemma ShuffledFour(a: real, b: real, c: real, d: real)
    ensures multiset([d, a, c, b]) == multiset([a, b, c, d])
  {
  }

  /**
   * `is_similar` is monotone: a higher cosine or a lower threshold never
   * turns a match into a mismatch; with no threshold it compares against 0.48.
   */
  lemma IsSimilarMonotone(c1: real, c2: real, t1: real, t2: real)
    requires c1 <= c2 && t2 <= t1
    ensures IsSimilar(c1, Some(t1)) ==> IsSimilar(c2, Some(t2))
    ensures IsSimilar(c1, None) <==> c1 >= 0.48
    ensures IsSimilar(c1, None) == IsSimilar(c1, Some(RecommendedCosineThreshold))
  {
  }
}
