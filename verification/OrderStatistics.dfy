/** Exact order statistics: ranks, sorted lists and the nearest-rank percentile. */
module OrderStatistics {
  import opened Words

  /** How many of the values are at most `x`. */
  function CountUpTo(s: seq<u64>, x: int): nat {
    if s == [] then 0 else CountUpTo(s[..|s| - 1], x) + if s[|s| - 1] <= x then 1 else 0
  }

  /** `r` is the k-th smallest of the values, counting from one. */
  ghost predicate IsRank(s: seq<u64>, k: int, r: u64) {
    r in s && CountUpTo(s, r - 1) < k <= CountUpTo(s, r)
  }

  predicate IsSorted(s: seq<u64>) {
    forall i, j :: 0 <= i < j < |s| ==> s[i] <= s[j]
  }

  ghost predicate IsPermutation(s: seq<u64>, t: seq<u64>) {
    multiset(s) == multiset(t)
  }

  lemma {:induction false} CountMonotone(s: seq<u64>, x: int, y: int)
    requires x <= y
    ensures CountUpTo(s, x) <= CountUpTo(s, y) <= |s|
  {
    if s != [] {
      CountMonotone(s[..|s| - 1], x, y);
    }
  }

  /** There is at most one k-th smallest value. */
  lemma RankUnique(s: seq<u64>, k: int, q: u64, r: u64)
    requires IsRank(s, k, q) && IsRank(s, k, r)
    ensures q == r
  {
    if q < r {
      CountMonotone(s, q, r - 1);
    } else if r < q {
      CountMonotone(s, r, q - 1);
    }
  }

  lemma {:induction false} CountConcat(s: seq<u64>, t: seq<u64>, x: int)
    ensures CountUpTo(s + t, x) == CountUpTo(s, x) + CountUpTo(t, x)
  {
    if t == [] {
      assert s + t == s;
    } else {
      CountConcat(s, t[..|t| - 1], x);
      assert (s + t)[..|s + t| - 1] == s + t[..|t| - 1];
    }
  }

  lemma CountWithout(before: seq<u64>, v: u64, after: seq<u64>, x: int)
    ensures CountUpTo(before + [v] + after, x) == CountUpTo(before + after, x) + if v <= x then 1 else 0
  {
    CountConcat(before + [v], after, x);
    CountConcat(before, [v], x);
    CountConcat(before, after, x);
  }

  lemma {:induction false} CountPermutation(s: seq<u64>, t: seq<u64>, x: int)
    requires IsPermutation(s, t)
    ensures CountUpTo(s, x) == CountUpTo(t, x)
  {
    if s == [] {
      assert |multiset(t)| == 0;
    } else {
      var init, last := s[..|s| - 1], s[|s| - 1];
      assert s == init + [last];
      assert last in multiset(t);
      var j :| 0 <= j < |t| && t[j] == last;
      var before, after := t[..j], t[j + 1..];
      assert t == before + [last] + after;
      RemoveOne(init, last, before, after);
      CountPermutation(init, before + after, x);
      CountWithout(before, last, after, x);
    }
  }

  lemma RemoveOne(init: seq<u64>, last: u64, before: seq<u64>, after: seq<u64>)
    requires multiset(init + [last]) == multiset(before + [last] + after)
    ensures multiset(init) == multiset(before + after)
  {
    assert multiset(before + [last] + after) == multiset(before + after) + multiset{last};
    assert multiset(init) == multiset(init + [last]) - multiset{last};
  }

  lemma {:induction false} CountSplit(s: seq<u64>, x: int, k: nat)
    requires k <= |s|
    requires forall i :: 0 <= i < k ==> s[i] <= x
    requires forall i :: k <= i < |s| ==> s[i] > x
    ensures CountUpTo(s, x) == k
  {
    if s != [] {
      CountSplit(s[..|s| - 1], x, if k == |s| then k - 1 else k);
    }
  }

  /** In a sorted list the k-th smallest value stands at index k - 1. */
  lemma SortedRank(s: seq<u64>, k: nat)
    requires IsSorted(s) && 1 <= k <= |s|
    ensures IsRank(s, k, s[k - 1])
  {
    var r: int := s[k - 1];
    var below := FirstAbove(s, r - 1);
    var upTo := FirstAbove(s, r);
    CountSplit(s, r - 1, below);
    CountSplit(s, r, upTo);
  }

  function FirstAbove(s: seq<u64>, x: int): (k: nat)
    requires IsSorted(s)
    ensures k <= |s|
    ensures forall i :: 0 <= i < k ==> s[i] <= x
    ensures forall i :: k <= i < |s| ==> s[i] > x
  {
    if s == [] || s[|s| - 1] <= x then |s| else FirstAbove(s[..|s| - 1], x)
  }

  // ----- percentiles

  /** The rank the harness and the histogram both ask for, as the word arithmetic computes it. */
  function TargetRank(samples: int, percentile: int): int {
    Wrap(samples * percentile + 99) / 100
  }

  predicate RankFits(samples: int, percentile: int) {
    samples * percentile + 99 < TWO64
  }

  lemma TargetInRange(samples: int, percentile: int)
    requires samples >= 1 && 1 <= percentile <= 100 && RankFits(samples, percentile)
    ensures 1 <= TargetRank(samples, percentile) <= samples
    ensures 100 * (TargetRank(samples, percentile) - 1) < samples * percentile <= 100 * TargetRank(samples, percentile)
  {
    var product := samples * percentile;
    assert 1 <= product;
    assert product <= samples * 100;
    assert Wrap(product + 99) == product + 99;
  }

  function NearestRank(sorted: seq<u64>, percentile: nat): u64 {
    if sorted == [] then 0
    else
      var rank := TargetRank(|sorted|, percentile);
      var index := (if rank < 1 then 1 else rank) - 1;
      if index < |sorted| then sorted[index] else 0
  }

  /** The nearest-rank percentile is the value whose rank is the percentile of the count, rounded up. */
  lemma NearestRankIsRank(values: seq<u64>, sorted: seq<u64>, percentile: nat)
    requires values != [] && IsSorted(sorted) && IsPermutation(values, sorted)
    requires 1 <= percentile <= 100 && RankFits(|values|, percentile)
    ensures IsRank(values, TargetRank(|values|, percentile), NearestRank(sorted, percentile))
  {
    assert |multiset(values)| == |multiset(sorted)|;
    TargetInRange(|values|, percentile);
    var k := TargetRank(|values|, percentile);
    SortedRank(sorted, k);
    RankPermutation(values, sorted, k, sorted[k - 1]);
  }

  lemma RankPermutation(s: seq<u64>, t: seq<u64>, k: int, r: u64)
    requires IsPermutation(s, t) && IsRank(t, k, r)
    ensures IsRank(s, k, r)
  {
    assert r in multiset(t);
    CountPermutation(s, t, r);
    CountPermutation(s, t, r as int - 1);
  }
}
