/**
 * Score ranking: the indices of the scores at or above a threshold, ordered by
 * descending score, paired with their scores.
 *
 * The source works on an array of pointers into the score vector; here each
 * pointer is the index it points at (`pointer - scores.data()`). Scores are
 * modelled as reals.
 */
module Ranking {

  datatype Ranked = Ranked(index: int, score: real)

  /** The indices of a ranking, in ranking order. */
  function Indices(r: seq<Ranked>): (s: seq<int>)
    ensures |s| == |r|
    ensures forall k :: 0 <= k < |r| ==> s[k] == r[k].index
  {
    seq(|r|, k requires 0 <= k < |r| => r[k].index)
  }

  /** `0, 1, ..., n-1`: the pointer array right after `std::iota`. */
  function Iota(n: nat): (s: seq<int>)
    ensures |s| == n
    ensures forall k :: 0 <= k < n ==> s[k] == k
  {
    seq(n, k requires 0 <= k < n => k)
  }

  /** Whether index `i` names a score that passes the threshold (boundary included). */
  predicate Passes(scores: seq<real>, t: real, i: int) {
    0 <= i < |scores| && scores[i] >= t
  }

  /** The elements of `s` that name passing scores, in order. */
  function Keep(s: seq<int>, scores: seq<real>, t: real): (k: seq<int>)
    ensures |k| <= |s|
    ensures forall j :: 0 <= j < |k| ==> Passes(scores, t, k[j])
    decreases |s|
  {
    if s == [] then []
    else Keep(s[..|s| - 1], scores, t) + (if Passes(scores, t, s[|s| - 1]) then [s[|s| - 1]] else [])
  }

  /** The passing indices in ascending order. */
  function Selected(scores: seq<real>, t: real): seq<int> {
    Keep(Iota(|scores|), scores, t)
  }

  predicate InRange(s: seq<int>, n: int) {
    forall k :: 0 <= k < |s| ==> 0 <= s[k] < n
  }

  /**
   * What `Sort` promises: each pair holds an index and the score at it; the
   * indices are the passing ones, each exactly once (a permutation of
   * `Selected`); the scores do not increase. The order among equal scores is
   * left open, as `std::sort` and `std::partition` leave it.
   */
  predicate IsRanking(scores: seq<real>, t: real, r: seq<Ranked>) {
    && InRange(Indices(r), |scores|)
    && (forall k :: 0 <= k < |r| ==> r[k].score == scores[r[k].index])
    && multiset(Indices(r)) == multiset(Selected(scores, t))
    && (forall p, q :: 0 <= p < q < |r| ==> r[p].score >= r[q].score)
  }

  method Swap(a: array<int>, i: int, j: int)
    requires 0 <= i < a.Length && 0 <= j < a.Length
    modifies a
    ensures a[..] == old(a[..])[i := old(a[j])][j := old(a[i])]
  {
    a[i], a[j] := a[j], a[i];
  }

  /** Exchanging two elements below `hi` keeps the multiset of the first `hi`. */
  lemma SwapMultiset(s: seq<int>, i: int, j: int, hi: int)
    requires 0 <= i < hi && 0 <= j < hi && hi <= |s|
    ensures multiset(s[i := s[j]][j := s[i]][..hi]) == multiset(s[..hi])
    ensures s[i := s[j]][j := s[i]][hi..] == s[hi..]
  {
    var u := s[i := s[j]][j := s[i]];
    assert u[..hi] == s[..hi][i := s[j]][j := s[i]];
  }

  /** The partition loop's state: passing indices before `i`, failing ones from `j` on. */
  predicate SplitAt(s: seq<int>, i: int, j: int, scores: seq<real>, t: real)
    requires 0 <= i <= j <= |s|
  {
    && InRange(s, |scores|)
    && (forall k :: 0 <= k < i ==> Passes(scores, t, s[k]))
    && (forall k :: j <= k < |s| ==> !Passes(scores, t, s[k]))
  }

  /** Exchanging a failing index at `i` with a passing one at `j - 1` grows both ends. */
  lemma SplitSwap(s: seq<int>, i: int, j: int, scores: seq<real>, t: real)
    requires 0 <= i < j - 1 < |s| && SplitAt(s, i, j, scores, t)
    requires !Passes(scores, t, s[i]) && Passes(scores, t, s[j - 1])
    ensures SplitAt(s[i := s[j - 1]][j - 1 := s[i]], i + 1, j - 1, scores, t)
    ensures multiset(s[i := s[j - 1]][j - 1 := s[i]]) == multiset(s)
  {
    var u := s[i := s[j - 1]][j - 1 := s[i]];
    forall k | 0 <= k < |u|
      ensures 0 <= u[k] < |scores|
    {
      assert u[k] == s[k] || u[k] == s[i] || u[k] == s[j - 1];
    }
    forall k | 0 <= k < i + 1
      ensures Passes(scores, t, u[k])
    {
      assert k < i ==> u[k] == s[k];
    }
    forall k | j - 1 <= k < |u|
      ensures !Passes(scores, t, u[k])
    {
      assert k >= j ==> u[k] == s[k];
    }
    SwapMultiset(s, i, j - 1, |s|);
    assert u[..|s|] == u && s[..|s|] == s;
  }

  /** A passing index at `i` joins the front; a failing one at `j - 1` joins the back. */
  lemma SplitGrow(s: seq<int>, i: int, j: int, scores: seq<real>, t: real)
    requires 0 <= i < j <= |s| && SplitAt(s, i, j, scores, t)
    ensures Passes(scores, t, s[i]) ==> SplitAt(s, i + 1, j, scores, t)
    ensures !Passes(scores, t, s[j - 1]) ==> SplitAt(s, i, j - 1, scores, t)
  {
  }

  /**
   * `std::partition`: moves the pointers whose score passes to the front and
   * returns where they end.
   */
  method Partition(a: array<int>, scores: seq<real>, t: real) returns (end: int)
    requires InRange(a[..], |scores|)
    modifies a
    ensures 0 <= end <= a.Length
    ensures InRange(a[..], |scores|)
    ensures forall k :: 0 <= k < end ==> Passes(scores, t, a[k])
    ensures forall k :: end <= k < a.Length ==> !Passes(scores, t, a[k])
    ensures multiset(a[..]) == old(multiset(a[..]))
  {
    var i, j := 0, a.Length;
    while i < j
      invariant 0 <= i <= j <= a.Length
      invariant SplitAt(a[..], i, j, scores, t)
      invariant multiset(a[..]) == old(multiset(a[..]))
      decreases j - i
    {
      i, j := PartitionStep(a, scores, t, i, j);
    }
    end := i;
  }

  /**
   * One step of the partition loop: a passing element at `i` stays and `i`
   * moves up; a failing one at `j - 1` stays and `j` moves down; otherwise the
   * two trade places and both move.
   */
  method PartitionStep(a: array<int>, scores: seq<real>, t: real, i: int, j: int) returns (i': int, j': int)
    requires 0 <= i < j <= a.Length && SplitAt(a[..], i, j, scores, t)
    modifies a
    ensures i <= i' <= j' <= j && j' - i' < j - i
    ensures SplitAt(a[..], i', j', scores, t)
    ensures multiset(a[..]) == old(multiset(a[..]))
  {
    ghost var s := a[..];
    SplitGrow(s, i, j, scores, t);
    if scores[a[i]] >= t {
      i', j' := i + 1, j;
    } else if scores[a[j - 1]] < t {
      i', j' := i, j - 1;
    } else {
      SplitSwap(s, i, j, scores, t);
      Swap(a, i, j - 1);
      assert a[..] == s[i := s[j - 1]][j - 1 := s[i]];
      i', j' := i + 1, j - 1;
    }
  }

  /** The first `end` elements of `s` are in descending score order. */
  predicate SortedFront(s: seq<int>, end: int, scores: seq<real>)
    requires 0 <= end <= |s| && InRange(s, |scores|)
  {
    forall p, q :: 0 <= p < q < end ==> scores[s[p]] >= scores[s[q]]
  }

  /**
   * Selection sort's state after `i` steps: the first `i` elements are in
   * descending order and none of them is below an element in `i .. end`.
   */
  predicate SelectedUpTo(s: seq<int>, i: int, end: int, scores: seq<real>)
    requires 0 <= i <= end <= |s| && InRange(s, |scores|)
  {
    && (forall p, q :: 0 <= p < q < i ==> scores[s[p]] >= scores[s[q]])
    && (forall p, q :: 0 <= p < i <= q < end ==> scores[s[p]] >= scores[s[q]])
  }

  /** Moving a largest remaining element to position `i` extends the sorted part. */
  lemma SelectStep(s: seq<int>, i: int, m: int, end: int, scores: seq<real>)
    requires 0 <= i <= m < end <= |s| && InRange(s, |scores|)
    requires SelectedUpTo(s, i, end, scores)
    requires forall q :: i <= q < end ==> scores[s[m]] >= scores[s[q]]
    ensures InRange(s[i := s[m]][m := s[i]], |scores|)
    ensures SelectedUpTo(s[i := s[m]][m := s[i]], i + 1, end, scores)
  {
    var u := s[i := s[m]][m := s[i]];
    assert forall k :: 0 <= k < |s| ==> u[k] == if k == i then s[m] else if k == m then s[i] else s[k];
  }

  /** The position of a largest score among `a[lo .. hi]`. */
  method MaxScoreIndex(a: array<int>, lo: int, hi: int, scores: seq<real>) returns (m: int)
    requires 0 <= lo < hi <= a.Length && InRange(a[..], |scores|)
    ensures lo <= m < hi
    ensures forall q :: lo <= q < hi ==> scores[a[m]] >= scores[a[q]]
  {
    m := lo;
    var k := lo + 1;
    while k < hi
      invariant lo <= m < k <= hi
      invariant forall q :: lo <= q < k ==> scores[a[m]] >= scores[a[q]]
    {
      if scores[a[k]] > scores[a[m]] {
        m := k;
      }
      k := k + 1;
    }
  }

  /**
   * `std::sort` of the first `end` pointers by descending score (written as a
   * selection sort, which, like `std::sort`, does not keep equal scores in
   * their original order). The pointers from `end` on are untouched.
   */
  method SortDescending(a: array<int>, end: int, scores: seq<real>)
    requires 0 <= end <= a.Length
    requires InRange(a[..], |scores|)
    modifies a
    ensures InRange(a[..], |scores|)
    ensures SortedFront(a[..], end, scores)
    ensures multiset(a[..end]) == old(multiset(a[..end]))
    ensures a[end..] == old(a[end..])
  {
    var i := 0;
    while i < end
      invariant 0 <= i <= end
      invariant InRange(a[..], |scores|)
      invariant SelectedUpTo(a[..], i, end, scores)
      invariant multiset(a[..end]) == old(multiset(a[..end]))
      invariant a[end..] == old(a[end..])
    {
      var m := MaxScoreIndex(a, i, end, scores);
      SelectStep(a[..], i, m, end, scores);
      SwapMultiset(a[..], i, m, end);
      Swap(a, i, m);
      i := i + 1;
    }
  }

  /**
   * `Sort`: pointers to every score (`std::iota`), the passing ones moved to
   * the front (`std::partition`), that front sorted by descending score
   * (`std::sort`), then one `(index, score)` pair per front pointer.
   */
  method Sort(scores: seq<real>, threshold: real) returns (r: seq<Ranked>)
    ensures IsRanking(scores, threshold, r)
  {
    var ptrs := new int[|scores|](k => k);
    assert ptrs[..] == Iota(|scores|);
    var end := Partition(ptrs, scores, threshold);
    ghost var parted := ptrs[..];
    SortDescending(ptrs, end, scores);
    r := [];
    for k := 0 to end
      invariant |r| == k
      invariant forall j :: 0 <= j < k ==> r[j] == Ranked(ptrs[j], scores[ptrs[j]])
    {
      r := r + [Ranked(ptrs[k], scores[ptrs[k]])];
    }
    RankingOfSortedFront(ptrs[..], end, parted, scores, threshold, r);
  }

  /**
   * The pairs built from a sorted front are a ranking, when that front holds
   * the front of a partition of all indices.
   */
  lemma RankingOfSortedFront(s: seq<int>, end: int, parted: seq<int>, scores: seq<real>, t: real, r: seq<Ranked>)
    requires 0 <= end <= |s| == |parted| == |scores|
    requires InRange(s, |scores|)
    requires SortedFront(s, end, scores)
    requires multiset(s[..end]) == multiset(parted[..end])
    requires multiset(parted) == multiset(Iota(|scores|))
    requires forall k :: 0 <= k < end ==> Passes(scores, t, parted[k])
    requires forall k :: end <= k < |parted| ==> !Passes(scores, t, parted[k])
    requires |r| == end
    requires forall j :: 0 <= j < end ==> r[j] == Ranked(s[j], scores[s[j]])
    ensures IsRanking(scores, t, r)
  {
    assert Indices(r) == s[..end];
    PartitionedPrefix(parted, end, scores, t);
    KeepPreservesMultiset(parted, Iota(|scores|), scores, t);
  }

  /** A partitioned sequence keeps exactly its front part. */
  lemma {:induction false} PartitionedPrefix(s: seq<int>, end: int, scores: seq<real>, t: real)
    requires 0 <= end <= |s|
    requires forall k :: 0 <= k < end ==> Passes(scores, t, s[k])
    requires forall k :: end <= k < |s| ==> !Passes(scores, t, s[k])
    ensures Keep(s, scores, t) == s[..end]
    decreases |s|
  {
    if s != [] {
      var init := s[..|s| - 1];
      var e := if end < |s| then end else end - 1;
      PartitionedPrefix(init, e, scores, t);
      assert init[..e] == s[..e];
    }
  }

  /** `Keep` retains every passing value as often as it occurs, and nothing else. */
  lemma {:induction false} KeepCount(s: seq<int>, scores: seq<real>, t: real, v: int)
    ensures multiset(Keep(s, scores, t))[v] == if Passes(scores, t, v) then multiset(s)[v] else 0
    decreases |s|
  {
    if s != [] {
      var init := s[..|s| - 1];
      KeepCount(init, scores, t, v);
      assert s == init + [s[|s| - 1]];
    }
  }

  /** Sequences holding the same multiset keep the same multiset. */
  lemma KeepPreservesMultiset(s: seq<int>, u: seq<int>, scores: seq<real>, t: real)
    requires multiset(s) == multiset(u)
    ensures multiset(Keep(s, scores, t)) == multiset(Keep(u, scores, t))
  {
    forall v
      ensures multiset(Keep(s, scores, t))[v] == multiset(Keep(u, scores, t))[v]
    {
      KeepCount(s, scores, t, v);
      KeepCount(u, scores, t, v);
    }
  }

  lemma {:induction false} IotaCount(n: nat, v: int)
    ensures multiset(Iota(n))[v] == if 0 <= v < n then 1 else 0
  {
    if n > 0 {
      IotaCount(n - 1, v);
      assert Iota(n) == Iota(n - 1) + [n - 1];
    }
  }

  /** Each passing index occurs once in `Selected`, and nothing else occurs. */
  lemma SelectedCount(scores: seq<real>, t: real, v: int)
    ensures multiset(Selected(scores, t))[v] == if Passes(scores, t, v) then 1 else 0
  {
    KeepCount(Iota(|scores|), scores, t, v);
    IotaCount(|scores|, v);
  }

  /** A value at two positions of a sequence occurs at least twice in its multiset. */
  lemma TwiceCounted(s: seq<int>, p: int, q: int)
    requires 0 <= p < q < |s| && s[p] == s[q]
    ensures multiset(s)[s[p]] >= 2
  {
    assert s == s[..q] + s[q..];
    assert s[p] in s[..q];
    assert s[q] == s[q..][0];
  }

  /**
   * A ranking names exactly the indices whose score is at or above the
   * threshold (the boundary included), each once, so it is as long as the
   * number of passing scores.
   */
  lemma RankingIndices(scores: seq<real>, t: real, r: seq<Ranked>)
    requires IsRanking(scores, t, r)
    ensures forall i :: 0 <= i < |scores| ==> (scores[i] >= t <==> i in Indices(r))
    ensures forall p, q :: 0 <= p < q < |r| ==> r[p].index != r[q].index
    ensures |r| == |Selected(scores, t)|
  {
    forall i | 0 <= i < |scores|
      ensures scores[i] >= t <==> i in Indices(r)
    {
      SelectedCount(scores, t, i);
      assert i in Indices(r) <==> i in multiset(Indices(r));
    }
    forall p, q | 0 <= p < q < |r|
      ensures r[p].index != r[q].index
    {
      if r[p].index == r[q].index {
        TwiceCounted(Indices(r), p, q);
        SelectedCount(scores, t, r[p].index);
        assert false;
      }
    }
    assert |multiset(Indices(r))| == |Selected(scores, t)|;
  }

  /** The ranking is empty exactly when no score reaches the threshold (so always for no scores). */
  lemma RankingEmpty(scores: seq<real>, t: real, r: seq<Ranked>)
    requires IsRanking(scores, t, r)
    ensures r == [] <==> forall i :: 0 <= i < |scores| ==> scores[i] < t
  {
    RankingIndices(scores, t, r);
    if r != [] {
      assert r[0].index in Indices(r);
    }
  }

  lemma SelectedExample()
    ensures Selected([0.9, 0.2, 0.95, 0.5], 0.5) == [0, 2, 3]
  {
    var scores := [0.9, 0.2, 0.95, 0.5];
    assert Iota(4) == [0, 1, 2, 3];
    assert [0, 1, 2, 3][..3] == [0, 1, 2] && [0, 1, 2][..2] == [0, 1] && [0, 1][..1] == [0];
    assert Keep([0, 1], scores, 0.5) == [0];
    assert Keep([0, 1, 2], scores, 0.5) == [0, 2];
  }

  /**
   * The worked example: scores 0.9, 0.2, 0.95, 0.5 with threshold 0.5 rank as
   * (2, 0.95), (0, 0.9), (3, 0.5); the score equal to the threshold is kept.
   */
  lemma RankingExample(r: seq<Ranked>)
    requires IsRanking([0.9, 0.2, 0.95, 0.5], 0.5, r)
    ensures r == [Ranked(2, 0.95), Ranked(0, 0.9), Ranked(3, 0.5)]
  {
    var scores := [0.9, 0.2, 0.95, 0.5];
    SelectedExample();
    RankingIndices(scores, 0.5, r);
    assert |r| == 3;
    forall k | 0 <= k < 3
      ensures r[k].index == 0 || r[k].index == 2 || r[k].index == 3
    {
      assert r[k].index in Indices(r);
      assert r[k].index in multiset(Indices(r));
    }
    assert r[0].score >= r[1].score >= r[2].score;
    assert r[0].index == 2;
    assert r[1].index == 0;
    assert r[2].index == 3;
  }
}
