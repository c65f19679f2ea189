/**
 Orders on sequences of list elements, and what a comparison function passed
 to lib/kernel/list.c has to satisfy.  Everything here is about values; the
 pointer manipulation is in KernelList.

 Sequences of nodes include the two sentinels of a list, so the elements of
 `s` are s[1..|s| - 1]; predicates take the half-open range they talk about.
 */
module Ordering {
  import opened Sequences

  /** `less` is a strict weak order on the elements of `s`. */
  ghost predicate StrictWeakOrder<T>(less: (T, T) -> bool, s: set<T>) {
    && (forall a | a in s :: !less(a, a))
    && (forall a, b, c {:trigger less(a, b), less(b, c)} | a in s && b in s && c in s ::
          less(a, b) && less(b, c) ==> less(a, c))
    && (forall a, b, c {:trigger less(a, b), less(b, c)} | a in s && b in s && c in s ::
          !less(a, b) && !less(b, c) ==> !less(a, c))
  }

  /** The elements between the sentinels, which the comparison never sees. */
  ghost function Inner<T>(s: seq<T>): set<T> {
    set x | x in s && x != s[0] && x != s[|s| - 1]
  }

  /** `less` is a strict weak order on the elements between the sentinels. */
  ghost predicate OrderInside<T>(less: (T, T) -> bool, s: seq<T>) {
    |s| >= 2 && Distinct(s) && StrictWeakOrder(less, Inner(s))
  }

  /** Nondecreasing on [lo, hi): no later element is less than an earlier one. */
  ghost predicate Sorted<T>(s: seq<T>, lo: nat, hi: nat, less: (T, T) -> bool)
    requires hi <= |s|
  {
    forall i, j | lo <= i < j < hi :: !less(s[j], s[i])
  }

  /** No element is less than its immediate predecessor: one natural run. */
  ghost predicate Run<T>(s: seq<T>, lo: nat, hi: nat, less: (T, T) -> bool)
    requires hi <= |s|
  {
    forall i {:trigger s[i]} | lo < i < hi :: !less(s[i], s[i - 1])
  }

  lemma RunIsSorted<T>(s: seq<T>, lo: nat, hi: nat, domain: set<T>, less: (T, T) -> bool)
    requires lo <= hi <= |s| && Run(s, lo, hi, less)
    requires StrictWeakOrder(less, domain) && forall i | lo <= i < hi :: s[i] in domain
    ensures Sorted(s, lo, hi, less)
  {
    forall i, j | lo <= i < j < hi ensures !less(s[j], s[i]) {
      StepDown(s, lo, hi, domain, i, j, less);
    }
  }

  lemma {:induction false} StepDown<T>(s: seq<T>, lo: nat, hi: nat, domain: set<T>, i: nat, j: nat,
                                       less: (T, T) -> bool)
    requires lo <= i < j < hi <= |s| && Run(s, lo, hi, less)
    requires StrictWeakOrder(less, domain) && forall k | lo <= k < hi :: s[k] in domain
    ensures !less(s[j], s[i])
  {
    var x, y, z := s[j], s[j - 1], s[i];
    assert x in domain && y in domain && z in domain && !less(x, y);
    if i + 1 < j { StepDown(s, lo, hi, domain, i, j - 1, less); }
  }

  /** How often an element in (lo, hi) is less than its predecessor. */
  ghost function Descents<T>(s: seq<T>, lo: nat, hi: nat, less: (T, T) -> bool): nat
    requires hi <= |s|
  {
    if hi < lo + 2 then 0
    else Descents(s, lo, hi - 1, less) + if less(s[hi - 1], s[hi - 2]) then 1 else 0
  }

  /** The number of maximal nondecreasing runs in [lo, hi). */
  ghost function NaturalRuns<T>(s: seq<T>, lo: nat, hi: nat, less: (T, T) -> bool): nat
    requires hi <= |s|
  {
    if hi <= lo then 0 else 1 + Descents(s, lo, hi, less)
  }

  lemma {:induction false} DescentsSplit<T>(s: seq<T>, lo: nat, m: nat, hi: nat, less: (T, T) -> bool)
    requires lo < m < hi <= |s|
    ensures Descents(s, lo, hi, less)
         == Descents(s, lo, m, less) + Descents(s, m, hi, less) + if less(s[m], s[m - 1]) then 1 else 0
  {
    if m + 1 < hi { DescentsSplit(s, lo, m, hi - 1, less); }
  }

  lemma {:induction false} DescentsSame<T>(s: seq<T>, t: seq<T>, lo: nat, hi: nat, less: (T, T) -> bool)
    requires hi <= |s| && hi <= |t| && forall i | lo <= i < hi :: s[i] == t[i]
    ensures Descents(s, lo, hi, less) == Descents(t, lo, hi, less)
  {
    if lo + 2 <= hi { DescentsSame(s, t, lo, hi - 1, less); }
  }

  lemma {:induction false} NoDescents<T>(s: seq<T>, lo: nat, hi: nat, less: (T, T) -> bool)
    requires hi <= |s|
    ensures Descents(s, lo, hi, less) == 0 <==> Run(s, lo, hi, less)
  {
    if lo + 2 <= hi { NoDescents(s, lo, hi - 1, less); }
  }

  // ---------- Stability ----------

  ghost predicate Precedes<T>(s: seq<T>, x: T, y: T) {
    exists i, j :: 0 <= i < j < |s| && s[i] == x && s[j] == y
  }

  ghost predicate Equivalent<T>(x: T, y: T, less: (T, T) -> bool) {
    !less(x, y) && !less(y, x)
  }

  /** `s` is a rearrangement of the interior of `orig` that keeps every pair of
      equivalent elements in its original order. */
  ghost predicate StableRearrangement<T>(orig: seq<T>, s: seq<T>, less: (T, T) -> bool) {
    && multiset(s) == multiset(orig) && |s| == |orig|
    && (|s| > 0 ==> s[0] == orig[0] && s[|s| - 1] == orig[|s| - 1])
    && forall i, j | 0 < i < j < |s| - 1 && Equivalent(s[i], s[j], less) :: Precedes(orig, s[i], s[j])
  }

  lemma OriginalOrder<T>(s: seq<T>, less: (T, T) -> bool)
    ensures StableRearrangement(s, s, less)
  {
  }

  /** The blocks [x, y) and [y, z) trade places. */
  ghost function SwapBlocks<T>(s: seq<T>, x: nat, y: nat, z: nat): (t: seq<T>)
    requires x <= y <= z <= |s|
    ensures |t| == |s|
  {
    seq(|s|, i requires 0 <= i < |s| => s[Source(x, y, z, i)])
  }

  // Where the element at position i comes from.
  ghost function Source(x: int, y: int, z: int, i: int): int {
    if i < x then i else if i < x + z - y then i + y - x else if i < z then i - (z - y) else i
  }

  lemma SwapBlocksPermutes<T>(s: seq<T>, x: nat, y: nat, z: nat)
    requires x <= y <= z <= |s|
    ensures multiset(SwapBlocks(s, x, y, z)) == multiset(s)
  {
    assert SwapBlocks(s, x, y, z) == s[..x] + s[y..z] + s[x..y] + s[z..];
    assert s == s[..x] + s[x..y] + s[y..z] + s[z..];
  }

  /** Moving an element left past elements it is strictly less than. */
  lemma MoveLeftStable<T>(orig: seq<T>, s: seq<T>, b: nat, f: nat, less: (T, T) -> bool)
    requires 0 < b <= f < |s| - 1
    requires StableRearrangement(orig, s, less)
    requires forall i | b <= i < f :: less(s[f], s[i])
    ensures StableRearrangement(orig, SwapBlocks(s, b, f, f + 1), less)
  {
    var t := SwapBlocks(s, b, f, f + 1);
    SwapBlocksPermutes(s, b, f, f + 1);
    forall i, j | 0 < i < j < |t| - 1 && Equivalent(t[i], t[j], less)
      ensures Precedes(orig, t[i], t[j])
    {
      var i', j' := Source(b, f, f + 1, i), Source(b, f, f + 1, j);
      assert t[i] == s[i'] && t[j] == s[j'] && i' < j';
    }
  }

  // ---------- Insertion, removal, reversal ----------

  ghost function Inserted<T>(s: seq<T>, b: nat, x: T): (t: seq<T>)
    requires b <= |s|
    ensures |t| == |s| + 1 && t[b] == x
    ensures forall i | 0 <= i < b :: t[i] == s[i]
    ensures forall i | b < i < |t| :: t[i] == s[i - 1]
  {
    s[..b] + [x] + s[b..]
  }

  lemma InsertedDistinct<T>(s: seq<T>, b: nat, x: T)
    requires b <= |s| && Distinct(s) && x !in s
    ensures Distinct(Inserted(s, b, x))
  {
    AllApart(s);
  }

  ghost function Removed<T>(s: seq<T>, b: nat): (t: seq<T>)
    requires b < |s|
    ensures |t| == |s| - 1
    ensures forall i | 0 <= i < b :: t[i] == s[i]
    ensures forall i | b <= i < |t| :: t[i] == s[i + 1]
  {
    s[..b] + s[b + 1..]
  }

  lemma RemovedDistinct<T>(s: seq<T>, b: nat)
    requires b < |s| && Distinct(s)
    ensures Distinct(Removed(s, b))
  {
    AllApart(s);
  }

  /** Everything but the two end elements, backwards. */
  ghost function ReversedInside<T>(s: seq<T>): (t: seq<T>)
    ensures |t| == |s|
  {
    seq(|s|, i requires 0 <= i < |s| => s[if 0 < i < |s| - 1 then |s| - 1 - i else i])
  }

  lemma ReversedDistinct<T>(s: seq<T>)
    requires Distinct(s)
    ensures Distinct(ReversedInside(s))
  {
    AllApart(s);
  }

  lemma InsertedSorted<T>(s: seq<T>, b: nat, x: T, less: (T, T) -> bool)
    requires 1 <= b < |s| && Sorted(s, 1, |s| - 1, less)
    requires OrderInside(less, s) && StrictWeakOrder(less, Inner(s) + {x})
    requires forall i | 1 <= i < b :: !less(x, s[i])
    requires b < |s| - 1 ==> less(x, s[b])
    ensures Sorted(Inserted(s, b, x), 1, |s|, less)
  {
    var dom := Inner(s) + {x};
    AllApart(s);
    forall j | b <= j < |s| - 1 ensures !less(s[j], x) {
      assert s[j] in dom && s[b] in dom && x in dom;
      if j > b { assert !less(s[j], s[b]); }
    }
  }

  lemma LessThanRest<T>(s: seq<T>, b: nat, x: T, less: (T, T) -> bool)
    requires 1 <= b < |s| && Sorted(s, 1, |s| - 1, less)
    requires OrderInside(less, s) && StrictWeakOrder(less, Inner(s) + {x})
    requires b < |s| - 1 ==> less(x, s[b])
    ensures forall i | b <= i < |s| - 1 :: less(x, s[i])
  {
    forall i | b <= i < |s| - 1 ensures less(x, s[i]) {
      var dom := Inner(s) + {x};
      AllApart(s);
      assert s[i] in dom && s[b] in dom && x in dom;
      if i > b { assert !less(s[i], s[b]); }
    }
  }

  // ---------- Merging two adjacent sorted ranges ----------

  /** What `inplace_merge` does to the sequence, one comparison at a time. */
  ghost function Merged<T>(s: seq<T>, p: nat, q: nat, k: nat, less: (T, T) -> bool): (t: seq<T>)
    requires p <= q <= k <= |s|
    ensures |t| == |s|
    decreases k - p
  {
    if p == q || q == k then s
    else if !less(s[q], s[p]) then Merged(s, p + 1, q, k, less)
    else Merged(SwapBlocks(s, p, q, q + 1), p + 1, q + 1, k, less)
  }

  /** Halfway through merging [i, q) and [q, k): everything before `p` is in its
      final place. */
  ghost predicate Merging<T>(orig: seq<T>, s: seq<T>, i: nat, p: nat, q: nat, k: nat, less: (T, T) -> bool) {
    && 1 <= i <= p <= q <= k < |s|
    && Sorted(s, i, q, less) && Sorted(s, q, k, less)
    && (forall x, y | i <= x < p && q <= y < k :: !less(s[y], s[x]))
    && StableRearrangement(orig, s, less)
  }

  lemma MergeAdvance<T>(orig: seq<T>, s: seq<T>, i: nat, p: nat, q: nat, k: nat, less: (T, T) -> bool)
    requires Merging(orig, s, i, p, q, k, less) && p < q < k
    requires OrderInside(less, orig) && !less(s[q], s[p])
    ensures Merging(orig, s, i, p + 1, q, k, less)
  {
    InDomain(orig, s, less);
  }

  lemma MergeMove<T>(orig: seq<T>, s: seq<T>, i: nat, p: nat, q: nat, k: nat, less: (T, T) -> bool)
    requires Merging(orig, s, i, p, q, k, less) && p < q < k
    requires OrderInside(less, orig) && less(s[q], s[p])
    ensures Merging(orig, SwapBlocks(s, p, q, q + 1), i, p + 1, q + 1, k, less)
  {
    InDomain(orig, s, less);
    forall z | p <= z < q ensures less(s[q], s[z]) {
      if z > p { assert !less(s[z], s[p]); }
    }
    MoveLeftStable(orig, s, p, q, less);
    MoveSorted(s, i, p, q, k, less);
  }

  lemma MoveSorted<T>(s: seq<T>, i: nat, p: nat, q: nat, k: nat, less: (T, T) -> bool)
    requires i <= p < q < k <= |s|
    requires Sorted(s, i, q, less) && Sorted(s, q, k, less)
    requires forall x, y | i <= x < p && q <= y < k :: !less(s[y], s[x])
    requires forall z | p <= z < q :: less(s[q], s[z]) && !less(s[z], s[q])
    ensures var t := SwapBlocks(s, p, q, q + 1);
      && Sorted(t, i, q + 1, less) && Sorted(t, q + 1, k, less)
      && forall x, y | i <= x < p + 1 && q + 1 <= y < k :: !less(t[y], t[x])
  {
  }

  /** `t` is `s` with [i, k) sorted, stably. */
  ghost predicate SortedRange<T>(orig: seq<T>, s: seq<T>, t: seq<T>, i: nat, k: nat, less: (T, T) -> bool) {
    && i <= k <= |t| == |s| && Sorted(t, i, k, less) && StableRearrangement(orig, t, less)
    && forall x | 0 <= x < i || k <= x < |s| :: t[x] == s[x]
  }

  lemma MergeDone<T>(orig: seq<T>, s: seq<T>, i: nat, p: nat, q: nat, k: nat, less: (T, T) -> bool)
    requires Merging(orig, s, i, p, q, k, less) && (p == q || q == k)
    ensures SortedRange(orig, s, s, i, k, less)
  {
  }

  lemma MovedWithin<T>(orig: seq<T>, s: seq<T>, u: seq<T>, t: seq<T>, i: nat, p: nat, q: nat, k: nat,
                       less: (T, T) -> bool)
    requires i <= p <= q < k <= |s| && u == SwapBlocks(s, p, q, q + 1) && SortedRange(orig, u, t, i, k, less)
    ensures SortedRange(orig, s, t, i, k, less)
  {
  }

  // One comparison of the merge.
  lemma MergedStep<T>(s: seq<T>, p: nat, q: nat, k: nat, less: (T, T) -> bool)
    requires p < q < k <= |s|
    ensures !less(s[q], s[p]) ==> Merged(s, p, q, k, less) == Merged(s, p + 1, q, k, less)
    ensures less(s[q], s[p]) ==> Merged(s, p, q, k, less) == Merged(SwapBlocks(s, p, q, q + 1), p + 1, q + 1, k, less)
  {
  }

  /** Merging two adjacent sorted ranges sorts them as one, stably. */
  lemma {:induction false} MergedCorrect<T>(orig: seq<T>, s: seq<T>, i: nat, p: nat, q: nat, k: nat,
                                            less: (T, T) -> bool)
    requires Merging(orig, s, i, p, q, k, less) && OrderInside(less, orig)
    ensures SortedRange(orig, s, Merged(s, p, q, k, less), i, k, less)
    decreases k - p
  {
    if p == q || q == k {
      MergeDone(orig, s, i, p, q, k, less);
      assert Merged(s, p, q, k, less) == s;
    } else if !less(s[q], s[p]) {
      MergedStep(s, p, q, k, less);
      MergeAdvance(orig, s, i, p, q, k, less);
      MergedCorrect(orig, s, i, p + 1, q, k, less);
    } else {
      MergeMove(orig, s, i, p, q, k, less);
      MergedMoved(orig, s, SwapBlocks(s, p, q, q + 1), i, p, q, k, less);
    }
  }

  lemma {:induction false} MergedMoved<T>(orig: seq<T>, s: seq<T>, u: seq<T>, i: nat, p: nat, q: nat, k: nat,
                                          less: (T, T) -> bool)
    requires 1 <= i <= p < q < k < |s| && less(s[q], s[p]) && OrderInside(less, orig)
    requires u == SwapBlocks(s, p, q, q + 1) && Merging(orig, u, i, p + 1, q + 1, k, less)
    ensures SortedRange(orig, s, Merged(s, p, q, k, less), i, k, less)
    decreases k - p, 0
  {
    MergedCorrect(orig, u, i, p + 1, q + 1, k, less);
    MergedStep(s, p, q, k, less);
    MovedWithin(orig, s, u, Merged(s, p, q, k, less), i, p, q, k, less);
  }

  lemma InDomain<T>(orig: seq<T>, s: seq<T>, less: (T, T) -> bool)
    requires StableRearrangement(orig, s, less) && Distinct(orig)
    ensures forall x | 0 < x < |s| - 1 :: s[x] in Inner(orig)
  {
    DistinctPermutation(orig, s);
    forall x | 0 < x < |s| - 1 ensures s[x] in Inner(orig) {
      assert s[x] in multiset(orig);
      SameIndex(s, x, 0);
      SameIndex(s, x, |s| - 1);
    }
  }

  // ---------- One pass of the natural merge sort ----------

  /** The exclusive end of the natural run starting at i. */
  ghost function RunEnd<T>(s: seq<T>, i: nat, hi: nat, less: (T, T) -> bool): (j: nat)
    requires i < hi <= |s|
    ensures i < j <= hi
    decreases hi - i
  {
    if i + 1 == hi || less(s[i + 1], s[i]) then i + 1 else RunEnd(s, i + 1, hi, less)
  }

  lemma {:induction false} RunEndIsRun<T>(s: seq<T>, i: nat, hi: nat, less: (T, T) -> bool)
    requires i < hi <= |s|
    ensures var j := RunEnd(s, i, hi, less);
      Run(s, i, j, less) && (j < hi ==> less(s[j], s[j - 1]))
    decreases hi - i
  {
    if !(i + 1 == hi || less(s[i + 1], s[i])) { RunEndIsRun(s, i + 1, hi, less); }
  }

  // The first two natural runs from position i on, and what merging them gives.
  ghost function PairEnd<T>(s: seq<T>, i: nat, hi: nat, less: (T, T) -> bool): (k: nat)
    requires i < hi <= |s| && RunEnd(s, i, hi, less) < hi
    ensures i < k <= hi
  {
    RunEnd(s, RunEnd(s, i, hi, less), hi, less)
  }

  ghost function PairMerged<T>(s: seq<T>, i: nat, hi: nat, less: (T, T) -> bool): (t: seq<T>)
    requires i < hi <= |s| && RunEnd(s, i, hi, less) < hi
    ensures |t| == |s|
  {
    Merged(s, i, RunEnd(s, i, hi, less), PairEnd(s, i, hi, less), less)
  }

  /** Merges adjacent natural runs two by two from position i on. */
  ghost function Pass<T>(s: seq<T>, i: nat, hi: nat, less: (T, T) -> bool): (t: seq<T>)
    requires i <= hi <= |s|
    ensures |t| == |s|
    decreases hi - i
  {
    if i == hi || RunEnd(s, i, hi, less) == hi then s
    else Pass(PairMerged(s, i, hi, less), PairEnd(s, i, hi, less), hi, less)
  }

  /** How many runs a pass outputs. */
  ghost function PassRuns<T>(s: seq<T>, i: nat, hi: nat, less: (T, T) -> bool): nat
    requires i <= hi <= |s|
    decreases hi - i
  {
    if i == hi then 0
    else if RunEnd(s, i, hi, less) == hi then 1
    else 1 + PassRuns(PairMerged(s, i, hi, less), PairEnd(s, i, hi, less), hi, less)
  }

  // Cutting a natural run off the front.
  lemma RunOff<T>(s: seq<T>, i: nat, hi: nat, less: (T, T) -> bool)
    requires i < hi <= |s|
    ensures NaturalRuns(s, i, hi, less) == 1 + NaturalRuns(s, RunEnd(s, i, hi, less), hi, less)
  {
    var j := RunEnd(s, i, hi, less);
    RunEndIsRun(s, i, hi, less);
    NoDescents(s, i, j, less);
    if j < hi { DescentsSplit(s, i, j, hi, less); }
  }

  // Merging the first two runs yields one run and leaves the others alone.
  lemma MergeFirstTwo<T>(orig: seq<T>, s: seq<T>, i: nat, hi: nat, less: (T, T) -> bool)
    requires 1 <= i < hi < |s| && StableRearrangement(orig, s, less) && OrderInside(less, orig)
    requires RunEnd(s, i, hi, less) < hi
    ensures var k, t := PairEnd(s, i, hi, less), PairMerged(s, i, hi, less);
      && Run(t, i, k, less) && StableRearrangement(orig, t, less)
      && (forall x | 0 <= x < i || k <= x < |s| :: t[x] == s[x])
      && NaturalRuns(s, i, hi, less) == 2 + NaturalRuns(t, k, hi, less)
  {
    var m := RunEnd(s, i, hi, less);
    var k := RunEnd(s, m, hi, less);
    RunEndIsRun(s, i, hi, less);
    RunEndIsRun(s, m, hi, less);
    InDomain(orig, s, less);
    RunIsSorted(s, i, m, Inner(orig), less);
    RunIsSorted(s, m, k, Inner(orig), less);
    MergedCorrect(orig, s, i, i, m, k, less);
    RunOff(s, i, hi, less);
    RunOff(s, m, hi, less);
    DescentsSame(s, Merged(s, i, m, k, less), k, hi, less);
  }

  /** A pass keeps the arrangement stable, outputs half of the natural runs
      (rounded up), and leaves at most that many. */
  lemma {:induction false} PassCorrect<T>(orig: seq<T>, s: seq<T>, i: nat, hi: nat, less: (T, T) -> bool)
    requires 1 <= i <= hi < |s| && StableRearrangement(orig, s, less) && OrderInside(less, orig)
    ensures var t := Pass(s, i, hi, less);
      && StableRearrangement(orig, t, less)
      && (forall x | 0 <= x < i || hi <= x < |s| :: t[x] == s[x])
      && NaturalRuns(t, i, hi, less) <= PassRuns(s, i, hi, less)
    ensures PassRuns(s, i, hi, less) == (NaturalRuns(s, i, hi, less) + 1) / 2
    decreases hi - i
  {
    if i < hi {
      RunOff(s, i, hi, less);
      if RunEnd(s, i, hi, less) < hi {
        var k, t := PairEnd(s, i, hi, less), PairMerged(s, i, hi, less);
        MergeFirstTwo(orig, s, i, hi, less);
        PassCorrect(orig, t, k, hi, less);
        RunThenRest(t, Pass(t, k, hi, less), i, k, hi, less);
      }
    }
  }

  lemma RunThenRest<T>(t: seq<T>, u: seq<T>, i: nat, k: nat, hi: nat, less: (T, T) -> bool)
    requires i < k <= hi <= |t| == |u| && Run(t, i, k, less)
    requires forall x | i <= x < k :: u[x] == t[x]
    ensures NaturalRuns(u, i, hi, less) <= 1 + NaturalRuns(u, k, hi, less)
  {
    NoDescents(t, i, k, less);
    DescentsSame(t, u, i, k, less);
    if k < hi { DescentsSplit(u, i, k, hi, less); }
  }

  lemma SortStep<T>(orig: seq<T>, s: seq<T>, hi: nat, less: (T, T) -> bool)
    requires 1 <= hi < |s| && StableRearrangement(orig, s, less) && OrderInside(less, orig)
    ensures StableRearrangement(orig, Pass(s, 1, hi, less), less)
    ensures PassRuns(s, 1, hi, less) > 1 ==>
      NaturalRuns(Pass(s, 1, hi, less), 1, hi, less) < NaturalRuns(s, 1, hi, less)
    ensures PassRuns(s, 1, hi, less) <= 1 ==>
      NaturalRuns(Pass(s, 1, hi, less), 1, hi, less) <= 1
    ensures NaturalRuns(Pass(s, 1, hi, less), 1, hi, less) <= NaturalRuns(s, 1, hi, less)
  {
    PassCorrect(orig, s, 1, hi, less);
  }

  lemma SortDone<T>(orig: seq<T>, s: seq<T>, hi: nat, less: (T, T) -> bool)
    requires 1 <= hi < |s| && StableRearrangement(orig, s, less) && OrderInside(less, orig)
    requires NaturalRuns(s, 1, hi, less) <= 1
    ensures Sorted(s, 1, hi, less)
  {
    NoDescents(s, 1, hi, less);
    InDomain(orig, s, less);
    RunIsSorted(s, 1, hi, Inner(orig), less);
  }

  /** The specification of a stable sort has exactly one solution. */
  lemma StableSortUnique<T>(orig: seq<T>, s: seq<T>, t: seq<T>, less: (T, T) -> bool)
    requires OrderInside(less, orig)
    requires StableRearrangement(orig, s, less) && StableRearrangement(orig, t, less)
    requires Sorted(s, 1, |s| - 1, less) && Sorted(t, 1, |t| - 1, less)
    ensures s == t
  {
    DistinctPermutation(orig, s);
    DistinctPermutation(orig, t);
    var k := 1;
    while k < |s| - 1
      invariant 1 <= k <= |s| - 1
      invariant s[..k] == t[..k]
    {
      AgreeNext(orig, s, t, k, less);
      k := k + 1;
    }
    assert s[..k] + [s[k]] == s && t[..k] + [t[k]] == t;
  }

  // Strictly below in the order that breaks ties by original position.
  ghost predicate Ahead<T>(orig: seq<T>, x: T, y: T, less: (T, T) -> bool) {
    less(x, y) || (Equivalent(x, y, less) && Precedes(orig, x, y))
  }

  lemma AgreeNext<T>(orig: seq<T>, s: seq<T>, t: seq<T>, k: nat, less: (T, T) -> bool)
    requires OrderInside(less, orig)
    requires StableRearrangement(orig, s, less) && StableRearrangement(orig, t, less)
    requires Distinct(s) && Distinct(t) && |s| == |t| && 1 <= k < |s| - 1 && s[..k] == t[..k]
    requires s[|s| - 1] == t[|t| - 1]
    requires Sorted(s, 1, |s| - 1, less) && Sorted(t, 1, |t| - 1, less)
    ensures s[k] == t[k]
  {
    var j := OccursFrom(s, t, k);
    var i := OccursFrom(t, s, k);
    InDomain(orig, s, less);
    InDomain(orig, t, less);
    AheadAsymmetric(orig, s[k], t[k], less);
  }

  lemma AheadAsymmetric<T>(orig: seq<T>, x: T, y: T, less: (T, T) -> bool)
    requires x in Inner(orig) && y in Inner(orig) && OrderInside(less, orig)
    ensures !(Ahead(orig, x, y, less) && Ahead(orig, y, x, less))
  {
    AllApart(orig);
  }

  // Two arrangements that agree up to `k`: what one has there, the other has
  // there or further on.
  lemma OccursFrom<T>(s: seq<T>, t: seq<T>, k: nat) returns (j: nat)
    requires Distinct(s) && multiset(s) == multiset(t) && |s| == |t|
    requires k < |s| - 1 && s[..k] == t[..k] && s[|s| - 1] == t[|t| - 1]
    ensures k <= j < |t| - 1 && t[j] == s[k]
  {
    AllApart(s);
    assert s[k] in multiset(t);
    j :| 0 <= j < |t| && t[j] == s[k];
    forall i | 0 <= i < k ensures t[i] != s[k] {
      assert t[i] == t[..k][i] == s[..k][i] == s[i];
    }
  }

  lemma DistinctPermutation<T>(s: seq<T>, t: seq<T>)
    requires Distinct(s) && multiset(s) == multiset(t)
    ensures Distinct(t)
  {
    forall i, j | 0 <= i < j < |t| ensures t[i] != t[j] {
      assert t == t[..i] + [t[i]] + t[i + 1..j] + [t[j]] + t[j + 1..];
      DistinctCount(s, t[i]);
    }
  }

  lemma {:induction false} DistinctCount<T>(s: seq<T>, x: T)
    requires Distinct(s)
    ensures multiset(s)[x] <= 1
  {
    if s != [] {
      AllApart(s);
      var r, last := s[..|s| - 1], s[|s| - 1];
      assert s == r + [last];
      assert last !in r;
      DistinctCount(r, x);
    }
  }
}
