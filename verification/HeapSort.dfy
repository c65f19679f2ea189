/**
 Heapsort in place and binary search (lib/stdlib.c).  Elements are numbered from
 1, so the children of element i are 2i and 2i + 1.
 */
module HeapSort {

  /** A strcmp()-like comparison: a total preorder. */
  ghost predicate TotalPreorder<T(!new)>(cmp: (T, T) -> int) {
    && (forall a, b :: cmp(a, b) > 0 <==> cmp(b, a) < 0)
    && (forall a, b, c | cmp(a, b) <= 0 && cmp(b, c) <= 0 :: cmp(a, c) <= 0)
  }

  ghost predicate Sorted<T>(cmp: (T, T) -> int, s: seq<T>) {
    forall i, j | 0 <= i < j < |s| :: cmp(s[i], s[j]) <= 0
  }

  ghost function Swapped<T>(s: seq<T>, i: int, j: int): (r: seq<T>)
    requires 1 <= i <= |s| && 1 <= j <= |s|
    ensures |r| == |s|
  {
    s[i - 1 := s[j - 1]][j - 1 := s[i - 1]]
  }

  // ---------- Heaps ----------

  /** Child c of element i, if there is one, is not greater. */
  ghost predicate Under<T>(cmp: (T, T) -> int, s: seq<T>, cnt: int, i: int, c: int)
    requires 1 <= i <= cnt <= |s|
  {
    1 <= c <= cnt ==> cmp(s[c - 1], s[i - 1]) <= 0
  }

  ghost predicate HeapAt<T>(cmp: (T, T) -> int, s: seq<T>, cnt: int, i: int)
    requires 1 <= i <= cnt <= |s|
  {
    Under(cmp, s, cnt, i, 2 * i) && Under(cmp, s, cnt, i, 2 * i + 1)
  }

  /** Elements from lo to cnt are in heap order, except perhaps element k. */
  ghost predicate HeapBut<T>(cmp: (T, T) -> int, s: seq<T>, lo: int, cnt: int, k: int)
    requires 1 <= lo && cnt <= |s|
  {
    forall i | lo <= i <= cnt && i != k :: HeapAt(cmp, s, cnt, i)
  }

  ghost predicate Heap<T>(cmp: (T, T) -> int, s: seq<T>, lo: int, cnt: int)
    requires 1 <= lo && cnt <= |s|
  {
    forall i | lo <= i <= cnt :: HeapAt(cmp, s, cnt, i)
  }

  /** The children of k are not greater than its parent. */
  ghost predicate Bridged<T>(cmp: (T, T) -> int, s: seq<T>, lo: int, cnt: int, k: int)
    requires 1 <= lo <= k <= cnt <= |s|
  {
    lo <= k / 2 ==> Under(cmp, s, cnt, k / 2, 2 * k) && Under(cmp, s, cnt, k / 2, 2 * k + 1)
  }

  /** m is k or the greatest of its children, whichever is greater. */
  ghost predicate Greatest<T>(cmp: (T, T) -> int, s: seq<T>, cnt: int, k: int, m: int)
    requires 1 <= k <= cnt <= |s|
  {
    && (m == k || m == 2 * k || m == 2 * k + 1) && 1 <= m <= cnt
    && cmp(s[k - 1], s[m - 1]) <= 0 && Under(cmp, s, cnt, m, 2 * k) && Under(cmp, s, cnt, m, 2 * k + 1)
  }

  /** Swapping k with its greatest child moves the exception down. */
  lemma SiftStep<T(!new)>(cmp: (T, T) -> int, s: seq<T>, lo: int, cnt: int, k: int, m: int)
    requires TotalPreorder(cmp) && 1 <= lo <= k <= cnt <= |s|
    requires HeapBut(cmp, s, lo, cnt, k) && Bridged(cmp, s, lo, cnt, k) && Greatest(cmp, s, cnt, k, m) && m != k
    ensures HeapBut(cmp, Swapped(s, k, m), lo, cnt, m) && Bridged(cmp, Swapped(s, k, m), lo, cnt, m)
  {
    var t := Swapped(s, k, m);
    assert m / 2 == k && HeapAt(cmp, s, cnt, m);
    forall i | lo <= i <= cnt && i != m ensures HeapAt(cmp, t, cnt, i) {
      if i == k {
        SiftParent(cmp, s, cnt, k, m);
      } else {
        assert HeapAt(cmp, s, cnt, i);
        SiftOther(cmp, s, lo, cnt, k, m, i);
      }
    }
  }

  // The swap puts the greatest of the three on top.
  lemma SiftParent<T(!new)>(cmp: (T, T) -> int, s: seq<T>, cnt: int, k: int, m: int)
    requires TotalPreorder(cmp) && 1 <= k <= cnt <= |s| && Greatest(cmp, s, cnt, k, m) && m != k
    ensures HeapAt(cmp, Swapped(s, k, m), cnt, k)
  {
  }

  // Elements other than k and m see at most that child k has become greater.
  lemma SiftOther<T(!new)>(cmp: (T, T) -> int, s: seq<T>, lo: int, cnt: int, k: int, m: int, i: int)
    requires TotalPreorder(cmp) && 1 <= lo <= k <= cnt <= |s| && lo <= i <= cnt && i != k && i != m && m != k
    requires HeapAt(cmp, s, cnt, i) && Bridged(cmp, s, lo, cnt, k) && Greatest(cmp, s, cnt, k, m)
    ensures HeapAt(cmp, Swapped(s, k, m), cnt, i)
  {
    SiftOtherChild(cmp, s, lo, cnt, k, m, i, 2 * i);
    SiftOtherChild(cmp, s, lo, cnt, k, m, i, 2 * i + 1);
  }

  lemma SiftOtherChild<T(!new)>(cmp: (T, T) -> int, s: seq<T>, lo: int, cnt: int, k: int, m: int, i: int, c: int)
    requires 1 <= lo <= k <= cnt <= |s| && lo <= i <= cnt && i != k && i != m && m != k && c / 2 == i
    requires Under(cmp, s, cnt, i, c) && Bridged(cmp, s, lo, cnt, k) && Greatest(cmp, s, cnt, k, m)
    ensures Under(cmp, Swapped(s, k, m), cnt, i, c)
  {
    var t := Swapped(s, k, m);
    assert m / 2 == k && c != m && t[i - 1] == s[i - 1];
    if c == k {
      assert t[c - 1] == s[m - 1];
    } else if 1 <= c <= cnt {
      assert t[c - 1] == s[c - 1];
    }
  }

  /** The first element of a heap is the greatest. */
  lemma {:induction false} TopIsGreatest<T(!new)>(cmp: (T, T) -> int, s: seq<T>, cnt: int, j: int)
    requires TotalPreorder(cmp) && cnt <= |s| && Heap(cmp, s, 1, cnt) && 1 <= j <= cnt
    ensures cmp(s[j - 1], s[0]) <= 0
  {
    if j > 1 {
      TopIsGreatest(cmp, s, cnt, j / 2);
      assert HeapAt(cmp, s, cnt, j / 2) && Under(cmp, s, cnt, j / 2, j);
    }
  }

  // ---------- Swapping keeps the elements ----------

  /** Only the first cnt elements have been moved about. */
  ghost predicate Rearranged<T>(s: seq<T>, t: seq<T>, cnt: int)
    requires 0 <= cnt <= |s|
  {
    |t| == |s| && t[cnt..] == s[cnt..] && multiset(t[..cnt]) == multiset(s[..cnt])
  }

  lemma SwapRearranges<T>(s: seq<T>, cnt: int, i: int, j: int)
    requires 1 <= i <= cnt <= |s| && 1 <= j <= cnt
    ensures Rearranged(s, Swapped(s, i, j), cnt)
  {
    var p := s[..cnt];
    assert Swapped(s, i, j)[..cnt] == p[i - 1 := p[j - 1]][j - 1 := p[i - 1]];
  }

  lemma RearrangedMore<T>(s: seq<T>, t: seq<T>, cnt: int, n: int)
    requires 0 <= cnt <= n <= |s| && Rearranged(s, t, cnt)
    ensures Rearranged(s, t, n)
  {
    assert t[..n] == t[..cnt] + t[cnt..][..n - cnt] && s[..n] == s[..cnt] + s[cnt..][..n - cnt];
    assert t[n..] == t[cnt..][n - cnt..] && s[n..] == s[cnt..][n - cnt..];
  }

  /** What holds of the first cnt elements still does after rearranging them. */
  lemma RearrangedBelow<T>(cmp: (T, T) -> int, s: seq<T>, t: seq<T>, cnt: int, x: T)
    requires 0 <= cnt <= |s| && Rearranged(s, t, cnt) && forall j | 0 <= j < cnt :: cmp(s[j], x) <= 0
    ensures forall j | 0 <= j < cnt :: cmp(t[j], x) <= 0
  {
    forall j | 0 <= j < cnt ensures cmp(t[j], x) <= 0 {
      assert t[..cnt][j] in multiset(t[..cnt]);
      assert t[j] in multiset(s[..cnt]);
      assert t[j] in s[..cnt];
    }
  }

  // ---------- The algorithms ----------

  method Swap<T>(a: array<T>, i: nat, j: nat)
    requires 1 <= i <= a.Length && 1 <= j <= a.Length
    modifies a
    ensures a[..] == Swapped(old(a[..]), i, j)
  {
    var t := a[i - 1];
    a[i - 1] := a[j - 1];
    a[j - 1] := t;
  }

  // The greatest of element k and its children.
  method FindGreatest<T(!new)>(a: array<T>, k: nat, cnt: nat, cmp: (T, T) -> int) returns (m: nat)
    requires TotalPreorder(cmp) && 1 <= k <= cnt <= a.Length
    ensures Greatest(cmp, a[..], cnt, k, m)
  {
    var left, right := 2 * k, 2 * k + 1;
    m := k;
    assert cmp(a[k - 1], a[k - 1]) <= 0;
    if left <= cnt && cmp(a[left - 1], a[m - 1]) > 0 { m := left; }
    if right <= cnt && cmp(a[right - 1], a[m - 1]) > 0 { m := right; }
  }

  /** Floats element i down until elements from i on are in heap order. */
  method Heapify<T(!new)>(a: array<T>, i: nat, cnt: nat, cmp: (T, T) -> int)
    requires TotalPreorder(cmp) && 1 <= i <= cnt <= a.Length && Heap(cmp, a[..], i + 1, cnt)
    modifies a
    ensures Heap(cmp, a[..], i, cnt) && Rearranged(old(a[..]), a[..], cnt)
  {
    var k := i;
    var m := FindGreatest(a, k, cnt, cmp);
    while m != k
      invariant i <= k <= cnt && Greatest(cmp, a[..], cnt, k, m)
      invariant HeapBut(cmp, a[..], i, cnt, k) && Bridged(cmp, a[..], i, cnt, k)
      invariant Rearranged(old(a[..]), a[..], cnt)
      decreases cnt - k
    {
      SiftStep(cmp, a[..], i, cnt, k, m);
      SwapRearranges(a[..], cnt, k, m);
      Swap(a, k, m);
      k := m;
      m := FindGreatest(a, k, cnt, cmp);
    }
    assert HeapAt(cmp, a[..], cnt, k);
  }

  /** The elements after the first i are sorted and none is less than an earlier
      one. */
  ghost predicate TailDone<T>(cmp: (T, T) -> int, s: seq<T>, i: int)
    requires 0 <= i <= |s|
  {
    forall j, l | 0 <= j < l < |s| && i <= l :: cmp(s[j], s[l]) <= 0
  }

  // Moving the greatest to the end of the heap.
  lemma TopDone<T(!new)>(cmp: (T, T) -> int, s: seq<T>, i: int)
    requires TotalPreorder(cmp) && 1 < i <= |s| && Heap(cmp, s, 1, i) && TailDone(cmp, s, i)
    ensures var t := Swapped(s, 1, i);
      TailDone(cmp, t, i - 1) && Heap(cmp, t, 2, i - 1)
  {
    var t := Swapped(s, 1, i);
    forall j, l | 0 <= j < l < |s| && i - 1 <= l ensures cmp(t[j], t[l]) <= 0 {
      TopMoved(cmp, s, i, j, l);
    }
    var n := i - 1;
    forall j | 2 <= j <= n ensures HeapAt(cmp, t, n, j) { assert HeapAt(cmp, s, i, j); }
  }

  lemma TopMoved<T(!new)>(cmp: (T, T) -> int, s: seq<T>, i: int, j: int, l: int)
    requires TotalPreorder(cmp) && 1 < i <= |s| && Heap(cmp, s, 1, i) && TailDone(cmp, s, i)
    requires 0 <= j < l < |s| && i - 1 <= l
    ensures cmp(Swapped(s, 1, i)[j], Swapped(s, 1, i)[l]) <= 0
  {
    var k := if j == 0 then i - 1 else if j == i - 1 then 0 else j;
    assert Swapped(s, 1, i)[j] == s[k];
    if l == i - 1 {
      TopIsGreatest(cmp, s, i, k + 1);
    } else {
      assert Swapped(s, 1, i)[l] == s[l] && cmp(s[k], s[l]) <= 0;
    }
  }

  lemma TailKept<T(!new)>(cmp: (T, T) -> int, s: seq<T>, t: seq<T>, i: int)
    requires 0 <= i <= |s| && TailDone(cmp, s, i) && Rearranged(s, t, i)
    ensures TailDone(cmp, t, i)
  {
    forall j, l | 0 <= j < l < |t| && i <= l ensures cmp(t[j], t[l]) <= 0 {
      assert t[l] == t[i..][l - i] == s[i..][l - i] == s[l];
      if j < i {
        RearrangedBelow(cmp, s, t, i, s[l]);
      } else {
        assert t[j] == t[i..][j - i] == s[i..][j - i] == s[j];
      }
    }
  }

  method BuildHeap<T(!new)>(a: array<T>, cmp: (T, T) -> int)
    requires TotalPreorder(cmp)
    modifies a
    ensures Heap(cmp, a[..], 1, a.Length) && Rearranged(old(a[..]), a[..], a.Length)
  {
    var i := a.Length / 2;
    while i > 0
      invariant 0 <= i <= a.Length / 2 && Heap(cmp, a[..], i + 1, a.Length)
      invariant Rearranged(old(a[..]), a[..], a.Length)
    {
      Heapify(a, i, a.Length, cmp);
      i := i - 1;
    }
  }

  lemma RearrangedTwice<T>(s: seq<T>, t: seq<T>, u: seq<T>, cnt: int, n: int)
    requires 0 <= cnt <= n <= |s| && Rearranged(s, t, n) && Rearranged(t, u, cnt)
    ensures Rearranged(s, u, n)
  {
    RearrangedMore(t, u, cnt, n);
  }

  // Moves the greatest of the first i elements behind the others.
  method SortStep<T(!new)>(a: array<T>, i: nat, cmp: (T, T) -> int)
    requires TotalPreorder(cmp) && 1 < i <= a.Length && Heap(cmp, a[..], 1, i) && TailDone(cmp, a[..], i)
    modifies a
    ensures Heap(cmp, a[..], 1, i - 1) && TailDone(cmp, a[..], i - 1) && Rearranged(old(a[..]), a[..], a.Length)
  {
    ghost var s := a[..];
    TopDone(cmp, s, i);
    SwapRearranges(s, a.Length, 1, i);
    Swap(a, 1, i);
    ghost var t := a[..];
    Heapify(a, 1, i - 1, cmp);
    TailKept(cmp, t, a[..], i - 1);
    RearrangedTwice(s, t, a[..], i - 1, a.Length);
  }

  /** Sorts the array in place: the same elements in nondecreasing order. */
  method Sort<T(!new)>(a: array<T>, cmp: (T, T) -> int)
    requires TotalPreorder(cmp)
    modifies a
    ensures Sorted(cmp, a[..]) && multiset(a[..]) == multiset(old(a[..]))
  {
    BuildHeap(a, cmp);
    var i := a.Length;
    while i > 1
      invariant 0 <= i <= a.Length && Heap(cmp, a[..], 1, i) && TailDone(cmp, a[..], i)
      invariant Rearranged(old(a[..]), a[..], a.Length)
    {
      SortStep(a, i, cmp);
      i := i - 1;
    }
    assert a[..a.Length] == a[..] && old(a[..])[..a.Length] == old(a[..]);
  }

  /** In a sorted array, an element that matches the key, or -1 exactly if there
      is none. */
  method BinarySearch<T(!new)>(key: T, a: array<T>, cmp: (T, T) -> int) returns (r: int)
    requires TotalPreorder(cmp) && Sorted(cmp, a[..])
    ensures r >= 0 ==> r < a.Length && cmp(key, a[r]) == 0
    ensures r < 0 ==> forall x | x in a[..] :: cmp(key, x) != 0
  {
    var first, last := 0, a.Length;
    while first < last
      invariant 0 <= first <= last <= a.Length
      invariant forall j | 0 <= j < first :: cmp(key, a[j]) > 0
      invariant forall j | last <= j < a.Length :: cmp(key, a[j]) < 0
      decreases last - first
    {
      var range := last - first;
      var middle := first + range / 2;
      var c := cmp(key, a[middle]);
      if c < 0 {
        BeyondKey(cmp, a[..], key, middle);
        last := middle;
      } else if c > 0 {
        BeforeKey(cmp, a[..], key, middle);
        first := middle + 1;
      } else {
        return middle;
      }
    }
    return -1;
  }

  lemma BeyondKey<T(!new)>(cmp: (T, T) -> int, s: seq<T>, key: T, m: int)
    requires TotalPreorder(cmp) && Sorted(cmp, s) && 0 <= m < |s| && cmp(key, s[m]) < 0
    ensures forall j | m <= j < |s| :: cmp(key, s[j]) < 0
  {
    forall j | m <= j < |s| ensures cmp(key, s[j]) < 0 {
      assert cmp(s[m], s[j]) <= 0 && cmp(s[m], key) > 0;
      assert cmp(s[j], key) > 0;
    }
  }

  lemma BeforeKey<T(!new)>(cmp: (T, T) -> int, s: seq<T>, key: T, m: int)
    requires TotalPreorder(cmp) && Sorted(cmp, s) && 0 <= m < |s| && cmp(key, s[m]) > 0
    ensures forall j | 0 <= j <= m :: cmp(key, s[j]) > 0
  {
    forall j | 0 <= j <= m ensures cmp(key, s[j]) > 0 {
      assert cmp(s[j], s[m]) <= 0;
    }
  }
}
