/** Sequences without repetitions, used by the list, thread and allocator models. */
module Sequences {

  /** No element occurs twice.  Naming the pair keeps the solver from comparing
      every two elements it sees. */
  ghost predicate Distinct<T>(s: seq<T>) {
    forall i, j {:trigger Apart(s, i, j)} | 0 <= i < j < |s| :: Apart(s, i, j)
  }

  ghost predicate Apart<T>(s: seq<T>, i: int, j: int)
    requires 0 <= i < |s| && 0 <= j < |s|
  {
    s[i] != s[j]
  }

  lemma AllApart<T>(s: seq<T>)
    requires Distinct(s)
    ensures forall i, j | 0 <= i < j < |s| :: s[i] != s[j]
  {
    forall i, j | 0 <= i < j < |s| ensures s[i] != s[j] {
      assert Apart(s, i, j);
    }
  }

  lemma SameIndex<T>(s: seq<T>, i: nat, j: nat)
    requires Distinct(s) && i < |s| && j < |s|
    ensures s[i] == s[j] <==> i == j
  {
    assert i < j ==> Apart(s, i, j);
    assert j < i ==> Apart(s, j, i);
  }

  lemma DistinctTail<T>(s: seq<T>)
    requires Distinct(s) && s != []
    ensures Distinct(s[1..]) && s[0] !in s[1..]
  {
    AllApart(s);
  }

  lemma DistinctAppend<T>(s: seq<T>, x: T)
    requires Distinct(s) && x !in s
    ensures Distinct(s + [x])
  {
    AllApart(s);
  }

  lemma NoMembers<T>(s: seq<T>)
    ensures (forall x | x in s :: false) ==> s == []
  {
    assert s != [] ==> s[0] in s;
  }

  lemma DistinctPrepend<T>(s: seq<T>, x: T)
    requires Distinct(s) && x !in s
    ensures Distinct([x] + s)
  {
    AllApart(s);
  }

  lemma DistinctPrefix<T>(s: seq<T>, t: seq<T>)
    requires Distinct(s + t)
    ensures Distinct(s)
  {
    AllApart(s + t);
    assert forall i | 0 <= i < |s| :: (s + t)[i] == s[i];
  }

  // ---------- Taking elements out ----------

  /** s without the elements of `gone`, in order. */
  function Without<T(==, !new)>(s: seq<T>, gone: set<T>): (r: seq<T>)
    ensures forall x :: x in r <==> x in s && x !in gone
  {
    if s == [] then []
    else if s[0] in gone then Without(s[1..], gone)
    else [s[0]] + Without(s[1..], gone)
  }

  lemma {:induction false} WithoutDistinct<T(!new)>(s: seq<T>, gone: set<T>)
    requires Distinct(s)
    ensures Distinct(Without(s, gone))
  {
    if s != [] {
      DistinctTail(s);
      WithoutDistinct(s[1..], gone);
      if s[0] !in gone { DistinctPrepend(Without(s[1..], gone), s[0]); }
    }
  }

  /** Removing one more element at a time removes them all. */
  lemma {:induction false} WithoutTwice<T(!new)>(s: seq<T>, gone: set<T>, x: T)
    ensures Without(Without(s, gone), {x}) == Without(s, gone + {x})
  {
    if s != [] {
      WithoutTwice(s[1..], gone, x);
    }
  }

  lemma {:induction false} WithoutAbsent<T(!new)>(s: seq<T>, gone: set<T>)
    requires forall x | x in s :: x !in gone
    ensures Without(s, gone) == s
  {
    if s != [] { WithoutAbsent(s[1..], gone); }
  }
}
