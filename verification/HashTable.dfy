/**
 The chained hash table (lib/kernel/hash.c).  The table holds a finite set of
 elements no two of which are equal, where equal means that neither is less than
 the other.
 */
module HashTable {
  import opened Options
  import opened Sequences
  import opened Arithmetic
  import opened PowersOfTwo

  /** The functions that a table is initialised with. */
  datatype Keys<!T> = Keys(hash: T -> nat, less: (T, T) -> bool)

  predicate Equal<T>(k: Keys<T>, x: T, y: T) {
    !k.less(x, y) && !k.less(y, x)
  }

  /** Being equal is an equivalence, as it is for every strict weak order, and
      equal elements hash alike. */
  ghost predicate GoodKeys<T(!new)>(k: Keys<T>) {
    && (forall x :: Equal(k, x, x))
    && (forall x, y, z | Equal(k, x, y) && Equal(k, y, z) :: Equal(k, x, z))
    && (forall x, y | Equal(k, x, y) :: k.hash(x) == k.hash(y))
  }

  function BucketOf<T>(k: Keys<T>, cnt: nat, e: T): (i: nat)
    requires cnt > 0
    ensures i < cnt
  {
    And(k.hash(e), cnt - 1)
  }

  /** With a power of two of buckets, an element goes to its hash modulo their
      number. */
  lemma BucketIsRemainder<T>(k: Keys<T>, cnt: nat, e: T)
    requires IsPow2(cnt)
    ensures cnt > 0 && BucketOf(k, cnt, e) == k.hash(e) % cnt
  {
    var j: nat :| cnt == Pow2(j);
    AndMask(k.hash(e), j);
  }

  // ---------- The elements of a table ----------

  /** The elements in the order of the buckets. */
  ghost function Flat<T>(b: seq<seq<T>>): seq<T> {
    if b == [] then [] else Flat(b[..|b| - 1]) + b[|b| - 1]
  }

  lemma {:induction false} InFlat<T>(b: seq<seq<T>>, x: T)
    ensures x in Flat(b) <==> exists i :: 0 <= i < |b| && x in b[i]
  {
    if b != [] {
      InFlat(b[..|b| - 1], x);
    }
  }

  /** Changing one bucket changes the number of elements by the difference. */
  lemma {:induction false} FlatLength<T>(b: seq<seq<T>>, i: nat, t: seq<T>)
    requires i < |b|
    ensures |Flat(b[i := t])| == |Flat(b)| - |b[i]| + |t|
  {
    var n := |b| - 1;
    if i < n {
      FlatLength(b[..n], i, t);
      assert b[i := t][..n] == b[..n][i := t];
    } else {
      assert b[i := t][..n] == b[..n];
    }
  }

  /** Element j of bucket i comes after the elements of the buckets before. */
  lemma {:induction false} FlatIndex<T>(b: seq<seq<T>>, i: nat, j: nat)
    requires i < |b| && j < |b[i]|
    ensures |Flat(b[..i])| + j < |Flat(b)| && Flat(b)[|Flat(b[..i])| + j] == b[i][j]
  {
    var n := |b| - 1;
    if i < n {
      FlatIndex(b[..n], i, j);
      assert b[..n][..i] == b[..i];
    }
  }

  lemma {:induction false} FlatPrefix<T>(b: seq<seq<T>>, i: nat)
    requires i < |b|
    ensures |Flat(b[..i + 1])| == |Flat(b[..i])| + |b[i]|
  {
    assert b[..i + 1][..i] == b[..i];
  }

  // ---------- Well-formed tables ----------

  /** No two elements are equal. */
  ghost predicate Unique<T>(k: Keys<T>, s: seq<T>) {
    forall i, j | 0 <= i < j < |s| :: !Equal(k, s[i], s[j])
  }

  ghost predicate BucketOk<T>(k: Keys<T>, b: seq<seq<T>>, i: nat)
    requires i < |b|
  {
    Unique(k, b[i]) && forall x | x in b[i] :: BucketOf(k, |b|, x) == i
  }

  /** Every element is in the bucket it hashes to, and no two are equal. */
  ghost predicate TableOk<T>(k: Keys<T>, b: seq<seq<T>>) {
    |b| > 0 && forall i | 0 <= i < |b| :: BucketOk(k, b, i)
  }

  lemma {:induction false} FlatUnique<T(!new)>(k: Keys<T>, b: seq<seq<T>>, n: nat)
    requires GoodKeys(k) && TableOk(k, b) && n <= |b|
    ensures Unique(k, Flat(b[..n]))
  {
    if n > 0 {
      var r, t := Flat(b[..n - 1]), b[n - 1];
      FlatUnique(k, b, n - 1);
      assert b[..n][..n - 1] == b[..n - 1] && Flat(b[..n]) == r + t;
      assert BucketOk(k, b, n - 1);
      forall i, j | 0 <= i < |r| && 0 <= j < |t| ensures !Equal(k, r[i], t[j]) {
        InFlat(b[..n - 1], r[i]);
        var m :| 0 <= m < n - 1 && r[i] in b[..n - 1][m];
        assert BucketOk(k, b, m) && r[i] in b[m] && t[j] in b[n - 1];
      }
    }
  }

  /** An element equal to e can only be in the bucket of e. */
  lemma OnlyInBucket<T(!new)>(k: Keys<T>, b: seq<seq<T>>, e: T, y: T)
    requires GoodKeys(k) && TableOk(k, b) && y in Flat(b) && Equal(k, y, e)
    ensures y in b[BucketOf(k, |b|, e)]
  {
    InFlat(b, y);
    var i :| 0 <= i < |b| && y in b[i];
    assert BucketOk(k, b, i);
  }

  // ---------- Putting in and taking out ----------

  function Pushed<T>(b: seq<seq<T>>, i: nat, x: T): seq<seq<T>>
    requires i < |b|
  {
    b[i := [x] + b[i]]
  }

  lemma PushedHas<T>(b: seq<seq<T>>, i: nat, x: T, y: T)
    requires i < |b|
    ensures y in Flat(Pushed(b, i, x)) <==> y in Flat(b) || y == x
  {
    var c := Pushed(b, i, x);
    InFlat(b, y);
    InFlat(c, y);
    assert y in c[i] <==> y in b[i] || y == x;
    if y in Flat(b) {
      var m :| 0 <= m < |b| && y in b[m];
      assert y in c[m];
    }
  }

  /** Pushing a new element where it belongs keeps the table well-formed. */
  lemma PushedOk<T(!new)>(k: Keys<T>, b: seq<seq<T>>, x: T)
    requires GoodKeys(k) && TableOk(k, b) && forall y | y in Flat(b) :: !Equal(k, y, x)
    ensures var c := Pushed(b, BucketOf(k, |b|, x), x);
      TableOk(k, c) && |Flat(c)| == |Flat(b)| + 1 && forall y :: y in Flat(c) <==> y in Flat(b) || y == x
  {
    var i := BucketOf(k, |b|, x);
    var c := Pushed(b, i, x);
    FlatLength(b, i, [x] + b[i]);
    forall y ensures y in Flat(c) <==> y in Flat(b) || y == x { PushedHas(b, i, x, y); }
    forall m | 0 <= m < |c| ensures BucketOk(k, c, m) {
      assert BucketOk(k, b, m);
      if m == i {
        forall j | 0 <= j < |b[i]| ensures !Equal(k, x, b[i][j]) {
          InFlat(b, b[i][j]);
          assert !Equal(k, b[i][j], x);
        }
      }
    }
  }

  function Pulled<T>(b: seq<seq<T>>, i: nat, j: nat): seq<seq<T>>
    requires i < |b| && j < |b[i]|
  {
    b[i := b[i][..j] + b[i][j + 1..]]
  }

  /** Taking an element out keeps the table well-formed. */
  lemma PulledOk<T(!new)>(k: Keys<T>, b: seq<seq<T>>, i: nat, j: nat)
    requires GoodKeys(k) && TableOk(k, b) && i < |b| && j < |b[i]|
    ensures var c := Pulled(b, i, j);
      TableOk(k, c) && |Flat(c)| == |Flat(b)| - 1 && forall y :: y in Flat(c) <==> y in Flat(b) && y != b[i][j]
  {
    var c, x := Pulled(b, i, j), b[i][j];
    FlatLength(b, i, c[i]);
    assert BucketOk(k, b, i);
    assert forall y | y in c[i] :: y in b[i];
    forall m | 0 <= m < |c| ensures BucketOk(k, c, m) { assert BucketOk(k, b, m); }
    assert x !in c[i] by { assert Equal(k, x, x); }
    forall y ensures y in Flat(c) <==> y in Flat(b) && y != x {
      InFlat(b, y);
      InFlat(c, y);
      PulledHas(k, b, i, j, y);
    }
  }

  lemma PulledHas<T(!new)>(k: Keys<T>, b: seq<seq<T>>, i: nat, j: nat, y: T)
    requires GoodKeys(k) && TableOk(k, b) && i < |b| && j < |b[i]| && b[i][j] !in Pulled(b, i, j)[i]
    ensures (exists m :: 0 <= m < |b| && y in Pulled(b, i, j)[m]) <==>
              (exists m :: 0 <= m < |b| && y in b[m]) && y != b[i][j]
  {
    var c, x := Pulled(b, i, j), b[i][j];
    assert y != x ==> (y in c[i] <==> y in b[i]);
    assert BucketOk(k, b, i) && x in b[i];
    forall m | 0 <= m < |b| && x in b[m] ensures m == i { assert BucketOk(k, b, m); }
    assert forall m | 0 <= m < |b| && m != i :: c[m] == b[m];
  }

  // ---------- The table ----------

  class Hash<T(!new, ==)> {
    const keys: Keys<T>
    var buckets: seq<seq<T>>
    var bucketCnt: nat
    var elemCnt: nat

    ghost predicate Valid()
      reads this
    {
      && GoodKeys(keys) && |buckets| == bucketCnt && IsPow2(bucketCnt)
      && TableOk(keys, buckets) && elemCnt == |Flat(buckets)|
    }

    /** The elements, in the order of an iteration. */
    ghost function View(): seq<T>
      reads this
    {
      Flat(buckets)
    }

    constructor (keys: Keys<T>)
      requires GoodKeys(keys)
      ensures Valid() && this.keys == keys && View() == [] && bucketCnt == 4
    {
      this.keys, buckets, bucketCnt, elemCnt := keys, [[], [], [], []], 4, 0;
      new;
      assert Pow2(2) == 4;
      EmptyBuckets(keys, buckets);
    }

    /** The position in its bucket of the element equal to e. */
    method FindElem(i: nat, e: T) returns (r: Option<nat>)
      requires Valid() && i == BucketOf(keys, bucketCnt, e)
      ensures r.Some? ==> r.value < |buckets[i]| && Equal(keys, buckets[i][r.value], e)
      ensures r.None? ==> forall y | y in View() :: !Equal(keys, y, e)
    {
      for j := 0 to |buckets[i]|
        invariant forall m | 0 <= m < j :: !Equal(keys, buckets[i][m], e)
      {
        if !keys.less(buckets[i][j], e) && !keys.less(e, buckets[i][j]) { return Some(j); }
      }
      forall y | y in View() ensures !Equal(keys, y, e) {
        if Equal(keys, y, e) { OnlyInBucket(keys, buckets, e, y); }
      }
      return None;
    }

    /** The one element equal to e, or none exactly if there is none. */
    method Find(e: T) returns (r: Option<T>)
      requires Valid()
      ensures r.None? <==> forall y | y in View() :: !Equal(keys, y, e)
      ensures r.Some? ==> r.value in View() && Equal(keys, r.value, e)
      ensures r.Some? ==> forall y | y in View() && Equal(keys, y, e) :: y == r.value
    {
      var i := BucketOf(keys, bucketCnt, e);
      var j := FindElem(i, e);
      if j.None? { return None; }
      var x := buckets[i][j.value];
      InFlat(buckets, x);
      OnlyOne(keys, buckets, x, e);
      return Some(x);
    }

    /** Changes the number of buckets to the ideal if there is memory; the
        elements stay the same. */
    method Rehash(memory: bool)
      requires Valid()
      modifies `buckets, `bucketCnt
      ensures Valid() && elemCnt == old(elemCnt) && forall y :: y in View() <==> y in old(View())
      ensures memory ==> Balanced(bucketCnt, elemCnt)
      ensures !memory ==> buckets == old(buckets)
    {
      var newCnt := elemCnt / 2;
      if newCnt < 4 { newCnt := 4; }
      newCnt := RoundDown(newCnt);
      BalancedCount(newCnt, elemCnt);
      if newCnt == bucketCnt || !memory { return; }
      buckets := Moved(newCnt);
      bucketCnt := newCnt;
    }

    // The elements of the table in cnt new buckets.
    method Moved(cnt: nat) returns (b: seq<seq<T>>)
      requires Valid() && cnt > 0
      ensures |b| == cnt && TableOk(keys, b) && |Flat(b)| == |View()| && forall y :: y in Flat(b) <==> y in View()
    {
      b := seq(cnt, _ => []);
      ghost var all := View();
      EmptyBuckets(keys, b);
      FlatUnique(keys, buckets, |buckets|);
      assert buckets[..|buckets|] == buckets;
      for i := 0 to bucketCnt
        invariant |b| == cnt && |Flat(buckets[..i])| <= |all| && Holding(keys, b, all, |Flat(buckets[..i])|)
      {
        b := MoveBucket(b, i, all);
        FlatPrefix(buckets, i);
      }
      assert all[..|all|] == all;
    }

    // Moves the elements of bucket i.
    method MoveBucket(b0: seq<seq<T>>, i: nat, ghost all: seq<T>) returns (b: seq<seq<T>>)
      requires Valid() && i < |buckets| && all == View() && Unique(keys, all)
      requires |Flat(buckets[..i])| <= |all| && Holding(keys, b0, all, |Flat(buckets[..i])|)
      ensures |b| == |b0| && |Flat(buckets[..i])| + |buckets[i]| <= |all|
      ensures Holding(keys, b, all, |Flat(buckets[..i])| + |buckets[i]|)
    {
      b := b0;
      ghost var m := |Flat(buckets[..i])|;
      for j := 0 to |buckets[i]|
        invariant |b| == |b0| && m + j <= |all| && Holding(keys, b, all, m + j)
      {
        FlatIndex(buckets, i, j);
        var x := buckets[i][j];
        HoldingMore(keys, b, all, m + j);
        b := Pushed(b, BucketOf(keys, |b|, x), x);
      }
    }

    /** Inserts x unless an equal element is there, which is returned. */
    method Insert(x: T, memory: bool) returns (r: Option<T>)
      requires Valid()
      modifies `buckets, `bucketCnt, `elemCnt
      ensures Valid()
      ensures r.Some? ==> r.value in old(View()) && Equal(keys, r.value, x) && elemCnt == old(elemCnt)
      ensures r.None? ==> (forall y | y in old(View()) :: !Equal(keys, y, x)) && elemCnt == old(elemCnt) + 1
      ensures forall y :: y in View() <==> y in old(View()) || (r.None? && y == x)
      ensures memory ==> Balanced(bucketCnt, elemCnt)
    {
      var i := BucketOf(keys, bucketCnt, x);
      var j := FindElem(i, x);
      if j.None? {
        r := None;
        PushedOk(keys, buckets, x);
        elemCnt := elemCnt + 1;
        buckets := Pushed(buckets, i, x);
      } else {
        r := Some(buckets[i][j.value]);
        InFlat(buckets, r.value);
      }
      Rehash(memory);
    }

    /** Inserts x in the place of an equal element, which is returned. */
    method Replace(x: T, memory: bool) returns (r: Option<T>)
      requires Valid()
      modifies `buckets, `bucketCnt, `elemCnt
      ensures Valid()
      ensures r.Some? ==> r.value in old(View()) && Equal(keys, r.value, x) && elemCnt == old(elemCnt)
      ensures r.None? ==> (forall y | y in old(View()) :: !Equal(keys, y, x)) && elemCnt == old(elemCnt) + 1
      ensures forall y :: y in View() <==> y == x || (y in old(View()) && r != Some(y))
      ensures memory ==> Balanced(bucketCnt, elemCnt)
    {
      var i := BucketOf(keys, bucketCnt, x);
      var j := FindElem(i, x);
      r := None;
      if j.Some? {
        r := Some(buckets[i][j.value]);
        TakeOut(i, j.value, x);
      }
      PushedOk(keys, buckets, x);
      elemCnt := elemCnt + 1;
      buckets := Pushed(buckets, i, x);
      Rehash(memory);
    }

    // Takes out the element equal to e; then there is none.
    method TakeOut(i: nat, j: nat, ghost e: T)
      requires Valid() && i < |buckets| && j < |buckets[i]| && Equal(keys, buckets[i][j], e)
      modifies `buckets, `elemCnt
      ensures Valid() && |buckets| == |old(buckets)| && elemCnt == old(elemCnt) - 1
      ensures old(buckets)[i][j] in old(View())
      ensures forall y :: y in View() <==> y in old(View()) && y != old(buckets)[i][j]
      ensures forall y | y in View() :: !Equal(keys, y, e)
    {
      var x := buckets[i][j];
      PulledOk(keys, buckets, i, j);
      InFlat(buckets, x);
      OnlyOne(keys, buckets, x, e);
      elemCnt := elemCnt - 1;
      buckets := Pulled(buckets, i, j);
    }

    /** Removes and returns the element equal to e. */
    method Delete(e: T, memory: bool) returns (r: Option<T>)
      requires Valid()
      modifies `buckets, `bucketCnt, `elemCnt
      ensures Valid()
      ensures r.None? <==> forall y | y in old(View()) :: !Equal(keys, y, e)
      ensures r.Some? ==> r.value in old(View()) && Equal(keys, r.value, e)
      ensures forall y :: y in View() <==> y in old(View()) && r != Some(y)
      ensures elemCnt == old(elemCnt) - if r.Some? then 1 else 0
      ensures r.Some? && memory ==> Balanced(bucketCnt, elemCnt)
    {
      var i := BucketOf(keys, bucketCnt, e);
      var j := FindElem(i, e);
      if j.None? { return None; }
      r := Some(buckets[i][j.value]);
      TakeOut(i, j.value, e);
      Rehash(memory);
    }
  }

  /** At most one element of a table is equal to e. */
  lemma OnlyOne<T(!new)>(k: Keys<T>, b: seq<seq<T>>, x: T, e: T)
    requires GoodKeys(k) && TableOk(k, b) && x in Flat(b) && Equal(k, x, e)
    ensures forall y | y in Flat(b) && Equal(k, y, e) :: y == x
  {
    FlatUnique(k, b, |b|);
    assert b[..|b|] == b;
    forall y | y in Flat(b) && Equal(k, y, e) ensures y == x {
      var i :| 0 <= i < |Flat(b)| && Flat(b)[i] == x;
      var j :| 0 <= j < |Flat(b)| && Flat(b)[j] == y;
      assert Equal(k, e, y) && Equal(k, e, x);
      assert Equal(k, x, y) && Equal(k, y, x);
    }
  }

  /** Between two and four elements for each bucket, unless there are only four
      buckets. */
  ghost predicate Balanced(cnt: nat, elems: nat) {
    IsPow2(cnt) && cnt >= 4 && elems < 4 * cnt && (cnt == 4 || 2 * cnt <= elems)
  }

  lemma BalancedCount(cnt: nat, elems: nat)
    requires IsPow2(cnt) && var want := if elems / 2 < 4 then 4 else elems / 2; cnt <= want < 2 * cnt
    ensures Balanced(cnt, elems)
  {
    var k: nat :| cnt == Pow2(k);
    assert Pow2(0) == 1 && Pow2(1) == 2 && Pow2(2) == 4;
    if k > 2 { assert Pow2(k) >= 4; }
  }

  /** The table b holds the first m of all elements. */
  ghost predicate Holding<T(!new)>(k: Keys<T>, b: seq<seq<T>>, all: seq<T>, m: nat)
    requires m <= |all|
  {
    TableOk(k, b) && |Flat(b)| == m && forall y :: y in Flat(b) <==> y in all[..m]
  }

  lemma EmptyBuckets<T>(k: Keys<T>, b: seq<seq<T>>)
    requires |b| > 0 && forall i | 0 <= i < |b| :: b[i] == []
    ensures TableOk(k, b) && Flat(b) == []
  {
    forall x ensures x !in Flat(b) { InFlat(b, x); }
    NoMembers(Flat(b));
  }

  lemma HoldingMore<T(!new)>(k: Keys<T>, b: seq<seq<T>>, all: seq<T>, m: nat)
    requires GoodKeys(k) && Unique(k, all) && m < |all| && Holding(k, b, all, m)
    ensures Holding(k, Pushed(b, BucketOf(k, |b|, all[m]), all[m]), all, m + 1)
  {
    forall y | y in Flat(b) ensures !Equal(k, y, all[m]) {
      var i :| 0 <= i < m && all[i] == y;
      assert !Equal(k, all[i], all[m]);
    }
    PushedOk(k, b, all[m]);
    assert all[..m + 1] == all[..m] + [all[m]];
  }

  // ---------- Iteration ----------

  /** A place in a table: at element `at` of a bucket, or at its head when `at`
      is -1. */
  class Cursor<T(!new, ==)> {
    const hash: Hash<T>
    var bucket: nat
    var at: int

    /** How many elements have been passed. */
    ghost function Passed(): int
      reads this, hash
      requires bucket < |hash.buckets|
    {
      |Flat(hash.buckets[..bucket])| + at + 1
    }

    ghost predicate Valid()
      reads this, hash
    {
      hash.Valid() && bucket < |hash.buckets| && -1 <= at < |hash.buckets[bucket]|
    }

    constructor First(hash: Hash<T>)
      requires hash.Valid()
      ensures Valid() && this.hash == hash && Passed() == 0
    {
      this.hash, bucket, at := hash, 0, -1;
    }

    /** Moves on to the next element; none is left exactly if all have been passed. */
    method Next() returns (r: Option<T>)
      requires Valid()
      modifies this
      ensures hash.Valid() && 0 <= old(Passed()) <= |hash.View()|
      ensures r.None? <==> old(Passed()) == |hash.View()|
      ensures r.Some? ==> Valid() && Passed() == old(Passed()) + 1 && r.value == hash.View()[old(Passed())]
    {
      ghost var b := hash.buckets;
      at := at + 1;
      PassedBound(b, bucket, at);
      while at == |hash.buckets[bucket]|
        invariant bucket < |b| && 0 <= at <= |b[bucket]| && hash.buckets == b
        invariant |Flat(b[..bucket])| + at == old(Passed()) <= |Flat(b)|
        decreases |b| - bucket
      {
        FlatPrefix(b, bucket);
        bucket := bucket + 1;
        if bucket >= hash.bucketCnt {
          assert b[..bucket] == b;
          return None;
        }
        at := 0;
      }
      FlatIndex(b, bucket, at);
      return Some(hash.buckets[bucket][at]);
    }
  }

  lemma PassedBound<T>(b: seq<seq<T>>, i: nat, j: nat)
    requires i < |b| && j <= |b[i]|
    ensures |Flat(b[..i])| + j <= |Flat(b)|
  {
    if j > 0 { FlatIndex(b, i, j - 1); } else { PrefixBound(b, i); }
  }

  lemma {:induction false} PrefixBound<T>(b: seq<seq<T>>, i: nat)
    requires i <= |b|
    ensures |Flat(b[..i])| <= |Flat(b)|
  {
    if i < |b| {
      PrefixBound(b[..|b| - 1], i);
      assert b[..|b| - 1][..i] == b[..i];
    } else {
      assert b[..i] == b;
    }
  }

  /** Iterating from the first to the last gives every element exactly once. */
  method Collect<T(!new, ==)>(h: Hash<T>) returns (s: seq<T>)
    requires h.Valid()
    ensures s == h.View() && Unique(h.keys, s)
  {
    s := [];
    var i := new Cursor.First(h);
    var x := i.Next();
    while x.Some?
      invariant x.Some? ==> i.Valid() && i.hash == h && i.Passed() == |s| + 1 <= |h.View()|
      invariant x.Some? ==> x.value == h.View()[|s|]
      invariant |s| <= |h.View()| && s == h.View()[..|s|]
      invariant x.None? ==> |s| == |h.View()|
      decreases |h.View()| - |s|, x
    {
      s := s + [x.value];
      x := i.Next();
    }
    ViewUnique(h);
  }

  lemma ViewUnique<T(!new)>(h: Hash<T>)
    requires h.Valid()
    ensures Unique(h.keys, h.View())
  {
    FlatUnique(h.keys, h.buckets, |h.buckets|);
    assert h.buckets[..|h.buckets|] == h.buckets;
  }
}
