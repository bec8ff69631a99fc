/**
 * `AssocMulti` (lib/Basics/AssocMulti.h): a multi-map from keys to elements, spread over a
 * power-of-two number of buckets. An element goes into the bucket `hashKey(key) & _bucketsMask`
 * of its key, and every public operation hands its work to that one bucket.
 *
 * The ghost map `contents` is what the whole container holds; bucket `i` holds exactly the
 * keys of `contents` that are routed to it, so each operation is specified on `contents`
 * by the single-table functions of `AssocMultiSpec`.
 */
module AssocMulti {
  import opened Common
  import opened AssocMultiTable
  import opened AssocMultiShards
  import opened AssocMultiBucket
  import Spec = AssocMultiSpec

  /** The results of `resize` modelled here: `TRI_ERROR_NO_ERROR` and `TRI_ERROR_BAD_PARAMETER`. */
  datatype Status = NoError | BadParameter

  /** `size /= _buckets.size()` in `resize`: the share of each of `n` buckets, rounded down. */
  function PerBucket(size: nat, n: nat): (r: nat)
    requires 0 < n
    ensures r * n <= size < r * n + n
  {
    size / n
  }

  /** The test of `resize`: a bucket of `used` elements is too full for `2 * size + 1` slots. */
  predicate TooSmall(size: nat, used: nat)
  {
    2 * (2 * size + 1) < 3 * used
  }

  /** A new size that passes the test of `resize` leaves room for every element and a free slot. */
  lemma ResizeRoom(size: nat, used: nat)
    requires !TooSmall(size, used)
    ensures used < 2 * size + 1
  {
  }

  /** Multiplying by a larger factor gives a larger product. */
  lemma MulLe(a: nat, b: nat, c: nat)
    requires a <= b
    ensures a * c <= b * c
  {
    var d := b - a;
    assert b * c == a * c + d * c;
  }

  /** Doubling one factor of a product may be done on either. */
  lemma MulDouble(a: nat, c: nat)
    ensures a * (2 * c) == (2 * a) * c
  {
  }

  /**
   * The bucket count the constructor makes of `numberBuckets`: it shifts `numberBuckets`
   * right until nothing is left, doubling `nr` from 1 at every shift but the first, which
   * gives the largest power of two not above `numberBuckets`, and 1 when it is 0.
   */
  method BucketCount(numberBuckets: nat) returns (nr: nat, ghost ex: nat)
    ensures nr == Pow2(ex)
    ensures numberBuckets < 2 * nr
    ensures 0 < numberBuckets ==> nr <= numberBuckets
    ensures numberBuckets == 0 ==> nr == 1
  {
    var rest := numberBuckets / 2;
    nr := 1;
    ex := 0;
    while rest > 0
      invariant nr == Pow2(ex)
      invariant rest * (2 * nr) <= numberBuckets < (rest + 1) * (2 * nr)
      invariant nr == 1 || nr <= numberBuckets
      decreases rest
    {
      MulLe(1, rest, 2 * nr);
      var half := rest / 2;
      MulLe(2 * half, rest, 2 * nr);
      MulLe(rest + 1, 2 * half + 2, 2 * nr);
      MulDouble(half, 2 * nr);
      MulDouble(half + 1, 2 * nr);
      rest := half;
      nr := 2 * nr;
      ex := ex + 1;
    }
  }

  /** Bucket `b` is well formed, holds `P` and counts its elements right. */
  ghost predicate Holds<E, I, K>(b: Bucket<E, I, K>, h: Hasher<E, I, K>, P: map<K, seq<E>>)
    reads b, b.table
  {
    b.Valid(h) && b.Contents(h) == P && b.nrUsed == Count(P)
  }

  /** The part an element's key routes to may take it: it is well formed, and holds no equal element when the whole does not. */
  lemma InsertablePart<E, I, K>(M: map<K, seq<E>>, h: Hasher<E, I, K>, mask: nat, ps: seq<map<K, seq<E>>>, e: E, checkEquality: bool)
    requires Spec.ContentsOk(M, h) && Split(M, h, mask, ps)
    requires !checkEquality ==> Spec.Lookup(M, h, e).None?
    ensures Route(h, KeyOf(h, e), mask) < |ps|
    ensures Spec.ContentsOk(ps[Route(h, KeyOf(h, e), mask)], h)
    ensures !checkEquality ==> Spec.Lookup(ps[Route(h, KeyOf(h, e), mask)], h, e).None?
  {
    var i := Route(h, KeyOf(h, e), mask);
    assert ps[i] == Part(M, h, mask, i);
    PartOk(M, h, mask, i);
    PartLookup(M, h, mask, e);
  }

  /** `insert` into one bucket holding `P`: it then holds `P'`, what a single table would. */
  method InsertInto<E, I(==), K(==)>(b: Bucket<E, I, K>, h: Hasher<E, I, K>, nearPrime: nat -> nat, ghost P: map<K, seq<E>>,
                                     e: E, overwrite: bool, checkEquality: bool) returns (prior: Option<E>, ghost P': map<K, seq<E>>)
    requires Holds(b, h, P) && forall n :: nearPrime(n) >= n
    requires !checkEquality ==> Spec.Lookup(P, h, e).None?
    modifies b, b.table
    ensures Spec.ContentsOk(P, h)
    ensures Holds(b, h, P') && (P', prior) == Spec.Insert(P, h, e, overwrite)
    ensures b.nrAlloc == GrownAlloc(old(b.nrAlloc), old(b.nrUsed), nearPrime)
    ensures b.table == old(b.table) || fresh(b.table)
  {
    prior := b.Insert(h, e, overwrite, checkEquality, nearPrime);
    P' := b.Contents(h);
    InsertCount(P, h, e, overwrite);
  }

  /** `remove` from one bucket holding `P`: it then holds `P'`, what a single table would. */
  method RemoveFrom<E, I(==), K(==)>(b: Bucket<E, I, K>, h: Hasher<E, I, K>, ghost P: map<K, seq<E>>, e: E)
    returns (r: Option<E>, ghost P': map<K, seq<E>>)
    requires Holds(b, h, P)
    modifies b, b.table
    ensures Holds(b, h, P') && (P', r) == Spec.Remove(P, h, e)
    ensures b.table == old(b.table)
  {
    r := b.Remove(h, e);
    P' := b.Contents(h);
    RemoveCount(P, h, e);
  }

  /** `resizeInternal` on one bucket holding `P`: it holds the same in a new table of `nearPrime(size)` slots. */
  method ResizeIn<E, I(==), K(==)>(b: Bucket<E, I, K>, h: Hasher<E, I, K>, nearPrime: nat -> nat, ghost P: map<K, seq<E>>, size: nat)
    requires Holds(b, h, P) && b.nrUsed < nearPrime(size)
    modifies b
    ensures Holds(b, h, P) && fresh(b.table) && b.nrAlloc == nearPrime(size)
  {
    b.ResizeInternal(h, size, nearPrime);
  }

  /** Adding a member changes no set. */
  lemma Absorbed<T>(S: set<T>, x: T)
    requires x in S
    ensures S + {x} == S
  {
  }

  /** The buckets of the constructor: `nr` of them, distinct, with distinct tables of `initialSize` free slots. */
  method NewBuckets<E, I(==), K(==)>(h: Hasher<E, I, K>, nr: nat, initialSize: nat) returns (bs: seq<Bucket<E, I, K>>, ghost R: set<object>)
    requires 0 < initialSize
    ensures |bs| == nr && fresh(R) && Built(h, initialSize, bs, R)
  {
    bs, R := [], {};
    while |bs| < nr
      invariant |bs| <= nr && fresh(R) && Built(h, initialSize, bs, R)
    {
      bs, R := AddBucket(h, initialSize, bs, R);
    }
  }

  /**
   * The buckets `bs` are distinct, have distinct tables, all of them in `R`, and are empty
   * with `initialSize` free slots.
   */
  ghost predicate Built<E, I, K>(h: Hasher<E, I, K>, initialSize: nat, bs: seq<Bucket<E, I, K>>, R: set<object>)
    reads set i | 0 <= i < |bs| :: bs[i]
    reads set i | 0 <= i < |bs| :: bs[i].table
  {
    && (forall i :: 0 <= i < |bs| ==> bs[i] in R && bs[i].table in R)
    && (forall i, j :: 0 <= i < j < |bs| ==> bs[i] != bs[j] && bs[i].table != bs[j].table)
    && (forall i :: 0 <= i < |bs| ==> Holds(bs[i], h, map[]) && bs[i].nrAlloc == initialSize)
  }

  /** One more bucket for the constructor, distinct from the buckets `bs` and their tables. */
  method AddBucket<E, I(==), K(==)>(h: Hasher<E, I, K>, initialSize: nat, bs: seq<Bucket<E, I, K>>, ghost R: set<object>)
    returns (bs': seq<Bucket<E, I, K>>, ghost R': set<object>)
    requires 0 < initialSize && Built(h, initialSize, bs, R)
    ensures |bs'| == |bs| + 1 && fresh(R' - R) && Built(h, initialSize, bs', R')
  {
    var b := new Bucket(initialSize, h);
    assert Built(h, initialSize, bs, R);
    BuiltAppend(h, initialSize, bs, R, b);
    bs', R' := bs + [b], R + {b, b.table};
  }

  /** Appending an empty bucket of `initialSize` slots, fresh with its table, keeps the buckets built. */
  lemma BuiltAppend<E, I, K>(h: Hasher<E, I, K>, initialSize: nat, bs: seq<Bucket<E, I, K>>, R: set<object>, b: Bucket<E, I, K>)
    requires Built(h, initialSize, bs, R) && Holds(b, h, map[]) && b.nrAlloc == initialSize
    requires b !in R && b.table !in R
    ensures Built(h, initialSize, bs + [b], R + {b, b.table})
  {
    var bs' := bs + [b];
    forall i | 0 <= i < |bs'|
      ensures bs'[i] in R + {b, b.table} && bs'[i].table in R + {b, b.table}
      ensures Holds(bs'[i], h, map[]) && bs'[i].nrAlloc == initialSize
    {
      if i < |bs| {
        assert bs'[i] == bs[i];
      }
    }
    forall i, j | 0 <= i < j < |bs'|
      ensures bs'[i] != bs'[j] && bs'[i].table != bs'[j].table
    {
      assert bs'[i] == bs[i] && bs[i] in R && bs[i].table in R;
    }
  }

  class AssocMulti<E, I(==), K(==)> {
    const h: Hasher<E, I, K>
    const nearPrime: nat -> nat
    const buckets: seq<Bucket<E, I, K>>
    const bucketsMask: nat
    ghost const ex: nat
    ghost var contents: map<K, seq<E>>
    ghost var parts: seq<map<K, seq<E>>>
    ghost var Repr: set<object>

    /**
     * The buckets are a power of two in number, distinct, with distinct tables, and bucket
     * `i` holds `parts[i]`, the keys of `contents` routed to it.
     */
    ghost predicate Valid()
      reads this, Repr
    {
      && 0 < |buckets| == Pow2(ex) && bucketsMask + 1 == |buckets|
      && (forall n :: nearPrime(n) >= n)
      && Spec.ContentsOk(contents, h) && Split(contents, h, bucketsMask, parts)
      && |parts| == |buckets| && Owned() && AllHold()
    }

    /** The buckets are distinct and have distinct tables, all of them in `Repr`, which does not hold the container. */
    ghost predicate Owned()
      reads this`Repr, Repr
    {
      OwnedBy(Repr)
    }

    /** Every bucket holds its part. */
    ghost predicate AllHold()
      reads this`parts, this`Repr, Repr
      requires Owned() && |parts| == |buckets|
    {
      HoldAll(parts, Repr)
    }

    /** `Owned` for a footprint `R`. */
    ghost predicate OwnedBy(R: set<object>)
      reads R
    {
      && this !in R
      && (forall i :: 0 <= i < |buckets| ==> buckets[i] in R && buckets[i].table in R)
      && (forall i, j :: 0 <= i < j < |buckets| ==> buckets[i] != buckets[j] && buckets[i].table != buckets[j].table)
    }

    /** `AllHold` for parts `ps` and a footprint `R`. */
    ghost predicate HoldAll(ps: seq<map<K, seq<E>>>, R: set<object>)
      reads R
      requires OwnedBy(R) && |ps| == |buckets|
    {
      forall i {:trigger Holds(buckets[i], h, ps[i])} :: 0 <= i < |buckets| ==> Holds(buckets[i], h, ps[i])
    }

    /**
     * The constructor: `numberBuckets` rounded down to a power of two (at least 1) buckets,
     * each with `initialSize` free slots.
     */
    constructor (h: Hasher<E, I, K>, nearPrime: nat -> nat, numberBuckets: nat, initialSize: nat)
      requires 0 < initialSize && forall n :: nearPrime(n) >= n
      ensures Valid() && fresh(Repr) && contents == map[]
      ensures numberBuckets < 2 * |buckets| && (0 < numberBuckets ==> |buckets| <= numberBuckets)
      ensures numberBuckets == 0 ==> |buckets| == 1
      ensures forall i :: 0 <= i < |buckets| ==> buckets[i].nrAlloc == initialSize
    {
      var nr, ex0 := BucketCount(numberBuckets);
      var bs;
      ghost var R;
      bs, R := NewBuckets(h, nr, initialSize);
      ghost var ps := seq(nr, _ => map[]);
      SplitEmpty(h, nr - 1, ps);
      this.h := h;
      this.nearPrime := nearPrime;
      buckets := bs;
      bucketsMask := nr - 1;
      ex := ex0;
      contents := map[];
      parts := ps;
      Repr := R;
    }

    /** The bucket of key `k`: `hashKey(k) & _bucketsMask`, which is the hash modulo the bucket count. */
    method BucketOfKey(k: K) returns (i: nat)
      requires Valid()
      ensures i < |buckets| && i == Route(h, k, bucketsMask)
      ensures i == h.hashKey(k) as nat % |buckets|
    {
      i := BitAnd(h.hashKey(k) as nat, bucketsMask);
      AndLowMask(h.hashKey(k) as nat, ex);
    }

    /** `size()`: the number of elements stored, the sum over the buckets of `_nrUsed`. */
    method Size() returns (n: nat)
      requires Valid()
      ensures n == Count(contents)
    {
      n := 0;
      for i := 0 to |buckets|
        invariant n == SumParts(contents, h, bucketsMask, i)
      {
        assert Holds(buckets[i], h, parts[i]) && parts[i] == Part(contents, h, bucketsMask, i);
        n := n + buckets[i].nrUsed;
      }
      PartitionCount(contents, h, bucketsMask);
    }

    /** `lookup`: the stored element equal to `e`, if any. */
    method Lookup(e: E) returns (r: Option<E>)
      requires Valid()
      ensures r == Spec.Lookup(contents, h, e)
    {
      var i := BucketOfKey(KeyOf(h, e));
      assert Holds(buckets[i], h, parts[i]);
      r := buckets[i].Lookup(h, e);
      PartLookup(contents, h, bucketsMask, e);
    }

    /** `lookupByKey`: the elements with key `k`, head first, at most `limit` of them unless `limit` is 0. */
    method LookupByKey(k: K, limit: nat) returns (r: seq<E>)
      requires Valid()
      ensures r == Spec.ByKey(contents, k, limit)
    {
      var hashByKey := h.hashKey(k);
      var i := BucketOfKey(k);
      assert Holds(buckets[i], h, parts[i]);
      r := buckets[i].LookupByKey(h, k, hashByKey, limit);
      PartByKey(contents, h, bucketsMask, k, limit);
    }

    /** `lookupWithElementByKey`: the elements with the key of `e`, head first, at most `limit` of them unless `limit` is 0. */
    method LookupWithElementByKey(e: E, limit: nat) returns (r: seq<E>)
      requires Valid()
      ensures r == Spec.ByKey(contents, KeyOf(h, e), limit)
    {
      var hashByKey := HashElement(h, e, true);
      var i := BucketOfKey(KeyOf(h, e));
      assert Holds(buckets[i], h, parts[i]);
      r := buckets[i].LookupByKey(h, KeyOf(h, e), hashByKey, limit);
      PartByKey(contents, h, bucketsMask, KeyOf(h, e), limit);
    }

    /**
     * `lookupWithElementByKeyContinue` (and `lookupByKeyContinue`, which calls it): the
     * elements after `e` in its key's chain, or after the head when `e` is not stored;
     * `None` when the key is absent.
     */
    method LookupWithElementByKeyContinue(e: E, limit: nat) returns (r: Option<seq<E>>)
      requires Valid()
      ensures r == Spec.Continue(contents, h, e, limit)
    {
      var i := BucketOfKey(KeyOf(h, e));
      assert Holds(buckets[i], h, parts[i]);
      r := buckets[i].LookupContinue(h, e, limit);
      PartContinue(contents, h, bucketsMask, e, limit);
    }

    /**
     * `insert`: the element goes into the bucket of its key, which grows first when it is
     * too full; the whole contents change as a single table's would.
     */
    method Insert(e: E, overwrite: bool, checkEquality: bool) returns (prior: Option<E>)
      requires Valid()
      requires !checkEquality ==> Spec.Lookup(contents, h, e).None?
      modifies this, Repr
      ensures Valid() && fresh(Repr - old(Repr))
      ensures (contents, prior) == Spec.Insert(old(contents), h, e, overwrite)
      ensures forall j :: 0 <= j < |buckets| ==>
        buckets[j].nrAlloc == if j == Route(h, KeyOf(h, e), bucketsMask)
                              then GrownAlloc(old(buckets[j].nrAlloc), old(buckets[j].nrUsed), nearPrime) else old(buckets[j].nrAlloc)
    {
      var i := BucketOfKey(KeyOf(h, e));
      ghost var M, ps := contents, parts;
      InsertablePart(M, h, bucketsMask, ps, e, checkEquality);
      prior := InsertAt(i, e, overwrite, checkEquality);
      contents := Spec.Insert(M, h, e, overwrite).0;
      SplitInsert(M, h, bucketsMask, ps, e, overwrite);
    }

    /** `insert` in bucket `i`, which alone changes, and its part with it. */
    method InsertAt(i: nat, e: E, overwrite: bool, checkEquality: bool) returns (prior: Option<E>)
      requires |parts| == |buckets| && Owned() && AllHold() && i < |buckets| && forall n :: nearPrime(n) >= n
      requires Spec.ContentsOk(parts[i], h) && (!checkEquality ==> Spec.Lookup(parts[i], h, e).None?)
      modifies this`parts, this`Repr, Repr
      ensures |parts| == |buckets| && Owned() && AllHold() && fresh(Repr - old(Repr))
      ensures (parts[i], prior) == Spec.Insert(old(parts[i]), h, e, overwrite)
      ensures forall j :: 0 <= j < |parts| && j != i ==> parts[j] == old(parts[j])
      ensures buckets[i].nrAlloc == GrownAlloc(old(buckets[i].nrAlloc), old(buckets[i].nrUsed), nearPrime)
      ensures forall j :: 0 <= j < |buckets| && j != i ==> buckets[j].nrAlloc == old(buckets[j].nrAlloc)
    {
      ghost var P';
      prior, P' := InsertInBucket(i, e, overwrite, checkEquality);
      Repr, parts := Repr + {buckets[i].table}, parts[i := P'];
    }

    /**
     * `insert` in bucket `i`, which alone changes, possibly to a new table: it then holds `P'`,
     * and the footprint with that table added owns the buckets.
     */
    method InsertInBucket(i: nat, e: E, overwrite: bool, checkEquality: bool) returns (prior: Option<E>, ghost P': map<K, seq<E>>)
      requires |parts| == |buckets| && Owned() && AllHold() && i < |buckets| && forall n :: nearPrime(n) >= n
      requires Spec.ContentsOk(parts[i], h) && (!checkEquality ==> Spec.Lookup(parts[i], h, e).None?)
      modifies Repr
      ensures (P', prior) == Spec.Insert(parts[i], h, e, overwrite)
      ensures OwnedBy(Repr + {buckets[i].table}) && fresh((Repr + {buckets[i].table}) - Repr)
      ensures HoldAll(parts[i := P'], Repr + {buckets[i].table})
      ensures buckets[i].nrAlloc == GrownAlloc(old(buckets[i].nrAlloc), old(buckets[i].nrUsed), nearPrime)
      ensures forall j :: 0 <= j < |buckets| && j != i ==> buckets[j].nrAlloc == old(buckets[j].nrAlloc)
    {
      assert Holds(buckets[i], h, parts[i]);
      ghost var t := buckets[i].table;
      prior, P' := InsertInto(buckets[i], h, nearPrime, parts[i], e, overwrite, checkEquality);
      forall j | 0 <= j < |buckets| && j != i
        ensures buckets[j].table == old(buckets[j].table) && Holds(buckets[j], h, parts[j]) && buckets[j].nrAlloc == old(buckets[j].nrAlloc)
      {
        assert old(Holds(buckets[j], h, parts[j]));
        assert buckets[j] != buckets[i] && buckets[j].table != t;
      }
      Moved(i);
    }

    /**
     * When only bucket `i` and its former table have changed, bucket `i` still valid in its
     * former table or a new one, the buckets are owned by the footprint with its table added
     * and hold the parts with the new contents of bucket `i` in place `i`.
     */
    twostate lemma Moved(i: nat)
      requires old(|parts| == |buckets| && Owned() && AllHold()) && i < |buckets| && buckets[i].Valid(h)
      requires buckets[i].nrUsed == Count(buckets[i].Contents(h))
      requires buckets[i].table == old(buckets[i].table) || fresh(buckets[i].table)
      requires forall j :: 0 <= j < |buckets| && j != i ==> buckets[j].table == old(buckets[j].table) && Holds(buckets[j], h, old(parts[j]))
      ensures OwnedBy(old(Repr) + {buckets[i].table}) && fresh((old(Repr) + {buckets[i].table}) - old(Repr))
      ensures HoldAll(old(parts)[i := buckets[i].Contents(h)], old(Repr) + {buckets[i].table})
    {
      forall j | 0 <= j < |buckets|
        ensures Holds(buckets[j], h, old(parts)[i := buckets[i].Contents(h)][j])
      {
        if j != i {
          assert Holds(buckets[j], h, old(parts[j]));
        }
      }
    }

    /** `remove`: the stored element equal to `e` leaves the bucket of its key, and so the contents. */
    method Remove(e: E) returns (r: Option<E>)
      requires Valid()
      modifies this, Repr
      ensures Valid() && Repr == old(Repr)
      ensures (contents, r) == Spec.Remove(old(contents), h, e)
    {
      var i := BucketOfKey(KeyOf(h, e));
      ghost var M, ps := contents, parts;
      r := RemoveAt(i, e);
      contents := Spec.Remove(M, h, e).0;
      SplitRemove(M, h, bucketsMask, ps, e);
    }

    /** `remove` in bucket `i`, which alone changes, and its part with it. */
    method RemoveAt(i: nat, e: E) returns (r: Option<E>)
      requires |parts| == |buckets| && Owned() && AllHold() && i < |buckets|
      modifies this`parts, Repr
      ensures |parts| == |buckets| && Owned() && AllHold()
      ensures (parts[i], r) == Spec.Remove(old(parts[i]), h, e)
      ensures forall j :: 0 <= j < |parts| && j != i ==> parts[j] == old(parts[j])
    {
      ghost var P';
      r, P' := RemoveInBucket(i, e);
      parts := parts[i := P'];
    }

    /** `remove` in bucket `i`, which alone changes: it then holds `P'`. */
    method RemoveInBucket(i: nat, e: E) returns (r: Option<E>, ghost P': map<K, seq<E>>)
      requires |parts| == |buckets| && Owned() && AllHold() && i < |buckets|
      modifies Repr
      ensures (P', r) == Spec.Remove(parts[i], h, e)
      ensures OwnedBy(Repr) && HoldAll(parts[i := P'], Repr)
    {
      assert Holds(buckets[i], h, parts[i]);
      r, P' := RemoveFrom(buckets[i], h, parts[i], e);
      forall j | 0 <= j < |buckets| && j != i
        ensures buckets[j].table == old(buckets[j].table) && Holds(buckets[j], h, parts[j])
      {
        assert old(Holds(buckets[j], h, parts[j]));
        assert buckets[j] != buckets[i] && buckets[j].table != buckets[i].table;
      }
      Moved(i);
      Absorbed(Repr, buckets[i].table);
    }

    /** Whether buckets `0 .. i` all pass the test of `resize` for `size`. */
    ghost predicate FitsUpTo(size: nat, i: nat)
      reads this`parts
    {
      forall j :: 0 <= j <= i && j < |parts| ==> !TooSmall(size, Count(parts[j]))
    }

    /**
     * `resize`: each bucket in turn moves to a table of `nearPrime(2 * (size / |buckets|) + 1)`
     * slots, unless it holds too many elements for that size, in which case `resize` stops
     * there with `BadParameter`, leaving the buckets before it resized and the rest as they
     * were. The contents never change.
     */
    method Resize(size: nat) returns (r: Status)
      requires Valid()
      modifies this, Repr
      ensures Valid() && fresh(Repr - old(Repr)) && contents == old(contents) && parts == old(parts)
      ensures r == NoError <==> FitsUpTo(PerBucket(size, |buckets|), |buckets| - 1)
      ensures forall j :: 0 <= j < |buckets| ==>
        buckets[j].nrAlloc == if FitsUpTo(PerBucket(size, |buckets|), j) then nearPrime(2 * PerBucket(size, |buckets|) + 1) else old(buckets[j].nrAlloc)
    {
      r := ResizeAll(PerBucket(size, |buckets|));
    }

    /** The loop of `resize` over the buckets, each resized for `size` elements in turn. */
    method ResizeAll(size: nat) returns (r: Status)
      requires 0 < |parts| == |buckets| && Owned() && AllHold() && forall n :: nearPrime(n) >= n
      modifies this`Repr, Repr
      ensures |parts| == |buckets| && Owned() && AllHold() && fresh(Repr - old(Repr))
      ensures r == NoError <==> FitsUpTo(size, |buckets| - 1)
      ensures forall j :: 0 <= j < |buckets| ==>
        buckets[j].nrAlloc == if FitsUpTo(size, j) then nearPrime(2 * size + 1) else old(buckets[j].nrAlloc)
    {
      ghost var np := nearPrime(2 * size + 1);
      var i := 0;
      while i < |buckets|
        invariant i <= |buckets|
        invariant |parts| == |buckets| && Owned() && AllHold() && fresh(Repr - old(Repr))
        invariant forall j :: 0 <= j < i ==> FitsUpTo(size, j)
        invariant forall j :: 0 <= j < |buckets| ==> buckets[j].nrAlloc == if j < i then np else old(buckets[j].nrAlloc)
      {
        var fits := ResizeStep(size, i);
        if !fits {
          NoFit(size, i);
          forall j | 0 <= j < |buckets|
            ensures buckets[j].nrAlloc == if FitsUpTo(size, j) then np else old(buckets[j].nrAlloc)
          {
            if j < i {
              assert FitsUpTo(size, j);
            }
          }
          return BadParameter;
        }
        FitsStep(size, i);
        i := i + 1;
      }
      forall j | 0 <= j < |buckets|
        ensures FitsUpTo(size, j) && buckets[j].nrAlloc == np
      {
        assert FitsUpTo(size, j);
      }
      return NoError;
    }

    /**
     * The turn of bucket `i` in `resize`: when it passes the test for `size` it moves to a
     * table of `nearPrime(2 * size + 1)` slots, and otherwise nothing changes.
     */
    method ResizeStep(size: nat, i: nat) returns (fits: bool)
      requires |parts| == |buckets| && Owned() && AllHold() && i < |buckets| && forall n :: nearPrime(n) >= n
      modifies this`Repr, Repr
      ensures |parts| == |buckets| && Owned() && AllHold() && fresh(Repr - old(Repr))
      ensures fits == !TooSmall(size, Count(parts[i]))
      ensures forall j :: 0 <= j < |buckets| ==>
        buckets[j].nrAlloc == if fits && j == i then nearPrime(2 * size + 1) else old(buckets[j].nrAlloc)
    {
      assert Holds(buckets[i], h, parts[i]);
      fits := !TooSmall(size, buckets[i].nrUsed);
      if fits {
        ResizeRoom(size, buckets[i].nrUsed);
        ResizeBucket(i, 2 * size + 1);
      }
    }

    /** Bucket `i` passing the test of `resize` extends a range of passing buckets before it. */
    lemma FitsStep(size: nat, i: nat)
      requires i < |parts| && !TooSmall(size, Count(parts[i]))
      requires forall j :: 0 <= j < i ==> FitsUpTo(size, j)
      ensures FitsUpTo(size, i)
    {
      if 0 < i {
        assert FitsUpTo(size, i - 1);
      }
    }

    /** Once bucket `i` fails the test of `resize`, every range of buckets reaching it fails too. */
    lemma NoFit(size: nat, i: nat)
      requires i < |parts| && TooSmall(size, Count(parts[i]))
      ensures forall j :: i <= j ==> !FitsUpTo(size, j)
    {
    }

    /** `resizeInternal` on bucket `i`: it alone moves to a new table of `nearPrime(size)` slots. */
    method ResizeBucket(i: nat, size: nat)
      requires |parts| == |buckets| && Owned() && AllHold() && i < |buckets| && buckets[i].nrUsed < size
      requires forall n :: nearPrime(n) >= n
      modifies this`Repr, Repr
      ensures Owned() && AllHold() && fresh(Repr - old(Repr))
      ensures forall j :: 0 <= j < |buckets| ==> buckets[j].nrAlloc == if j == i then nearPrime(size) else old(buckets[j].nrAlloc)
    {
      ResizeInBucket(i, size);
      Repr := Repr + {buckets[i].table};
    }

    /**
     * `resizeInternal` on bucket `i`, which alone changes, to a new table: it still holds its
     * part, and the footprint with that table added owns the buckets.
     */
    method ResizeInBucket(i: nat, size: nat)
      requires |parts| == |buckets| && Owned() && AllHold() && i < |buckets| && buckets[i].nrUsed < size
      requires forall n :: nearPrime(n) >= n
      modifies Repr
      ensures OwnedBy(Repr + {buckets[i].table}) && fresh((Repr + {buckets[i].table}) - Repr)
      ensures HoldAll(parts, Repr + {buckets[i].table})
      ensures buckets[i].nrAlloc == nearPrime(size)
      ensures forall j :: 0 <= j < |buckets| && j != i ==> buckets[j].nrAlloc == old(buckets[j].nrAlloc)
    {
      assert Holds(buckets[i], h, parts[i]);
      ResizeIn(buckets[i], h, nearPrime, parts[i], size);
      forall j | 0 <= j < |buckets| && j != i
        ensures buckets[j].table == old(buckets[j].table) && Holds(buckets[j], h, parts[j]) && buckets[j].nrAlloc == old(buckets[j].nrAlloc)
      {
        assert old(Holds(buckets[j], h, parts[j]));
        assert buckets[j] != buckets[i];
      }
      Moved(i);
      assert parts[i := buckets[i].Contents(h)] == parts;
    }
  }
}
