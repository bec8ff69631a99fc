/**
 * How `AssocMulti` (lib/Basics/AssocMulti.h) spreads its contents over its buckets: the
 * bucket count is a power of two, a key lives in the bucket `hashKey(key) & _bucketsMask`,
 * and every public operation only looks at that one bucket. The lemmas here show that this
 * sharding is invisible: each operation on the key's bucket does to the whole contents what
 * the single-table specification in `AssocMultiSpec` says.
 */
module AssocMultiShards {
  import opened Common
  import opened AssocMultiTable
  import Spec = AssocMultiSpec

  /** 2 to the power `ex`. */
  function Pow2(ex: nat): (r: nat)
    ensures 0 < r
  {
    if ex == 0 then 1 else 2 * Pow2(ex - 1)
  }

  /** The bitwise and `a & b` of two non-negative integers, taken bit by bit from the lowest. */
  function BitAnd(a: nat, b: nat): (r: nat)
    ensures r <= b
    decreases a
  {
    if a == 0 || b == 0 then 0
    else 2 * BitAnd(a / 2, b / 2) + (if a % 2 == 1 && b % 2 == 1 then 1 else 0)
  }

  /** Division with remainder has only one answer. */
  lemma DivModUnique(x: nat, d: nat, q: nat, r: nat)
    requires 0 < d && x == d * q + r && r < d
    ensures x / d == q && x % d == r
  {
    var q', r' := x / d, x % d;
    assert x == d * q' + r';
    if q' < q {
      MulStep(d, q', q);
    } else if q < q' {
      MulStep(d, q, q');
    }
  }

  /** Multiples of `d` are at least `d` apart. */
  lemma MulStep(d: nat, a: nat, b: nat)
    requires a < b
    ensures d * a + d <= d * b
  {
    var n := b - a - 1;
    assert d * b == d * a + d + d * n;
  }

  /** The remainder by `2 * p` from the halved number's remainder by `p` and the lowest bit. */
  lemma ModDouble(x: nat, p: nat)
    requires 0 < p
    ensures x % (2 * p) == 2 * ((x / 2) % p) + x % 2
  {
    var a, b := (x / 2) / p, (x / 2) % p;
    assert x / 2 == p * a + b;
    assert x == (2 * p) * a + (2 * b + x % 2);
    DivModUnique(x, 2 * p, a, 2 * b + x % 2);
  }

  /** Masking with `2^ex - 1`, as `_bucketsMask` does, keeps the remainder by `2^ex`. */
  lemma {:induction false} AndLowMask(x: nat, ex: nat)
    ensures BitAnd(x, Pow2(ex) - 1) == x % Pow2(ex)
  {
    if ex == 0 {
      assert Pow2(ex) - 1 == 0;
    } else if x != 0 {
      var p := Pow2(ex - 1);
      AndLowMask(x / 2, ex - 1);
      AndStep(x, p, Pow2(ex) - 1);
      assert Pow2(ex) == 2 * p;
    }
  }

  /** One step of `AndLowMask`: from the halved number to the number itself. */
  lemma AndStep(x: nat, p: nat, mask: nat)
    requires 0 < x && 0 < p && mask + 1 == 2 * p && BitAnd(x / 2, p - 1) == (x / 2) % p
    ensures BitAnd(x, mask) == x % (2 * p)
  {
    HalveOdd(p - 1);
    var bit := if x % 2 == 1 then 1 else 0;
    assert BitAnd(x, mask) == 2 * BitAnd(x / 2, mask / 2) + (if x % 2 == 1 && mask % 2 == 1 then 1 else 0);
    assert BitAnd(x, mask) == 2 * ((x / 2) % p) + bit;
    ModDouble(x, p);
  }

  /** Halving an odd number drops its lowest bit. */
  lemma HalveOdd(n: nat)
    ensures (2 * n + 1) / 2 == n && (2 * n + 1) % 2 == 1
  {
  }

  /** The bucket of key `k` among `mask + 1` buckets: `hashKey(k) & _bucketsMask`. */
  function Route<E, I, K>(h: Hasher<E, I, K>, k: K, mask: nat): (r: nat)
    ensures r <= mask
  {
    BitAnd(h.hashKey(k) as nat, mask)
  }

  /** The part of the contents `M` that bucket `i` holds: the keys routed to it. */
  ghost function Part<E, I, K>(M: map<K, seq<E>>, h: Hasher<E, I, K>, mask: nat, i: nat): (r: map<K, seq<E>>)
    ensures forall k :: k in r ==> k in M && Route(h, k, mask) == i && r[k] == M[k]
    ensures forall k :: k in M && Route(h, k, mask) == i ==> k in r
  {
    map k | k in M && Route(h, k, mask) == i :: M[k]
  }

  /** The total number of elements of the contents `M`, over all keys. */
  ghost function Count<E, K>(M: map<K, seq<E>>): nat
    decreases |M|
  {
    if M == map[] then 0
    else
      var k :| k in M;
      |M[k]| + Count(M - {k})
  }

  /** `Count` may take the keys in any order: any key's elements can be counted first. */
  lemma {:induction false} CountRemove<E, K>(M: map<K, seq<E>>, k: K)
    requires k in M
    ensures Count(M) == |M[k]| + Count(M - {k})
    decreases |M|
  {
    var k' :| k' in M && Count(M) == |M[k']| + Count(M - {k'});
    if k' != k {
      var M' := M - {k'};
      assert k in M' && |M' - {k}| < |M|;
      CountRemove(M', k);
      var M'' := M - {k};
      assert k' in M'' && |M''| < |M|;
      CountRemove(M'', k');
      assert M' - {k} == M'' - {k'};
    }
  }

  /** Replacing the elements of one key changes the count by the difference in their number. */
  lemma CountUpdate<E, K>(M: map<K, seq<E>>, k: K, v: seq<E>)
    ensures k in M ==> Count(M[k := v]) + |M[k]| == Count(M) + |v|
    ensures k !in M ==> Count(M[k := v]) == Count(M) + |v|
  {
    CountRemove(M[k := v], k);
    assert M[k := v] - {k} == M - {k};
    if k in M {
      CountRemove(M, k);
    } else {
      assert M - {k} == M;
    }
  }

  /** `insert` adds one element exactly when it returns no stored element. */
  lemma InsertCount<E, I, K>(M: map<K, seq<E>>, h: Hasher<E, I, K>, e: E, overwrite: bool)
    requires Spec.ContentsOk(M, h)
    ensures Count(Spec.Insert(M, h, e, overwrite).0) == Count(M) + (if Spec.Insert(M, h, e, overwrite).1.None? then 1 else 0)
  {
    var k := KeyOf(h, e);
    if k !in M {
      CountUpdate(M, k, [e]);
    } else {
      match Spec.FindId(M[k], h, h.idOf(e))
      case Some(m) =>
        if overwrite {
          CountUpdate(M, k, M[k][m := e]);
        }
      case None =>
        CountUpdate(M, k, [M[k][0], e] + M[k][1..]);
    }
  }

  /** `remove` takes away one element exactly when it returns one. */
  lemma RemoveCount<E, I, K>(M: map<K, seq<E>>, h: Hasher<E, I, K>, e: E)
    ensures Count(Spec.Remove(M, h, e).0) + (if Spec.Remove(M, h, e).1.Some? then 1 else 0) == Count(M)
  {
    var k := KeyOf(h, e);
    if k in M {
      match Spec.FindId(M[k], h, h.idOf(e))
      case Some(m) =>
        if |M[k]| == 1 {
          CountRemove(M, k);
        } else {
          CountUpdate(M, k, M[k][..m] + M[k][m + 1..]);
        }
      case None =>
    }
  }

  /** The sum of the counts of buckets `0 .. n - 1`: the loop of `size()`. */
  ghost function SumParts<E, I, K>(M: map<K, seq<E>>, h: Hasher<E, I, K>, mask: nat, n: nat): nat
  {
    if n == 0 then 0 else SumParts(M, h, mask, n - 1) + Count(Part(M, h, mask, n - 1))
  }

  /** Taking a key `k` out of the contents takes its elements out of the sum over the buckets that include its own. */
  lemma {:induction false} SumPartsDrop<E, I, K>(M: map<K, seq<E>>, h: Hasher<E, I, K>, mask: nat, k: K, n: nat)
    requires k in M
    ensures SumParts(M, h, mask, n) == SumParts(M - {k}, h, mask, n) + (if Route(h, k, mask) < n then |M[k]| else 0)
  {
    if n != 0 {
      var i := n - 1;
      var M' := M - {k};
      SumPartsDrop(M, h, mask, k, i);
      PartDrop(M, h, mask, k, i);
      assert SumParts(M, h, mask, n) == SumParts(M, h, mask, i) + Count(Part(M, h, mask, i));
      assert SumParts(M', h, mask, n) == SumParts(M', h, mask, i) + Count(Part(M', h, mask, i));
    }
  }

  /** Taking a key `k` out of the contents takes its elements out of its own bucket only. */
  lemma PartDrop<E, I, K>(M: map<K, seq<E>>, h: Hasher<E, I, K>, mask: nat, k: K, i: nat)
    requires k in M
    ensures Count(Part(M, h, mask, i)) == Count(Part(M - {k}, h, mask, i)) + (if Route(h, k, mask) == i then |M[k]| else 0)
  {
    var A, B := Part(M, h, mask, i), Part(M - {k}, h, mask, i);
    if Route(h, k, mask) == i {
      SameMap(B, A - {k});
      CountRemove(A, k);
    } else {
      SameMap(A, B);
    }
  }

  /** `size()`: adding up the counts of all buckets counts every element of the contents once. */
  lemma {:induction false} PartitionCount<E, I, K>(M: map<K, seq<E>>, h: Hasher<E, I, K>, mask: nat)
    ensures SumParts(M, h, mask, mask + 1) == Count(M)
    decreases |M|
  {
    if M == map[] {
      EmptyParts(h, mask, mask + 1);
    } else {
      var k :| k in M;
      PartitionCount(M - {k}, h, mask);
      PartitionStep(M, h, mask, k);
    }
  }

  /** The step of `PartitionCount`: the sum over the buckets grows with the contents by the elements of `k`. */
  lemma PartitionStep<E, I, K>(M: map<K, seq<E>>, h: Hasher<E, I, K>, mask: nat, k: K)
    requires k in M && SumParts(M - {k}, h, mask, mask + 1) == Count(M - {k})
    ensures SumParts(M, h, mask, mask + 1) == Count(M)
  {
    assert Route(h, k, mask) < mask + 1;
    SumPartsDrop(M, h, mask, k, mask + 1);
    CountRemove(M, k);
  }

  /** Every bucket of empty contents counts nothing. */
  lemma {:induction false} EmptyParts<E, I, K>(h: Hasher<E, I, K>, mask: nat, n: nat)
    ensures SumParts(map[], h, mask, n) == 0
  {
    if n != 0 {
      EmptyParts(h, mask, n - 1);
      assert Part(map[], h, mask, n - 1) == map[];
    }
  }

  /** Each bucket of well-formed contents is well formed. */
  lemma PartOk<E, I, K>(M: map<K, seq<E>>, h: Hasher<E, I, K>, mask: nat, i: nat)
    requires Spec.ContentsOk(M, h)
    ensures Spec.ContentsOk(Part(M, h, mask, i), h)
  {
  }

  /** Contents are well formed when all of their buckets are. */
  lemma PartsOk<E, I, K>(M: map<K, seq<E>>, h: Hasher<E, I, K>, mask: nat)
    requires forall i :: 0 <= i <= mask ==> Spec.ContentsOk(Part(M, h, mask, i), h)
    ensures Spec.ContentsOk(M, h)
  {
    forall k | k in M
      ensures 0 < |M[k]| && (forall m :: 0 <= m < |M[k]| ==> KeyOf(h, M[k][m]) == k) && Spec.IdsUnique(M[k], h)
    {
      var P := Part(M, h, mask, Route(h, k, mask));
      assert k in P && P[k] == M[k];
    }
  }

  /** `lookup` in the bucket of `e`'s key finds what a lookup in the whole contents finds. */
  lemma PartLookup<E, I, K>(M: map<K, seq<E>>, h: Hasher<E, I, K>, mask: nat, e: E)
    ensures Spec.Lookup(Part(M, h, mask, Route(h, KeyOf(h, e), mask)), h, e) == Spec.Lookup(M, h, e)
  {
  }

  /** `lookupByKey` in the bucket of `k` returns what the whole contents hold for `k`. */
  lemma PartByKey<E, I, K>(M: map<K, seq<E>>, h: Hasher<E, I, K>, mask: nat, k: K, limit: nat)
    ensures Spec.ByKey(Part(M, h, mask, Route(h, k, mask)), k, limit) == Spec.ByKey(M, k, limit)
  {
  }

  /** `lookupWithElementByKeyContinue` in the bucket of `e`'s key continues as in the whole contents. */
  lemma PartContinue<E, I, K>(M: map<K, seq<E>>, h: Hasher<E, I, K>, mask: nat, e: E, limit: nat)
    requires Spec.ContentsOk(M, h)
    ensures Spec.ContentsOk(Part(M, h, mask, Route(h, KeyOf(h, e), mask)), h)
    ensures Spec.Continue(Part(M, h, mask, Route(h, KeyOf(h, e), mask)), h, e, limit) == Spec.Continue(M, h, e, limit)
  {
  }

  /** `insert` into the bucket of `e`'s key is `insert` into the whole contents, seen from that bucket. */
  lemma PartInsert<E, I, K>(M: map<K, seq<E>>, h: Hasher<E, I, K>, mask: nat, e: E, overwrite: bool)
    requires Spec.ContentsOk(M, h)
    ensures Spec.ContentsOk(Part(M, h, mask, Route(h, KeyOf(h, e), mask)), h)
    ensures Spec.Insert(Part(M, h, mask, Route(h, KeyOf(h, e), mask)), h, e, overwrite)
         == (Part(Spec.Insert(M, h, e, overwrite).0, h, mask, Route(h, KeyOf(h, e), mask)), Spec.Insert(M, h, e, overwrite).1)
  {
    var i := Route(h, KeyOf(h, e), mask);
    var A, B := Part(M, h, mask, i), Part(Spec.Insert(M, h, e, overwrite).0, h, mask, i);
    assert Spec.Insert(A, h, e, overwrite).0 == B by {
      SameMap(Spec.Insert(A, h, e, overwrite).0, B);
    }
  }

  /** `remove` from the bucket of `e`'s key is `remove` from the whole contents, seen from that bucket. */
  lemma PartRemove<E, I, K>(M: map<K, seq<E>>, h: Hasher<E, I, K>, mask: nat, e: E)
    ensures Spec.Remove(Part(M, h, mask, Route(h, KeyOf(h, e), mask)), h, e)
         == (Part(Spec.Remove(M, h, e).0, h, mask, Route(h, KeyOf(h, e), mask)), Spec.Remove(M, h, e).1)
  {
    var i := Route(h, KeyOf(h, e), mask);
    var A, B := Part(M, h, mask, i), Part(Spec.Remove(M, h, e).0, h, mask, i);
    assert Spec.Remove(A, h, e).0 == B by {
      SameMap(Spec.Remove(A, h, e).0, B);
    }
  }

  /** A change confined to the elements of key `k` leaves every other bucket as it was. */
  lemma PartOther<E, I, K>(M: map<K, seq<E>>, M': map<K, seq<E>>, h: Hasher<E, I, K>, mask: nat, k: K, i: nat)
    requires forall k' :: k' != k ==> (k' in M' <==> k' in M) && (k' in M ==> M'[k'] == M[k'])
    requires i != Route(h, k, mask)
    ensures Part(M', h, mask, i) == Part(M, h, mask, i)
  {
    SameMap(Part(M', h, mask, i), Part(M, h, mask, i));
  }

  /** `remove` keeps the contents well formed. */
  lemma RemoveContentsOk<E, I, K>(M: map<K, seq<E>>, h: Hasher<E, I, K>, e: E)
    requires Spec.ContentsOk(M, h)
    ensures Spec.ContentsOk(Spec.Remove(M, h, e).0, h)
  {
    var k := KeyOf(h, e);
    if k in M {
      match Spec.FindId(M[k], h, h.idOf(e))
      case Some(m) =>
        if |M[k]| != 1 {
          var s := M[k];
          var s' := s[..m] + s[m + 1..];
          assert forall t :: 0 <= t < |s'| ==> s'[t] == s[if t < m then t else t + 1];
          assert 0 < |s'| && forall t :: 0 <= t < |s'| ==> KeyOf(h, s'[t]) == k;
          assert Spec.IdsUnique(s', h);
        }
      case None =>
    }
  }

  /** `insert` and `remove` change only the elements of the key of the element they are given. */
  lemma OnlyKeyChanges<E, I, K>(M: map<K, seq<E>>, h: Hasher<E, I, K>, e: E, overwrite: bool, k': K)
    requires Spec.ContentsOk(M, h) && k' != KeyOf(h, e)
    ensures k' in Spec.Insert(M, h, e, overwrite).0 <==> k' in M
    ensures k' in M ==> Spec.Insert(M, h, e, overwrite).0[k'] == M[k']
    ensures k' in Spec.Remove(M, h, e).0 <==> k' in M
    ensures k' in M ==> Spec.Remove(M, h, e).0[k'] == M[k']
  {
  }

  /** The buckets `ps` split the contents `M`: bucket `i` holds the keys of `M` routed to it. */
  ghost predicate Split<E, I, K>(M: map<K, seq<E>>, h: Hasher<E, I, K>, mask: nat, ps: seq<map<K, seq<E>>>)
  {
    |ps| == mask + 1 && forall i :: 0 <= i < |ps| ==> ps[i] == Part(M, h, mask, i)
  }

  /** Empty buckets split empty contents. */
  lemma SplitEmpty<E, I, K>(h: Hasher<E, I, K>, mask: nat, ps: seq<map<K, seq<E>>>)
    requires |ps| == mask + 1 && forall i :: 0 <= i < |ps| ==> ps[i] == map[]
    ensures Split(map[], h, mask, ps)
  {
    forall i | 0 <= i < |ps|
      ensures ps[i] == Part(map[], h, mask, i)
    {
      SameMap(ps[i], Part(map[], h, mask, i));
    }
  }

  /**
   * `insert` on split contents: the bucket of `e`'s key sees the same lookup and returns the
   * same result as the whole contents would, and once it has inserted, the buckets split
   * the new contents.
   */
  lemma SplitInsert<E, I, K>(M: map<K, seq<E>>, h: Hasher<E, I, K>, mask: nat, ps: seq<map<K, seq<E>>>, e: E, overwrite: bool)
    requires Spec.ContentsOk(M, h) && Split(M, h, mask, ps)
    ensures Spec.ContentsOk(ps[Route(h, KeyOf(h, e), mask)], h)
    ensures Spec.Lookup(ps[Route(h, KeyOf(h, e), mask)], h, e) == Spec.Lookup(M, h, e)
    ensures Spec.Insert(ps[Route(h, KeyOf(h, e), mask)], h, e, overwrite).1 == Spec.Insert(M, h, e, overwrite).1
    ensures Spec.ContentsOk(Spec.Insert(M, h, e, overwrite).0, h)
    ensures Split(Spec.Insert(M, h, e, overwrite).0, h, mask,
                  ps[Route(h, KeyOf(h, e), mask) := Spec.Insert(ps[Route(h, KeyOf(h, e), mask)], h, e, overwrite).0])
  {
    var k := KeyOf(h, e);
    var i := Route(h, k, mask);
    var M' := Spec.Insert(M, h, e, overwrite).0;
    PartLookup(M, h, mask, e);
    PartInsert(M, h, mask, e, overwrite);
    Spec.InsertContentsOk(M, h, e, overwrite);
    forall k' | k' != k
      ensures (k' in M' <==> k' in M) && (k' in M ==> M'[k'] == M[k'])
    {
      OnlyKeyChanges(M, h, e, overwrite, k');
    }
    forall j | 0 <= j < |ps| && j != i
      ensures Part(M', h, mask, j) == Part(M, h, mask, j)
    {
      PartOther(M, M', h, mask, k, j);
    }
  }

  /**
   * `remove` on split contents: the bucket of `e`'s key returns the same result as the whole
   * contents would, and once it has removed, the buckets split the new contents.
   */
  lemma SplitRemove<E, I, K>(M: map<K, seq<E>>, h: Hasher<E, I, K>, mask: nat, ps: seq<map<K, seq<E>>>, e: E)
    requires Spec.ContentsOk(M, h) && Split(M, h, mask, ps)
    ensures Spec.Remove(ps[Route(h, KeyOf(h, e), mask)], h, e).1 == Spec.Remove(M, h, e).1
    ensures Spec.ContentsOk(Spec.Remove(M, h, e).0, h)
    ensures Split(Spec.Remove(M, h, e).0, h, mask,
                  ps[Route(h, KeyOf(h, e), mask) := Spec.Remove(ps[Route(h, KeyOf(h, e), mask)], h, e).0])
  {
    var k := KeyOf(h, e);
    var i := Route(h, k, mask);
    var M' := Spec.Remove(M, h, e).0;
    PartRemove(M, h, mask, e);
    RemoveContentsOk(M, h, e);
    forall k' | k' != k
      ensures (k' in M' <==> k' in M) && (k' in M ==> M'[k'] == M[k'])
    {
      OnlyKeyChanges(M, h, e, false, k');
    }
    forall j | 0 <= j < |ps| && j != i
      ensures Part(M', h, mask, j) == Part(M, h, mask, j)
    {
      PartOther(M, M', h, mask, k, j);
    }
  }
}
