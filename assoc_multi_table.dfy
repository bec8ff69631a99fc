/**
 * The slot table of one bucket of `AssocMulti` (lib/Basics/AssocMulti.h): its entries, the
 * cyclic probe arithmetic, and the structural invariant that the header's debugging
 * routine `check()` spells out, stated over a sequence of entries.
 *
 * The user's callbacks are modelled consistently: an element has an identity
 * (`isEqualElementElement` compares identities), an identity determines a key
 * (`isEqualElementElementByKey` and `isEqualKeyElement` compare keys), and the two
 * hash callbacks hash the key and the identity.
 */
module AssocMultiTable {
  import opened Common

  /**
   * One slot: the cached hash (the key hash for the head of a chain, the element hash for
   * the other members), the stored element (`None` for a free slot, the source's
   * `nullptr`) and the chain links (`None` for `INVALID_INDEX`).
   */
  datatype Entry<E> = Entry(hashCache: uint64, ptr: Option<E>, next: Option<nat>, prev: Option<nat>)

  /** The callbacks of the table, in the consistent form described above. */
  datatype Hasher<!E, !I, !K> = Hasher(idOf: E -> I, keyOf: I -> K, hashKey: K -> uint64, hashId: I -> uint64)

  /** The key of an element. */
  function KeyOf<E, I, K>(h: Hasher<E, I, K>, e: E): K
  {
    h.keyOf(h.idOf(e))
  }

  /** `_hashElement(element, byKey)`: the key hash or the identity hash of an element. */
  function HashElement<E, I, K>(h: Hasher<E, I, K>, e: E, byKey: bool): uint64
  {
    if byKey then h.hashKey(KeyOf(h, e)) else h.hashId(h.idOf(e))
  }

  /** The contents `invalidateEntry` writes into a slot. */
  function FreeEntry<E>(): Entry<E>
  {
    Entry(0, None, None, None)
  }

  /** `incr`: the next slot index, wrapping around at the table size `n`. */
  function Incr(i: nat, n: nat): (r: nat)
    requires i < n
    ensures r < n
  {
    if i + 1 < n then i + 1 else 0
  }

  /** The number of `incr` steps from slot `a` to slot `b` in a table of `n` slots. */
  function Dist(a: nat, b: nat, n: nat): (d: nat)
    requires a < n && b < n
    ensures d < n
  {
    if a <= b then b - a else b + n - a
  }

  /** The home slot of a hash: `hashToIndex(hash) % _nrAlloc`, `hashToIndex` being the identity for 64-bit indices. */
  function Home(hash: uint64, n: nat): (r: nat)
    requires 0 < n
    ensures r < n
  {
    hash as int % n
  }

  /**
   * `isBetween`: whether `x` comes after `from` and no later than `to` in the cyclic order;
   * always true when `from` and `to` coincide, and otherwise false for `x == from`.
   */
  function IsBetween(from: nat, x: nat, to: nat): (r: bool)
    ensures from == to ==> r
    ensures from != to && x == from ==> !r
  {
    if from < to then from < x && x <= to else x > from || x <= to
  }

  /** One `incr` step moves one slot further away from any start slot, except that the last step wraps back to it. */
  lemma IncrDist(a: nat, i: nat, n: nat)
    requires a < n && i < n
    ensures Dist(a, i, n) + 1 < n ==> Dist(a, Incr(i, n), n) == Dist(a, i, n) + 1
    ensures Dist(a, i, n) + 1 == n ==> Incr(i, n) == a
  {
  }

  /** Distances from a start slot identify the slot. */
  lemma DistInjective(a: nat, x: nat, y: nat, n: nat)
    requires a < n && x < n && y < n
    ensures Dist(a, x, n) == Dist(a, y, n) <==> x == y
  {
  }

  /** Distances add up along the cycle as long as the sum stays below one full turn. */
  lemma DistAdd(a: nat, b: nat, c: nat, n: nat)
    requires a < n && b < n && c < n
    ensures Dist(a, b, n) + Dist(b, c, n) < n ==> Dist(a, c, n) == Dist(a, b, n) + Dist(b, c, n)
    ensures Dist(a, b, n) + Dist(b, c, n) >= n ==> Dist(a, c, n) == Dist(a, b, n) + Dist(b, c, n) - n
  {
  }

  /**
   * `isBetween(from, x, to)` for distinct `from` and `to` holds exactly when `x` lies
   * strictly after `from` and at most as far from it as `to` is.
   */
  lemma IsBetweenDist(from: nat, x: nat, to: nat, n: nat)
    requires from < n && x < n && to < n && from != to
    ensures IsBetween(from, x, to) <==> 0 < Dist(from, x, n) <= Dist(from, to, n)
  {
  }

  /** Whether slot `x` holds an element. */
  predicate Used<E>(T: seq<Entry<E>>, x: int)
  {
    0 <= x < |T| && T[x].ptr.Some?
  }

  /** The identity of the element in slot `x`. */
  function IdAt<E, I, K>(T: seq<Entry<E>>, h: Hasher<E, I, K>, x: int): I
    requires Used(T, x)
  {
    h.idOf(T[x].ptr.value)
  }

  /** The key of the element in slot `x`. */
  function KeyAt<E, I, K>(T: seq<Entry<E>>, h: Hasher<E, I, K>, x: int): K
    requires Used(T, x)
  {
    KeyOf(h, T[x].ptr.value)
  }

  /** The set of occupied slots; `_nrUsed` counts it. */
  ghost function Occupied<E>(T: seq<Entry<E>>): set<nat>
  {
    set x: nat | x < |T| && T[x].ptr.Some?
  }

  /** No slot is listed twice. */
  ghost predicate Distinct(cs: seq<nat>)
  {
    forall a, b :: 0 <= a < b < |cs| ==> cs[a] != cs[b]
  }

  /**
   * `cs` lists the slots of the chain of key `k`, head first: every slot holds an element
   * with key `k`, the head has no predecessor and caches the key hash, every other member
   * caches its element hash, and the `prev`/`next` links follow the list exactly.
   */
  ghost predicate ChainOk<E, I, K>(T: seq<Entry<E>>, cs: seq<nat>, k: K, h: Hasher<E, I, K>)
  {
    && 0 < |cs|
    && (forall m :: 0 <= m < |cs| ==> Used(T, cs[m]) && KeyAt(T, h, cs[m]) == k)
    && Distinct(cs)
    && T[cs[0]].prev == None && T[cs[0]].hashCache == h.hashKey(k)
    && (forall m :: 0 < m < |cs| ==>
          T[cs[m]].prev == Some(cs[m - 1]) && T[cs[m]].hashCache == HashElement(h, T[cs[m]].ptr.value, false))
    && (forall m :: 0 <= m < |cs| - 1 ==> T[cs[m]].next == Some(cs[m + 1]))
    && T[cs[|cs| - 1]].next == None
  }

  /** `ChainOk` from its parts. */
  lemma ChainOkIntro<E, I, K>(T: seq<Entry<E>>, cs: seq<nat>, k: K, h: Hasher<E, I, K>)
    requires 0 < |cs|
    requires forall m :: 0 <= m < |cs| ==> Used(T, cs[m]) && KeyAt(T, h, cs[m]) == k
    requires forall m :: 0 <= m < |cs| ==> cs[m] < |T| && T[cs[m]].ptr.Some?
    requires && Distinct(cs)
             && T[cs[0]].prev == None && T[cs[0]].hashCache == h.hashKey(k)
             && (forall m :: 0 < m < |cs| ==>
                   T[cs[m]].prev == Some(cs[m - 1]) && T[cs[m]].hashCache == HashElement(h, T[cs[m]].ptr.value, false))
             && (forall m :: 0 <= m < |cs| - 1 ==> T[cs[m]].next == Some(cs[m + 1]))
             && T[cs[|cs| - 1]].next == None
    ensures ChainOk(T, cs, k, h)
  {
  }

  /** Every chain of `S` is well formed. */
  ghost predicate ChainsOk<E, I, K>(T: seq<Entry<E>>, S: map<K, seq<nat>>, h: Hasher<E, I, K>)
  {
    forall k {:trigger S[k]} :: k in S ==> ChainOk(T, S[k], k, h)
  }

  /** Every occupied slot belongs to the chain of its element's key. */
  ghost predicate Covered<E, I, K>(T: seq<Entry<E>>, S: map<K, seq<nat>>, h: Hasher<E, I, K>)
  {
    forall x :: Used(T, x) ==> KeyAt(T, h, x) in S && x in S[KeyAt(T, h, x)]
  }

  /** No two occupied slots hold equal elements. */
  ghost predicate UniqueIds<E, I, K>(T: seq<Entry<E>>, h: Hasher<E, I, K>)
  {
    forall x, y {:trigger IdAt(T, h, x), IdAt(T, h, y)} ::
      Used(T, x) && Used(T, y) && IdAt(T, h, x) == IdAt(T, h, y) ==> x == y
  }

  /** Every slot from the start slot `s` up to, but not including, slot `x` is occupied, except perhaps the slot `hole`. */
  ghost predicate RunUsed<E>(T: seq<Entry<E>>, s: nat, x: nat, hole: int)
    requires s < |T| && x < |T|
  {
    forall y {:trigger Dist(s, y, |T|)} :: 0 <= y < |T| && Dist(s, y, |T|) < Dist(s, x, |T|) ==> Used(T, y) || y == hole
  }

  /** The home slot of the element in slot `x`, computed from its cached hash. */
  function HomeOf<E>(T: seq<Entry<E>>, x: nat): nat
    requires x < |T|
  {
    Home(T[x].hashCache, |T|)
  }

  /** Every element can be reached by probing from its home slot without meeting a free slot other than `hole`. */
  ghost predicate Reachable<E>(T: seq<Entry<E>>, hole: int)
    requires 0 < |T|
  {
    forall x :: Used(T, x) ==> RunUsed(T, HomeOf(T, x), x, hole)
  }

  /**
   * The invariant of a bucket (what `check(true, true)` accepts): the chains of `S` are
   * well formed and cover the occupied slots, elements are unique, and every element is
   * reachable from its home slot.
   */
  ghost predicate TableOk<E, I, K>(T: seq<Entry<E>>, S: map<K, seq<nat>>, h: Hasher<E, I, K>)
  {
    && 0 < |T|
    && ChainsOk(T, S, h)
    && Covered(T, S, h)
    && UniqueIds(T, h)
    && Reachable(T, -1)
  }

  /** The elements held by the slots `cs`, in order. */
  ghost function Chain<E>(T: seq<Entry<E>>, cs: seq<nat>): (r: seq<E>)
    requires forall m :: 0 <= m < |cs| ==> Used(T, cs[m])
    ensures |r| == |cs|
  {
    seq(|cs|, m requires 0 <= m < |cs| && Used(T, cs[m]) => T[cs[m]].ptr.value)
  }

  /** Two maps with the same keys and the same value at each key are equal. */
  lemma SameMap<K, V>(A: map<K, V>, B: map<K, V>)
    requires A.Keys == B.Keys && forall k :: k in A ==> A[k] == B[k]
    ensures A == B
  {
  }

  /** Updating a key to the value it has changes nothing. */
  lemma SameUpdate<K, V>(M: map<K, V>, k: K, v: V)
    requires k in M && M[k] == v
    ensures M[k := v] == M
  {
  }

  /** The contents of a bucket: for each key present, the elements of its chain, head first. */
  ghost function Elems<E, I, K>(T: seq<Entry<E>>, S: map<K, seq<nat>>, h: Hasher<E, I, K>): map<K, seq<E>>
    requires ChainsOk(T, S, h)
  {
    map k | k in S :: Chain(T, S[k])
  }
}
