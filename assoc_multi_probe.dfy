/**
 * The probe loops of `AssocMulti` (lib/Basics/AssocMulti.h): the search for the head of a
 * key's chain (`insert`, `insertFurther`, `lookupByKey`, `lookupByElement`, ...), the search
 * for an element or its place (`findElementPlace`), and what their results say about the
 * contents of the bucket.
 */
module AssocMultiProbe {
  import opened Common
  import opened AssocMultiTable
  import opened AssocMultiSteps
  import opened AssocMultiHeal
  import opened AssocMultiSpec

  /** Whether slot `y` stops the head probe for key `k`: a chain head caching the key hash whose element has key `k`. */
  ghost predicate IsHeadOf<E, I, K>(T: seq<Entry<E>>, h: Hasher<E, I, K>, k: K, y: nat)
    requires Used(T, y)
  {
    T[y].prev.None? && T[y].hashCache == h.hashKey(k) && KeyAt(T, h, y) == k
  }

  /** Every slot the head probe from `s` passed before reaching `i` is occupied and is not the head of `k`. */
  ghost predicate HeadProbed<E, I, K>(T: seq<Entry<E>>, h: Hasher<E, I, K>, k: K, s: nat, i: nat)
    requires s < |T| && i < |T|
  {
    forall y {:trigger Dist(s, y, |T|)} :: 0 <= y < |T| && Dist(s, y, |T|) < Dist(s, i, |T|) ==> Used(T, y) && !IsHeadOf(T, h, k, y)
  }

  /** Whether slot `y` stops `findElementPlace` for `e`: equality checking is on and it holds `e`'s equal, caching `e`'s hash. */
  ghost predicate IsPlaceOf<E, I, K>(T: seq<Entry<E>>, h: Hasher<E, I, K>, e: E, checkEquality: bool, y: nat)
    requires Used(T, y)
  {
    checkEquality && T[y].hashCache == HashElement(h, e, false) && IdAt(T, h, y) == h.idOf(e)
  }

  /** Every slot `findElementPlace` passed from `s` before reaching `i` is occupied and does not stop it. */
  ghost predicate ElemProbed<E, I, K>(T: seq<Entry<E>>, h: Hasher<E, I, K>, e: E, checkEquality: bool, s: nat, i: nat)
    requires s < |T| && i < |T|
  {
    forall y {:trigger Dist(s, y, |T|)} :: 0 <= y < |T| && Dist(s, y, |T|) < Dist(s, i, |T|) ==> Used(T, y) && !IsPlaceOf(T, h, e, checkEquality, y)
  }

  /** A probe that has not yet passed an occupied slot `x` reachable from its start is standing on an occupied slot. */
  lemma ProbeMeets<E>(T: seq<Entry<E>>, s: nat, i: nat, x: nat)
    requires s < |T| && i < |T| && Used(T, x)
    requires RunUsed(T, s, x, -1) && Dist(s, i, |T|) <= Dist(s, x, |T|)
    ensures Used(T, i)
  {
    DistInjective(s, i, x, |T|);
  }

  /** One step of a probe over an occupied slot, while a free slot `e` lies ahead. */
  lemma ProbeStep<E>(T: seq<Entry<E>>, s: nat, i: nat, e: nat)
    requires s < |T| && i < |T| && e < |T| && Used(T, i) && !Used(T, e)
    requires Dist(s, i, |T|) <= Dist(s, e, |T|)
    ensures Dist(s, Incr(i, |T|), |T|) == Dist(s, i, |T|) + 1 <= Dist(s, e, |T|)
    ensures forall y :: 0 <= y < |T| && Dist(s, y, |T|) < Dist(s, Incr(i, |T|), |T|) ==> Dist(s, y, |T|) < Dist(s, i, |T|) || y == i
  {
    DistInjective(s, i, e, |T|);
    IncrDist(s, i, |T|);
    forall y | 0 <= y < |T| && Dist(s, y, |T|) < Dist(s, Incr(i, |T|), |T|)
      ensures Dist(s, y, |T|) < Dist(s, i, |T|) || y == i
    {
      DistInjective(s, i, y, |T|);
    }
  }

  /**
   * Where the head probe for key `k` stops: at the head of `k`'s chain when `k` is present,
   * otherwise at a free slot reached over occupied slots only.
   */
  lemma HeadProbeExit<E, I, K>(T: seq<Entry<E>>, S: map<K, seq<nat>>, h: Hasher<E, I, K>, k: K, i: nat)
    requires TableOk(T, S, h) && i < |T|
    requires HeadProbed(T, h, k, Home(h.hashKey(k), |T|), i)
    requires Used(T, i) ==> IsHeadOf(T, h, k, i)
    ensures Used(T, i) <==> k in S
    ensures Used(T, i) ==> i == S[k][0]
    ensures RunUsed(T, Home(h.hashKey(k), |T|), i, -1)
  {
    var s := Home(h.hashKey(k), |T|);
    if Used(T, i) {
      ChainSlot(T, S, h, i);
    }
    if k in S {
      HeadReached(T, S, h, k);
      var x := S[k][0];
      assert !(Dist(s, x, |T|) < Dist(s, i, |T|)) by {
        assert IsHeadOf(T, h, k, x);
      }
      ProbeMeets(T, s, i, x);
      HeadReached(T, S, h, k);
    }
  }

  /**
   * Where `findElementPlace` stops: at the stored element equal to `e`, caching its hash,
   * or at a free slot when no chain member other than a head is equal to `e`.
   */
  lemma ElemProbeExit<E, I, K>(T: seq<Entry<E>>, S: map<K, seq<nat>>, h: Hasher<E, I, K>, e: E, checkEquality: bool, i: nat)
    requires TableOk(T, S, h) && i < |T|
    requires !checkEquality ==> forall y :: Used(T, y) ==> IdAt(T, h, y) != h.idOf(e)
    requires ElemProbed(T, h, e, checkEquality, Home(HashElement(h, e, false), |T|), i)
    requires Used(T, i) ==> IsPlaceOf(T, h, e, checkEquality, i)
    ensures RunUsed(T, Home(HashElement(h, e, false), |T|), i, -1)
    ensures Used(T, i) ==> IdAt(T, h, i) == h.idOf(e) && T[i].hashCache == HashElement(h, e, false)
    ensures !Used(T, i) ==> forall y :: Used(T, y) && T[y].prev.Some? ==> IdAt(T, h, y) != h.idOf(e)
  {
    var s := Home(HashElement(h, e, false), |T|);
    forall y | checkEquality && Used(T, y) && T[y].prev.Some? && IdAt(T, h, y) == h.idOf(e)
      ensures Used(T, i)
    {
      MemberReached(T, S, h, y);
      assert !(Dist(s, y, |T|) < Dist(s, i, |T|)) by {
        assert IsPlaceOf(T, h, e, checkEquality, y);
      }
      ProbeMeets(T, s, i, y);
    }
  }

  /**
   * `lookupByElement` finding nothing: the head of `e`'s key is not equal to `e`, and no
   * other chain member is, so nothing stored is.
   */
  lemma NotStored<E, I, K>(T: seq<Entry<E>>, S: map<K, seq<nat>>, h: Hasher<E, I, K>, e: E)
    requires TableOk(T, S, h) && KeyOf(h, e) in S && IdAt(T, h, S[KeyOf(h, e)][0]) != h.idOf(e)
    requires forall y :: Used(T, y) && T[y].prev.Some? ==> IdAt(T, h, y) != h.idOf(e)
    ensures forall y :: Used(T, y) ==> IdAt(T, h, y) != h.idOf(e)
  {
    HeadReached(T, S, h, KeyOf(h, e));
  }

  /** A key that is absent has no stored element equal to an element with that key. */
  lemma AbsentKey<E, I, K>(T: seq<Entry<E>>, S: map<K, seq<nat>>, h: Hasher<E, I, K>, e: E)
    requires TableOk(T, S, h) && KeyOf(h, e) !in S
    ensures forall y :: Used(T, y) ==> IdAt(T, h, y) != h.idOf(e)
  {
    KeyAbsent(T, S, h, KeyOf(h, e));
  }

  /** The position of an occupied slot in its chain, and the element there. */
  lemma SlotIndex<E, I, K>(T: seq<Entry<E>>, S: map<K, seq<nat>>, h: Hasher<E, I, K>, x: nat) returns (m: nat)
    requires TableOk(T, S, h) && Used(T, x)
    ensures KeyAt(T, h, x) in S && m < |S[KeyAt(T, h, x)]| && S[KeyAt(T, h, x)][m] == x
    ensures Elems(T, S, h)[KeyAt(T, h, x)][m] == T[x].ptr.value
    ensures m == 0 <==> T[x].prev.None?
  {
    var k := KeyAt(T, h, x);
    ChainSlot(T, S, h, x);
    assert ChainOk(T, S[k], k, h);
    m :| 0 <= m < |S[k]| && S[k][m] == x;
    assert m == 0 ==> T[x].prev.None?;
  }

  /** A stored element equal to `e` in slot `x` is what `lookup` finds. */
  lemma FoundLookup<E, I, K>(T: seq<Entry<E>>, S: map<K, seq<nat>>, h: Hasher<E, I, K>, x: nat, e: E) returns (m: nat)
    requires TableOk(T, S, h) && Used(T, x) && IdAt(T, h, x) == h.idOf(e)
    ensures KeyOf(h, e) in S && m < |S[KeyOf(h, e)]| && S[KeyOf(h, e)][m] == x
    ensures FindId(Elems(T, S, h)[KeyOf(h, e)], h, h.idOf(e)) == Some(m)
    ensures Lookup(Elems(T, S, h), h, e) == Some(T[x].ptr.value)
    ensures m == 0 <==> T[x].prev.None?
  {
    m := SlotIndex(T, S, h, x);
    var M := Elems(T, S, h);
    var k := KeyOf(h, e);
    ElemsOk(T, S, h);
    assert IdsUnique(M[k], h);
    FindIdAt(M[k], h, m);
  }

  /** When nothing stored is equal to `e`, `lookup` finds nothing. */
  lemma MissingLookup<E, I, K>(T: seq<Entry<E>>, S: map<K, seq<nat>>, h: Hasher<E, I, K>, e: E)
    requires TableOk(T, S, h)
    requires forall y :: Used(T, y) ==> IdAt(T, h, y) != h.idOf(e)
    ensures KeyOf(h, e) in S ==> FindId(Elems(T, S, h)[KeyOf(h, e)], h, h.idOf(e)).None?
    ensures Lookup(Elems(T, S, h), h, e).None?
  {
    var k := KeyOf(h, e);
    if k in S {
      assert ChainOk(T, S[k], k, h);
      ChainIds(T, S[k], k, h, e, 0);
    }
  }

  /** The elements of a chain from position `n` on are not equal to `e` when their slots hold no element equal to `e`. */
  lemma ChainIds<E, I, K>(T: seq<Entry<E>>, cs: seq<nat>, k: K, h: Hasher<E, I, K>, e: E, n: nat)
    requires ChainOk(T, cs, k, h)
    requires forall y :: Used(T, y) && (n > 0 ==> T[y].prev.Some?) ==> IdAt(T, h, y) != h.idOf(e)
    ensures forall m :: n <= m < |cs| ==> h.idOf(Chain(T, cs)[m]) != h.idOf(e)
  {
    forall m | n <= m < |cs|
      ensures h.idOf(Chain(T, cs)[m]) != h.idOf(e)
    {
      assert Used(T, cs[m]);
      LinksInRange(T, cs, k, h, m);
    }
  }

  /** In a list whose elements after the first are not equal to `id`, the search for `id` stops at the first or finds nothing. */
  lemma FindAtHead<E, I, K>(s: seq<E>, h: Hasher<E, I, K>, id: I)
    requires forall m :: 1 <= m < |s| ==> h.idOf(s[m]) != id
    ensures FindId(s, h, id) == None || FindId(s, h, id) == Some(0)
  {
  }

  /** When no chain member other than a head is equal to `e`, continuing after `e` starts after the head. */
  lemma ContinueFromHead<E, I, K>(T: seq<Entry<E>>, S: map<K, seq<nat>>, h: Hasher<E, I, K>, e: E, limit: nat)
    requires TableOk(T, S, h) && KeyOf(h, e) in S
    requires forall y :: Used(T, y) && T[y].prev.Some? ==> IdAt(T, h, y) != h.idOf(e)
    ensures ContentsOk(Elems(T, S, h), h)
    ensures Continue(Elems(T, S, h), h, e, limit) == Some(Take(Elems(T, S, h)[KeyOf(h, e)][1..], limit))
  {
    var k := KeyOf(h, e);
    ElemsOk(T, S, h);
    assert ChainOk(T, S[k], k, h);
    ChainIds(T, S[k], k, h, e, 1);
    FindAtHead(Elems(T, S, h)[k], h, h.idOf(e));
  }

  /** One step of a walk along a chain by its `next` links: the slot holds the `n`-th element, and its link says whether and where the chain goes on. */
  lemma ChainWalk<E, I, K>(T: seq<Entry<E>>, cs: seq<nat>, k: K, h: Hasher<E, I, K>, q: nat, n: nat)
    requires ChainOk(T, cs, k, h) && q <= n < |cs|
    ensures cs[n] < |T| && T[cs[n]].ptr == Some(Chain(T, cs)[n])
    ensures T[cs[n]].next.None? <==> n + 1 == |cs|
    ensures T[cs[n]].next.Some? ==> T[cs[n]].next.value == cs[n + 1] < |T|
    ensures Chain(T, cs)[q..n] + [Chain(T, cs)[n]] == Chain(T, cs)[q..n + 1]
  {
    LinksInRange(T, cs, k, h, n);
    assert Used(T, cs[n]);
  }

  /** A walk from position `q` that stopped at the chain's end or after `limit` elements collected the first `limit` elements from `q` on. */
  lemma ChainTake<E, I, K>(T: seq<Entry<E>>, S: map<K, seq<nat>>, h: Hasher<E, I, K>, k: K, q: nat, j: nat, limit: nat)
    requires TableOk(T, S, h) && k in S && q <= j <= |S[k]|
    requires j == |S[k]| || (limit != 0 && j - q == limit)
    requires limit != 0 ==> j - q <= limit
    ensures Chain(T, S[k])[q..j] == Take(Elems(T, S, h)[k][q..], limit)
  {
    var C := Elems(T, S, h)[k];
    assert C == Chain(T, S[k]);
    if j < |S[k]| {
      assert C[q..][..limit] == C[q..j];
    }
  }

  /** The head slot of each key present. */
  ghost function Heads<K>(S: map<K, seq<nat>>): set<nat>
  {
    set k | k in S && 0 < |S[k]| :: S[k][0]
  }

  /** Distinct keys have distinct heads, so there are as many heads as keys. */
  lemma HeadsCount<K>(S: map<K, seq<nat>>)
    requires forall k :: k in S ==> 0 < |S[k]|
    requires forall k, k' :: k in S && k' in S && S[k][0] == S[k'][0] ==> k == k'
    ensures |Heads(S)| == |S.Keys|
    decreases |S.Keys|
  {
    if k :| k in S {
      var S' := S - {k};
      HeadsCount(S');
      forall y | y in Heads(S)
        ensures y in Heads(S') + {S[k][0]}
      {
        var a :| a in S && 0 < |S[a]| && S[a][0] == y;
        if a != k {
          assert a in S';
        }
      }
      assert Heads(S) == Heads(S') + {S[k][0]};
      assert S[k][0] !in Heads(S');
      assert S.Keys == S'.Keys + {k};
    } else {
      assert Heads(S) == {};
      assert S.Keys == {};
    }
  }

  /**
   * Every key has its head in an occupied slot, and a chain of two or more has an occupied
   * slot that is no head: there are fewer keys than occupied slots (`_nrCollisions > 0`).
   */
  lemma FewerKeys<E, I, K>(T: seq<Entry<E>>, S: map<K, seq<nat>>, h: Hasher<E, I, K>, k: K)
    requires ChainsOk(T, S, h) && k in S && 1 < |S[k]|
    ensures |S.Keys| < |Occupied(T)|
  {
    forall a, b | a in S && b in S && S[a][0] == S[b][0]
      ensures a == b
    {
      assert ChainOk(T, S[a], a, h) && ChainOk(T, S[b], b, h);
      assert KeyAt(T, h, S[a][0]) == a && KeyAt(T, h, S[b][0]) == b;
    }
    HeadsCount(S);
    assert ChainOk(T, S[k], k, h);
    var x := S[k][1];
    assert Used(T, x) && T[x].prev.Some?;
    forall y | y in Heads(S) + {x}
      ensures y in Occupied(T)
    {
      if y != x {
        var a :| a in S && 0 < |S[a]| && S[a][0] == y;
        assert ChainOk(T, S[a], a, h);
        assert Used(T, S[a][0]);
      }
    }
    forall a | a in S
      ensures S[a][0] != x
    {
      assert ChainOk(T, S[a], a, h);
    }
    assert x !in Heads(S);
    assert Heads(S) + {x} <= Occupied(T);
    SubsetCard(Heads(S) + {x}, Occupied(T));
  }

  /** Removing a member makes a set one smaller. */
  lemma CardRemove(A: set<nat>, x: nat)
    requires x in A
    ensures |A - {x}| == |A| - 1
  {
  }

  /** A subset is no larger than its superset. */
  lemma SubsetCard(A: set<nat>, B: set<nat>)
    requires A <= B
    ensures |A| <= |B|
  {
    assert B == A + (B - A);
  }

  /** A table with at least two free slots has a free slot other than `i`. */
  lemma FreeSlotBut<E>(T: seq<Entry<E>>, i: nat) returns (e: nat)
    requires |Occupied(T)| + 1 < |T| && i < |T| && !Used(T, i)
    ensures e < |T| && !Used(T, e) && e != i
  {
    if x :| Used(T, x) {
      var T2 := T[i := T[x]];
      assert Occupied(T2) == Occupied(T) + {i};
      e := FreeSlot(T2);
      assert T2[e] == T[e];
    } else {
      e := if i == 0 then 1 else 0;
    }
  }

  /** Replacing one member of a set by a non-member keeps its size. */
  lemma SwapCard(A: set<nat>, j: nat, i: nat)
    requires j in A && i !in A
    ensures |A - {j} + {i}| == |A|
  {
    assert |A - {j}| == |A| - 1;
  }

  /** The preconditions shared by the three removal cases: slot `x` holds the element equal to `e`, and a slot is free. */
  ghost predicate RemovableAt<E, I, K>(T: seq<Entry<E>>, S: map<K, seq<nat>>, h: Hasher<E, I, K>, x: nat, e: E)
  {
    TableOk(T, S, h) && |Occupied(T)| < |T| && Used(T, x) && IdAt(T, h, x) == h.idOf(e)
  }

  /** Removing the only element of a key: the abstract removal drops the key, and the table is left holed at `x`. */
  lemma LoneRemoved<E, I, K>(T: seq<Entry<E>>, S: map<K, seq<nat>>, h: Hasher<E, I, K>, x: nat, e: E)
    requires RemovableAt(T, S, h, x, e) && T[x].prev.None? && T[x].next.None?
    ensures KeyOf(h, e) in S && |S - {KeyOf(h, e)}| == |S| - 1
    ensures Remove(Elems(T, S, h), h, e).1 == T[x].ptr
    ensures Holed(T[x := FreeEntry()], S - {KeyOf(h, e)}, h, x, Remove(Elems(T, S, h), h, e).0, |Occupied(T)| - 1)
  {
    var m := FoundLookup(T, S, h, x, e);
    LoneHoled(T, S, h, x);
    var k := KeyOf(h, e);
    assert S.Keys - {k} == (S - {k}).Keys;
  }

  /** Removing the head of a chain of two or more: the abstract removal drops the first element, the hole moves to the second slot. */
  lemma HeadRemoved<E, I, K>(T: seq<Entry<E>>, S: map<K, seq<nat>>, h: Hasher<E, I, K>, x: nat, e: E)
    requires RemovableAt(T, S, h, x, e) && T[x].prev.None? && T[x].next.Some?
    ensures KeyOf(h, e) in S && |S| < |Occupied(T)|
    ensures T[x].next.value < |T| && T[x].next.value != x && T[T[x].next.value].ptr.Some?
    ensures T[T[x].next.value].next.Some? ==> T[T[x].next.value].next.value < |T|
    ensures Remove(Elems(T, S, h), h, e).1 == T[x].ptr
    ensures var k := KeyOf(h, e);
      Holed(Promoted(T, h, x), S[k := [x] + S[k][2..]], h, T[x].next.value, Remove(Elems(T, S, h), h, e).0, |Occupied(T)| - 1)
  {
    var m := FoundLookup(T, S, h, x, e);
    HeadHoled(T, S, h, x);
    var k := KeyOf(h, e);
    FewerKeys(T, S, h, k);
    var M := Elems(T, S, h);
    assert M[k][..0] + M[k][1..] == M[k][1..];
  }

  /** Removing a later member of a chain, at position `p`: the abstract removal drops it, the table is left holed at `x`. */
  lemma MemberRemoved<E, I, K>(T: seq<Entry<E>>, S: map<K, seq<nat>>, h: Hasher<E, I, K>, x: nat, e: E) returns (p: nat)
    requires RemovableAt(T, S, h, x, e) && T[x].prev.Some?
    ensures KeyOf(h, e) in S && |S| < |Occupied(T)|
    ensures T[x].prev.value < |T| && (T[x].next.Some? ==> T[x].next.value < |T|)
    ensures Remove(Elems(T, S, h), h, e).1 == T[x].ptr
    ensures var k := KeyOf(h, e);
      && 0 < p < |S[k]| && S[k][p] == x
      && Holed(Unlinked(T, x), S[k := S[k][..p] + S[k][p + 1..]], h, x, Remove(Elems(T, S, h), h, e).0, |Occupied(T)| - 1)
  {
    p := FoundLookup(T, S, h, x, e);
    MemberHoled(T, S, h, x, p);
    var k := KeyOf(h, e);
    FewerKeys(T, S, h, k);
  }

  /** Slot `x` has neither neighbour: `remove` empties it and drops its key. */
  predicate Lone<E>(T: seq<Entry<E>>, x: nat)
    requires x < |T|
  {
    T[x].prev.None? && T[x].next.None?
  }

  /** The links around slot `x` that each branch of `remove` follows stay inside the table. */
  ghost predicate TableShape<E>(T: seq<Entry<E>>, x: nat)
  {
    && x < |T|
    && (T[x].prev.Some? ==> T[x].prev.value < |T| && (T[x].next.Some? ==> T[x].next.value < |T|))
    && (T[x].prev.None? && T[x].next.Some? ==>
          && T[x].next.value < |T| && T[x].next.value != x && T[T[x].next.value].ptr.Some?
          && (T[T[x].next.value].next.Some? ==> T[T[x].next.value].next.value < |T|))
  }

  /** `TableShape`, and slot `x` is at position `p` of the chain of key `k`, which is longer than one when `x` has a successor. */
  ghost predicate DetachShape<E, K>(T: seq<Entry<E>>, S: map<K, seq<nat>>, x: nat, k: K, p: nat)
  {
    && TableShape(T, x) && k in S && p < |S[k]|
    && (T[x].next.Some? ==> 1 < |S[k]|)
  }

  /** The table after `remove` unlinks slot `x`, before healing, by the branch its links select. */
  ghost function DetachedTable<E, I, K>(T: seq<Entry<E>>, h: Hasher<E, I, K>, x: nat): seq<Entry<E>>
    requires TableShape(T, x)
  {
    if T[x].prev.Some? then Unlinked(T, x)
    else if T[x].next.Some? then Promoted(T, h, x)
    else T[x := FreeEntry()]
  }

  /** The chains after `remove` unlinks slot `x`, at position `p` of the chain of `k`. */
  ghost function DetachedSlots<E, K>(T: seq<Entry<E>>, S: map<K, seq<nat>>, x: nat, k: K, p: nat): map<K, seq<nat>>
    requires DetachShape(T, S, x, k, p)
  {
    if T[x].prev.Some? then S[k := S[k][..p] + S[k][p + 1..]]
    else if T[x].next.Some? then S[k := [x] + S[k][2..]]
    else S - {k}
  }

  /** The slot `remove` leaves empty for `healHole`: the successor's slot when a head with a successor is removed, else `x`. */
  function DetachedHole<E>(T: seq<Entry<E>>, x: nat): nat
    requires x < |T|
  {
    if T[x].prev.None? && T[x].next.Some? then T[x].next.value else x
  }

  /**
   * The unlinking half of `remove` meets the abstract removal: whichever branch applies, the
   * chains left behind hold exactly the contents `Remove` gives, with a single hole to heal,
   * and the element returned is the one stored in slot `x`.
   */
  lemma DetachOk<E, I, K>(T: seq<Entry<E>>, S: map<K, seq<nat>>, h: Hasher<E, I, K>, x: nat, e: E) returns (p: nat)
    requires RemovableAt(T, S, h, x, e)
    ensures DetachShape(T, S, x, KeyOf(h, e), p)
    ensures Remove(Elems(T, S, h), h, e).1 == T[x].ptr
    ensures Lone(T, x) ==> |DetachedSlots(T, S, x, KeyOf(h, e), p)| + 1 == |S|
    ensures !Lone(T, x) ==> |DetachedSlots(T, S, x, KeyOf(h, e), p)| == |S| < |Occupied(T)|
    ensures Holed(DetachedTable(T, h, x), DetachedSlots(T, S, x, KeyOf(h, e), p), h, DetachedHole(T, x),
                  Remove(Elems(T, S, h), h, e).0, |Occupied(T)| - 1)
  {
    if T[x].prev.Some? {
      p := MemberRemoved(T, S, h, x, e);
      assert ChainOk(T, S[KeyOf(h, e)], KeyOf(h, e), h);
    } else if T[x].next.Some? {
      HeadRemoved(T, S, h, x, e);
      p := 0;
    } else {
      LoneRemoved(T, S, h, x, e);
      p := 0;
    }
  }

  // ---------------------------------------------------------------------------------------
  // Insertion against the abstract contents
  // ---------------------------------------------------------------------------------------

  /** When the abstract lookup finds nothing, no occupied slot holds an element equal to `e`. */
  lemma NoneStored<E, I, K>(T: seq<Entry<E>>, S: map<K, seq<nat>>, h: Hasher<E, I, K>, e: E)
    requires TableOk(T, S, h) && Lookup(Elems(T, S, h), h, e).None?
    ensures forall y :: Used(T, y) ==> IdAt(T, h, y) != h.idOf(e)
  {
    forall y | Used(T, y)
      ensures IdAt(T, h, y) != h.idOf(e)
    {
      if IdAt(T, h, y) == h.idOf(e) {
        var m := FoundLookup(T, S, h, y, e);
      }
    }
  }

  /** A new key: `insert` puts its element into the free slot the head probe stopped at, as a one-element chain. */
  lemma HeadInserted<E, I, K>(T: seq<Entry<E>>, S: map<K, seq<nat>>, h: Hasher<E, I, K>, i: nat, e: E, overwrite: bool)
    requires TableOk(T, S, h) && KeyOf(h, e) !in S
    requires i < |T| && !Used(T, i) && RunUsed(T, Home(h.hashKey(KeyOf(h, e)), |T|), i, -1)
    ensures ContentsOk(Elems(T, S, h), h)
    ensures var T', S' := T[i := HeadEntry(h, e)], S[KeyOf(h, e) := [i]];
      && TableOk(T', S', h)
      && Insert(Elems(T, S, h), h, e, overwrite) == (Elems(T', S', h), None)
      && |Occupied(T')| == |Occupied(T)| + 1 && |S'| == |S| + 1
  {
    ElemsOk(T, S, h);
    InsertHeadOk(T, S, h, i, e);
    assert i !in Occupied(T);
  }

  /** An element equal to `e` is stored in slot `x`: `insert` without `overwrite` returns it and changes nothing. */
  lemma EqualKept<E, I, K>(T: seq<Entry<E>>, S: map<K, seq<nat>>, h: Hasher<E, I, K>, x: nat, e: E)
    requires TableOk(T, S, h) && Used(T, x) && IdAt(T, h, x) == h.idOf(e)
    ensures ContentsOk(Elems(T, S, h), h)
    ensures Insert(Elems(T, S, h), h, e, false) == (Elems(T, S, h), T[x].ptr)
  {
    var m := FoundLookup(T, S, h, x, e);
    ElemsOk(T, S, h);
  }

  /**
   * An element equal to `e` is stored in slot `x`: `insert` returns it and, with `overwrite`,
   * stores `e` in its place.
   */
  lemma EqualFound<E, I, K>(T: seq<Entry<E>>, S: map<K, seq<nat>>, h: Hasher<E, I, K>, x: nat, e: E, overwrite: bool)
    requires TableOk(T, S, h) && Used(T, x) && IdAt(T, h, x) == h.idOf(e)
    ensures ContentsOk(Elems(T, S, h), h)
    ensures T[x].hashCache == HashElement(h, e, T[x].prev.None?)
    ensures Insert(Elems(T, S, h), h, e, overwrite).1 == T[x].ptr
    ensures !overwrite ==> Insert(Elems(T, S, h), h, e, overwrite).0 == Elems(T, S, h)
    ensures overwrite ==> var T' := T[x := T[x].(ptr := Some(e))];
      && TableOk(T', S, h)
      && Insert(Elems(T, S, h), h, e, overwrite).0 == Elems(T', S, h)
      && |Occupied(T')| == |Occupied(T)|
  {
    ElemsOk(T, S, h);
    var m := OverwriteOk(T, S, h, x, e);
    var M := Elems(T, S, h);
    var k := KeyOf(h, e);
    assert M[k][m] == T[x].ptr.value;
    FindIdAt(M[k], h, m);
  }

  /**
   * A further element of a present key: `insert` writes it into the free slot `j` found by
   * probing from the home slot of its element hash and links it in second.
   */
  lemma MemberInserted<E, I, K>(T: seq<Entry<E>>, S: map<K, seq<nat>>, h: Hasher<E, I, K>, j: nat, e: E, overwrite: bool)
    requires TableOk(T, S, h) && KeyOf(h, e) in S
    requires j < |T| && !Used(T, j) && RunUsed(T, Home(HashElement(h, e, false), |T|), j, -1)
    requires forall y :: Used(T, y) ==> IdAt(T, h, y) != h.idOf(e)
    ensures ContentsOk(Elems(T, S, h), h)
    ensures Used(T, S[KeyOf(h, e)][0]) && S[KeyOf(h, e)][0] != j
    ensures T[S[KeyOf(h, e)][0]].next.Some? ==> T[S[KeyOf(h, e)][0]].next.value < |T|
    ensures var k := KeyOf(h, e);
      var i := S[k][0];
      var T' := Spliced(T, i, j, MemberEntry(h, e, T[i].next, i));
      var S' := S[k := [i, j] + S[k][1..]];
      && TableOk(T', S', h)
      && Insert(Elems(T, S, h), h, e, overwrite) == (Elems(T', S', h), None)
      && |Occupied(T')| == |Occupied(T)| + 1 && |S'| == |S|
  {
    ElemsOk(T, S, h);
    InsertMemberOk(T, S, h, j, e);
    MissingLookup(T, S, h, e);
    InsertSecond(Elems(T, S, h), h, e, overwrite);
    CardAdd(Occupied(T), j);
  }

  /** Adding a new member to a finite set adds one to its size. */
  lemma CardAdd(A: set<nat>, x: nat)
    requires x !in A
    ensures |A + {x}| == |A| + 1
  {
  }

  /**
   * Where `insert` puts an element, as its probes decide: a new chain head in a free slot,
   * the slot of an equal stored element, or a free slot linked in after the chain head.
   */
  datatype Placement = NewHead(at: nat) | Equal(at: nat) | Member(head: nat, at: nat)

  /** The probes' findings that justify a placement of `e`. */
  ghost predicate PlacementOk<E, I, K>(T: seq<Entry<E>>, S: map<K, seq<nat>>, h: Hasher<E, I, K>, e: E, pl: Placement)
  {
    match pl
    case NewHead(i) =>
      KeyOf(h, e) !in S && i < |T| && !Used(T, i) && RunUsed(T, Home(h.hashKey(KeyOf(h, e)), |T|), i, -1)
    case Equal(x) =>
      Used(T, x) && IdAt(T, h, x) == h.idOf(e)
    case Member(i, j) =>
      && KeyOf(h, e) in S && 0 < |S[KeyOf(h, e)]| && i == S[KeyOf(h, e)][0]
      && j < |T| && !Used(T, j) && RunUsed(T, Home(HashElement(h, e, false), |T|), j, -1)
      && (forall y :: Used(T, y) ==> IdAt(T, h, y) != h.idOf(e))
  }

  /** The slots a placement writes lie inside the table, and the key of a new member has a chain. */
  ghost predicate PlaceShape<E, K>(T: seq<Entry<E>>, S: map<K, seq<nat>>, k: K, pl: Placement)
  {
    match pl
    case NewHead(i) => i < |T|
    case Equal(x) => x < |T|
    case Member(i, j) => i < |T| && j < |T| && i != j && (T[i].next.Some? ==> T[i].next.value < |T|) && k in S && 0 < |S[k]|
  }

  /** The table after `insert` writes `e` as `pl` says; an equal element is replaced only with `overwrite`. */
  ghost function PlacedTable<E, I, K>(T: seq<Entry<E>>, S: map<K, seq<nat>>, h: Hasher<E, I, K>, e: E, pl: Placement, overwrite: bool): seq<Entry<E>>
    requires PlaceShape(T, S, KeyOf(h, e), pl)
  {
    match pl
    case NewHead(i) => T[i := HeadEntry(h, e)]
    case Equal(x) => if overwrite then T[x := T[x].(ptr := Some(e))] else T
    case Member(i, j) => Spliced(T, i, j, MemberEntry(h, e, T[i].next, i))
  }

  /** The chains after `insert` places an element of key `k` as `pl` says. */
  ghost function PlacedSlots<E, K>(T: seq<Entry<E>>, S: map<K, seq<nat>>, k: K, pl: Placement): map<K, seq<nat>>
    requires PlaceShape(T, S, k, pl)
  {
    match pl
    case NewHead(i) => S[k := [i]]
    case Equal(_) => S
    case Member(i, j) => S[k := [i, j] + S[k][1..]]
  }

  /** The slots a placement fills: one for a new head or member, none for an equal element. */
  function Added(pl: Placement): nat
  {
    if pl.Equal? then 0 else 1
  }

  /**
   * The table side of `insert` meets the abstract insertion: whatever the probes found, the
   * table after the placement is well formed and holds exactly the contents `Insert` gives,
   * and the element returned is the equal one found, if any.
   */
  lemma PlacedOk<E, I, K>(T: seq<Entry<E>>, S: map<K, seq<nat>>, h: Hasher<E, I, K>, e: E, pl: Placement, overwrite: bool)
    requires TableOk(T, S, h) && PlacementOk(T, S, h, e, pl)
    ensures PlaceShape(T, S, KeyOf(h, e), pl) && ContentsOk(Elems(T, S, h), h)
    ensures Insert(Elems(T, S, h), h, e, overwrite).1 == (if pl.Equal? then T[pl.at].ptr else None)
    ensures var T', S' := PlacedTable(T, S, h, e, pl, overwrite), PlacedSlots(T, S, KeyOf(h, e), pl);
      && TableOk(T', S', h) && Elems(T', S', h) == Insert(Elems(T, S, h), h, e, overwrite).0
      && |Occupied(T')| == |Occupied(T)| + Added(pl)
      && |S'| == |S| + (if pl.NewHead? then 1 else 0)
  {
    match pl
    case NewHead(i) =>
      HeadInserted(T, S, h, i, e, overwrite);
    case Equal(x) =>
      if overwrite {
        EqualFound(T, S, h, x, e, overwrite);
      } else {
        EqualKept(T, S, h, x, e);
      }
    case Member(i, j) =>
      MemberInserted(T, S, h, j, e, overwrite);
  }
}
