/**
 * Removal from a bucket of `AssocMulti` (lib/Basics/AssocMulti.h): `moveEntry`, the three
 * ways `remove` unlinks an element, and `healHole`, which closes the hole removal leaves so
 * that every element is reachable from its home slot again.
 */
module AssocMultiHeal {
  import opened Common
  import opened AssocMultiTable
  import opened AssocMultiSteps

  // ---------------------------------------------------------------------------------------
  // moveEntry
  // ---------------------------------------------------------------------------------------

  /**
   * `moveEntry(from, to)`: copy the entry of slot `from` to slot `to`, point its neighbours'
   * links at `to`, and free slot `from`.
   */
  function Moved<E>(T: seq<Entry<E>>, from: nat, to: nat): (r: seq<Entry<E>>)
    requires from < |T| && to < |T|
    requires T[from].prev.Some? ==> T[from].prev.value < |T|
    requires T[from].next.Some? ==> T[from].next.value < |T|
    ensures |r| == |T|
  {
    var T1 := T[to := T[from]];
    var T2 := if T1[to].prev.Some? then T1[T1[to].prev.value := T1[T1[to].prev.value].(next := Some(to))] else T1;
    var T3 := if T2[to].next.Some? then T2[T2[to].next.value := T2[T2[to].next.value].(prev := Some(to))] else T2;
    T3[from := FreeEntry()]
  }

  /** The links of a chain slot point at slots of the table. */
  lemma LinksInRange<E, I, K>(T: seq<Entry<E>>, cs: seq<nat>, k: K, h: Hasher<E, I, K>, m: nat)
    requires ChainOk(T, cs, k, h) && m < |cs|
    ensures cs[m] < |T|
    ensures T[cs[m]].prev.Some? ==> m > 0 && T[cs[m]].prev.value == cs[m - 1] < |T|
    ensures T[cs[m]].next.Some? ==> m + 1 < |cs| && T[cs[m]].next.value == cs[m + 1] < |T|
    ensures m > 0 ==> T[cs[m]].prev == Some(cs[m - 1])
    ensures m + 1 < |cs| ==> T[cs[m]].next == Some(cs[m + 1])
  {
    assert Used(T, cs[m]);
    if m > 0 { assert Used(T, cs[m - 1]); }
    if m + 1 < |cs| { assert Used(T, cs[m + 1]); }
  }

  /** Moving the `m`-th slot of a chain to a free slot, slot by slot. */
  lemma MovedAt<E, I, K>(T: seq<Entry<E>>, cs: seq<nat>, k: K, h: Hasher<E, I, K>, m: nat, to: nat)
    requires ChainOk(T, cs, k, h) && m < |cs| && to < |T| && !Used(T, to)
    ensures cs[m] < |T| && cs[m] != to
    ensures T[cs[m]].prev.Some? ==> T[cs[m]].prev.value < |T|
    ensures T[cs[m]].next.Some? ==> T[cs[m]].next.value < |T|
    ensures var T' := Moved(T, cs[m], to);
      && T'[to] == T[cs[m]] && T'[cs[m]] == FreeEntry()
      && (m > 0 ==> T'[cs[m - 1]] == T[cs[m - 1]].(next := Some(to)))
      && (m + 1 < |cs| ==> T'[cs[m + 1]] == T[cs[m + 1]].(prev := Some(to)))
      && (forall y :: 0 <= y < |T| && y != to && y != cs[m] && (m > 0 ==> y != cs[m - 1]) && (m + 1 < |cs| ==> y != cs[m + 1]) ==> T'[y] == T[y])
  {
    LinksInRange(T, cs, k, h, m);
    assert Used(T, cs[m]);
    if m > 0 { assert Used(T, cs[m - 1]) && cs[m - 1] != cs[m]; }
    if m + 1 < |cs| { assert Used(T, cs[m + 1]) && cs[m + 1] != cs[m]; }
    if m > 0 && m + 1 < |cs| { assert cs[m - 1] != cs[m + 1]; }
  }

  /** A chain whose `m`-th slot moved to the free slot `to` is well formed with `to` in its place, and holds the same elements. */
  lemma MovedChain<E, I, K>(T: seq<Entry<E>>, T': seq<Entry<E>>, cs: seq<nat>, k: K, h: Hasher<E, I, K>, m: nat, to: nat)
    requires ChainOk(T, cs, k, h) && m < |cs| && to < |T| == |T'| && !Used(T, to)
    requires T'[to] == T[cs[m]]
    requires m > 0 ==> T'[cs[m - 1]] == T[cs[m - 1]].(next := Some(to))
    requires m + 1 < |cs| ==> T'[cs[m + 1]] == T[cs[m + 1]].(prev := Some(to))
    requires forall n :: 0 <= n < |cs| && n != m && n + 1 != m && n != m + 1 ==> T'[cs[n]] == T[cs[n]]
    ensures ChainOk(T', cs[m := to], k, h)
    ensures Chain(T', cs[m := to]) == Chain(T, cs)
  {
    MovedChainOk(T, T', cs, k, h, m, to);
    MovedElems(T, T', cs, cs[m := to]);
  }

  lemma MovedChainOk<E, I, K>(T: seq<Entry<E>>, T': seq<Entry<E>>, cs: seq<nat>, k: K, h: Hasher<E, I, K>, m: nat, to: nat)
    requires ChainOk(T, cs, k, h) && m < |cs| && to < |T| == |T'| && !Used(T, to)
    requires T'[to] == T[cs[m]]
    requires m > 0 ==> T'[cs[m - 1]] == T[cs[m - 1]].(next := Some(to))
    requires m + 1 < |cs| ==> T'[cs[m + 1]] == T[cs[m + 1]].(prev := Some(to))
    requires forall n :: 0 <= n < |cs| && n != m && n + 1 != m && n != m + 1 ==> T'[cs[n]] == T[cs[n]]
    ensures ChainOk(T', cs[m := to], k, h)
    ensures forall n :: 0 <= n < |cs| ==> Used(T, cs[n]) && Used(T', cs[m := to][n]) && T'[cs[m := to][n]].ptr == T[cs[n]].ptr
  {
    var cs' := cs[m := to];
    assert Used(T, cs[m]);
    assert forall n :: 0 <= n < |cs| ==> Used(T, cs[n]) && cs[n] != to;
    assert Distinct(cs');
    assert forall n :: 0 <= n < |cs'| ==> Used(T', cs'[n]) && T'[cs'[n]].ptr == T[cs[n]].ptr by {
      forall n | 0 <= n < |cs'| ensures Used(T', cs'[n]) && T'[cs'[n]].ptr == T[cs[n]].ptr {
        if n != m && n + 1 != m && n != m + 1 {
          assert T'[cs[n]] == T[cs[n]];
        }
      }
    }
    assert forall n :: 0 <= n < |cs'| ==> KeyAt(T', h, cs'[n]) == k;
    MovedLinks(T, T', cs, k, h, m, to);
    MovedNexts(T, T', cs, k, h, m, to);
    ChainOkIntro(T', cs', k, h);
  }

  lemma MovedLinks<E, I, K>(T: seq<Entry<E>>, T': seq<Entry<E>>, cs: seq<nat>, k: K, h: Hasher<E, I, K>, m: nat, to: nat)
    requires ChainOk(T, cs, k, h) && m < |cs| && to < |T| == |T'| && !Used(T, to)
    requires T'[to] == T[cs[m]]
    requires m > 0 ==> T'[cs[m - 1]] == T[cs[m - 1]].(next := Some(to))
    requires m + 1 < |cs| ==> T'[cs[m + 1]] == T[cs[m + 1]].(prev := Some(to))
    requires forall n :: 0 <= n < |cs| && n != m && n + 1 != m && n != m + 1 ==> T'[cs[n]] == T[cs[n]]
    requires forall n :: 0 <= n < |cs| ==> Used(T', cs[m := to][n]) && T'[cs[m := to][n]].ptr == T[cs[n]].ptr
    ensures var cs' := cs[m := to];
      && T'[cs'[0]].prev == None && T'[cs'[0]].hashCache == h.hashKey(k)
      && (forall n :: 0 < n < |cs'| ==>
            T'[cs'[n]].prev == Some(cs'[n - 1]) && T'[cs'[n]].hashCache == HashElement(h, T'[cs'[n]].ptr.value, false))
  {
    var cs' := cs[m := to];
    assert T'[cs'[0]].prev == None && T'[cs'[0]].hashCache == h.hashKey(k) by {
      if m != 0 && m != 1 { assert T'[cs[0]] == T[cs[0]]; }
    }
    forall n | 0 < n < |cs'|
      ensures T'[cs'[n]].prev == Some(cs'[n - 1]) && T'[cs'[n]].hashCache == HashElement(h, T'[cs'[n]].ptr.value, false)
    {
      if n != m && n + 1 != m && n != m + 1 {
        assert T'[cs[n]] == T[cs[n]];
      }
    }
  }

  lemma MovedNexts<E, I, K>(T: seq<Entry<E>>, T': seq<Entry<E>>, cs: seq<nat>, k: K, h: Hasher<E, I, K>, m: nat, to: nat)
    requires ChainOk(T, cs, k, h) && m < |cs| && to < |T| == |T'| && !Used(T, to)
    requires T'[to] == T[cs[m]]
    requires m > 0 ==> T'[cs[m - 1]] == T[cs[m - 1]].(next := Some(to))
    requires m + 1 < |cs| ==> T'[cs[m + 1]] == T[cs[m + 1]].(prev := Some(to))
    requires forall n :: 0 <= n < |cs| && n != m && n + 1 != m && n != m + 1 ==> T'[cs[n]] == T[cs[n]]
    requires forall n :: 0 <= n < |cs| ==> Used(T', cs[m := to][n]) && T'[cs[m := to][n]].ptr == T[cs[n]].ptr
    ensures var cs' := cs[m := to];
      && (forall n :: 0 <= n < |cs'| - 1 ==> T'[cs'[n]].next == Some(cs'[n + 1]))
      && T'[cs'[|cs'| - 1]].next == None
  {
    var cs' := cs[m := to];
    forall n | 0 <= n < |cs'| - 1 ensures T'[cs'[n]].next == Some(cs'[n + 1]) {
      if n != m && n + 1 != m && n != m + 1 {
        assert T'[cs[n]] == T[cs[n]];
      }
    }
    var n := |cs| - 1;
    if n != m && n + 1 != m && n != m + 1 {
      assert T'[cs[n]] == T[cs[n]];
    }
  }

  /** Slots holding the same elements list the same elements. */
  lemma MovedElems<E>(T: seq<Entry<E>>, T': seq<Entry<E>>, cs: seq<nat>, cs': seq<nat>)
    requires |cs'| == |cs|
    requires forall n :: 0 <= n < |cs| ==> Used(T, cs[n]) && Used(T', cs'[n]) && T'[cs'[n]].ptr == T[cs[n]].ptr
    ensures Chain(T', cs') == Chain(T, cs)
  {
    var A, B := Chain(T', cs'), Chain(T, cs);
    forall n | 0 <= n < |A|
      ensures A[n] == B[n]
    {
    }
    assert A == B;
  }

  /**
   * Moving an element from slot `x` to the free slot `to` keeps the chains well formed,
   * with `to` in the place of `x`, and keeps every element covered and unique; the
   * contents of the bucket do not change.
   */
  lemma MoveOk<E, I, K>(T: seq<Entry<E>>, S: map<K, seq<nat>>, h: Hasher<E, I, K>, x: nat, to: nat) returns (m: nat)
    requires ChainsOk(T, S, h) && Covered(T, S, h) && UniqueIds(T, h)
    requires Used(T, x) && to < |T| && !Used(T, to)
    ensures KeyAt(T, h, x) in S && m < |S[KeyAt(T, h, x)]| && S[KeyAt(T, h, x)][m] == x
    ensures T[x].prev.Some? ==> T[x].prev.value < |T|
    ensures T[x].next.Some? ==> T[x].next.value < |T|
    ensures var k := KeyAt(T, h, x);
      var T' := Moved(T, x, to);
      var cs': seq<nat> := S[k][m := to];
      var S' := S[k := cs'];
      && ChainsOk(T', S', h) && Covered(T', S', h) && UniqueIds(T', h)
      && Elems(T', S', h) == Elems(T, S, h)
      && T'[to].ptr == T[x].ptr && T'[to].hashCache == T[x].hashCache && T'[to].prev == T[x].prev
      && !Used(T', x)
      && (forall y :: 0 <= y < |T| && y != x && y != to ==> T'[y].ptr == T[y].ptr && T'[y].hashCache == T[y].hashCache)
      && Occupied(T') == Occupied(T) - {x} + {to}
  {
    var k := KeyAt(T, h, x);
    var cs := S[k];
    assert ChainOk(T, cs, k, h);
    m :| 0 <= m < |cs| && cs[m] == x;
    MovedAt(T, cs, k, h, m, to);
    var cs': seq<nat> := cs[m := to];
    MovedState(T, Moved(T, x, to), S, h, k, m, to, cs');
  }

  /** `MoveOk` for the table after the move, described slot by slot. */
  lemma MovedState<E, I, K>(T: seq<Entry<E>>, T': seq<Entry<E>>, S: map<K, seq<nat>>, h: Hasher<E, I, K>, k: K, m: nat, to: nat, cs': seq<nat>)
    requires ChainsOk(T, S, h) && Covered(T, S, h) && UniqueIds(T, h)
    requires k in S && m < |S[k]| && to < |T| == |T'| && !Used(T, to) && cs' == S[k][m := to]
    requires var cs := S[k];
      && T'[to] == T[cs[m]] && T'[cs[m]] == FreeEntry()
      && (m > 0 ==> T'[cs[m - 1]] == T[cs[m - 1]].(next := Some(to)))
      && (m + 1 < |cs| ==> T'[cs[m + 1]] == T[cs[m + 1]].(prev := Some(to)))
      && (forall y :: 0 <= y < |T| && y != to && y != cs[m] && (m > 0 ==> y != cs[m - 1]) && (m + 1 < |cs| ==> y != cs[m + 1]) ==> T'[y] == T[y])
    ensures var S' := S[k := cs'];
      && ChainsOk(T', S', h) && Covered(T', S', h) && UniqueIds(T', h)
      && Elems(T', S', h) == Elems(T, S, h)
      && (forall y :: 0 <= y < |T| && y != S[k][m] && y != to ==> T'[y].ptr == T[y].ptr && T'[y].hashCache == T[y].hashCache)
      && Occupied(T') == Occupied(T) - {S[k][m]} + {to}
  {
    var cs := S[k];
    assert ChainOk(T, cs, k, h);
    var x := cs[m];
    MovedKeeps(T, T', cs, k, h, m, to);
    MovedChain(T, T', cs, k, h, m, to);
    OthersKept(T, T', S, h, k);
    ElemsUpdate(T, T', S, h, k, cs');
    assert Elems(T, S, h)[k] == Chain(T, cs);
    SameUpdate(Elems(T, S, h), k, Chain(T', cs'));
    Relocated(T, T', S, h, k, m, to);
  }

  /** The slots a move rewrites are the two it involves and the neighbours of the moved slot in its chain. */
  lemma MovedKeeps<E, I, K>(T: seq<Entry<E>>, T': seq<Entry<E>>, cs: seq<nat>, k: K, h: Hasher<E, I, K>, m: nat, to: nat)
    requires ChainOk(T, cs, k, h) && m < |cs| && to < |T| == |T'| && !Used(T, to)
    requires T'[cs[m]] == FreeEntry()
    requires m > 0 ==> T'[cs[m - 1]] == T[cs[m - 1]].(next := Some(to))
    requires m + 1 < |cs| ==> T'[cs[m + 1]] == T[cs[m + 1]].(prev := Some(to))
    requires forall y :: 0 <= y < |T| && y != to && y != cs[m] && (m > 0 ==> y != cs[m - 1]) && (m + 1 < |cs| ==> y != cs[m + 1]) ==> T'[y] == T[y]
    ensures forall n :: 0 <= n < |cs| && n != m && n + 1 != m && n != m + 1 ==> T'[cs[n]] == T[cs[n]]
    ensures forall y :: 0 <= y < |T| && T'[y] != T[y] ==> !Used(T, y) || KeyAt(T, h, y) == k
    ensures forall y :: 0 <= y < |T| && y != cs[m] && y != to ==> T'[y].ptr == T[y].ptr && T'[y].hashCache == T[y].hashCache
  {
    forall n | 0 <= n < |cs| && n != m && n + 1 != m && n != m + 1
      ensures T'[cs[n]] == T[cs[n]]
    {
      assert Used(T, cs[n]) && cs[n] != cs[m];
      if m > 0 { assert cs[n] != cs[m - 1]; }
      if m + 1 < |cs| { assert cs[n] != cs[m + 1]; }
    }
    if m > 0 { assert Used(T, cs[m - 1]) && KeyAt(T, h, cs[m - 1]) == k; }
    if m + 1 < |cs| { assert Used(T, cs[m + 1]) && KeyAt(T, h, cs[m + 1]) == k; }
    forall y | 0 <= y < |T| && y != cs[m] && y != to
      ensures T'[y].ptr == T[y].ptr && T'[y].hashCache == T[y].hashCache
    {
      if m > 0 && y == cs[m - 1] {
      } else if m + 1 < |cs| && y == cs[m + 1] {
      }
    }
  }

  /**
   * When the element of slot `x`, the `m`-th of the chain of `k`, moves to the free slot
   * `to` and every other slot keeps its element, every element stays covered (with `to` in
   * the place of `x`) and unique.
   */
  lemma Relocated<E, I, K>(T: seq<Entry<E>>, T': seq<Entry<E>>, S: map<K, seq<nat>>, h: Hasher<E, I, K>, k: K, m: nat, to: nat)
    requires Covered(T, S, h) && UniqueIds(T, h) && k in S && m < |S[k]| && to < |T| == |T'| && !Used(T, to)
    requires Used(T, S[k][m]) && KeyAt(T, h, S[k][m]) == k
    requires T'[to].ptr == T[S[k][m]].ptr && !Used(T', S[k][m])
    requires forall y :: 0 <= y < |T| && y != S[k][m] && y != to ==> T'[y].ptr == T[y].ptr
    ensures var cs': seq<nat> := S[k][m := to]; Covered(T', S[k := cs'], h) && UniqueIds(T', h)
    ensures Occupied(T') == Occupied(T) - {S[k][m]} + {to}
  {
    var cs := S[k];
    var x := cs[m];
    var cs': seq<nat> := cs[m := to];
    var S' := S[k := cs'];
    forall y | Used(T', y)
      ensures KeyAt(T', h, y) in S' && y in S'[KeyAt(T', h, y)]
    {
      if y != to {
        assert y != x && T'[y].ptr == T[y].ptr;
        assert Used(T, y) && KeyAt(T', h, y) == KeyAt(T, h, y);
        var k' := KeyAt(T, h, y);
        assert k' in S && y in S[k'];
        if k' == k {
          var n :| 0 <= n < |cs| && cs[n] == y;
          assert n != m;
          assert cs'[n] == y;
          assert y in S'[k'];
        } else {
          assert S'[k'] == S[k'];
        }
      } else {
        assert KeyAt(T', h, y) == k && cs'[m] == y;
      }
    }
    forall y, z | Used(T', y) && Used(T', z) && y != z
      ensures IdAt(T', h, y) != IdAt(T', h, z)
    {
      var y0 := if y == to then x else y;
      var z0 := if z == to then x else z;
      Apart(T, h, y0, z0);
    }
    assert Occupied(T') == Occupied(T) - {x} + {to};
  }

  // ---------------------------------------------------------------------------------------
  // Unlinking an element
  // ---------------------------------------------------------------------------------------

  /**
   * Removing the only element of its chain (a head without successor) frees its slot and
   * drops the key; the slot becomes the hole.
   */
  lemma RemoveLoneOk<E, I, K>(T: seq<Entry<E>>, S: map<K, seq<nat>>, h: Hasher<E, I, K>, x: nat)
    requires TableOk(T, S, h) && Used(T, x) && T[x].prev.None? && T[x].next.None?
    ensures var k := KeyAt(T, h, x);
      && k in S && S[k] == [x] && Elems(T, S, h)[k] == [T[x].ptr.value]
    ensures var k := KeyAt(T, h, x);
      var T' := T[x := FreeEntry()];
      var S' := S - {k};
      && ChainsOk(T', S', h) && Covered(T', S', h) && UniqueIds(T', h)
      && !Used(T', x) && Reachable(T', x)
      && Elems(T', S', h) == Elems(T, S, h) - {k}
      && Occupied(T') == Occupied(T) - {x}
  {
    var k := KeyAt(T, h, x);
    ChainSlot(T, S, h, x);
    var cs := S[k];
    assert ChainOk(T, cs, k, h);
    LinksInRange(T, cs, k, h, 0);
    assert cs == [x];
    var T' := T[x := FreeEntry()];
    var S' := S - {k};
    OthersKept(T, T', S, h, k);
    KeyDropped(T, T', S, h, k);
    Freed(T, T', S, S', h, x);
  }

  /**
   * Freeing slot `x` while every other slot keeps its element and cached hash, and every
   * chain but the one that lost `x` keeps its slots, leaves `x` as the only hole.
   */
  lemma Freed<E, I, K>(T: seq<Entry<E>>, T': seq<Entry<E>>, S: map<K, seq<nat>>, S': map<K, seq<nat>>, h: Hasher<E, I, K>, x: nat)
    requires TableOk(T, S, h) && x < |T| == |T'| && !Used(T', x)
    requires forall y :: 0 <= y < |T| && y != x ==> T'[y].ptr == T[y].ptr && T'[y].hashCache == T[y].hashCache
    requires forall y :: Used(T, y) && y != x ==> KeyAt(T, h, y) in S' && y in S'[KeyAt(T, h, y)]
    ensures Covered(T', S', h) && UniqueIds(T', h) && Reachable(T', x)
    ensures Occupied(T') == Occupied(T) - {x}
  {
    forall y | Used(T', y)
      ensures KeyAt(T', h, y) in S' && y in S'[KeyAt(T', h, y)]
    {
      assert Used(T, y) && y != x;
    }
    forall y, z | Used(T', y) && Used(T', z) && y != z
      ensures IdAt(T', h, y) != IdAt(T', h, z)
    {
      Apart(T, h, y, z);
    }
    forall x1 | Used(T', x1)
      ensures RunUsed(T', HomeOf(T', x1), x1, x)
    {
      assert Used(T, x1) && RunUsed(T, HomeOf(T, x1), x1, -1);
    }
    assert Occupied(T') == Occupied(T) - {x};
  }

  /** Dropping the chain of `k` while every other chain lists the same elements drops `k` from the contents. */
  lemma KeyDropped<E, I, K>(T: seq<Entry<E>>, T': seq<Entry<E>>, S: map<K, seq<nat>>, h: Hasher<E, I, K>, k: K)
    requires ChainsOk(T, S, h)
    requires forall k2 :: k2 in S && k2 != k ==> ChainOk(T', S[k2], k2, h) && Chain(T', S[k2]) == Chain(T, S[k2])
    ensures ChainsOk(T', S - {k}, h)
    ensures Elems(T', S - {k}, h) == Elems(T, S, h) - {k}
  {
    var S' := S - {k};
    forall k2 | k2 in S'
      ensures ChainOk(T', S'[k2], k2, h)
    {
      assert S'[k2] == S[k2];
    }
    var A, B := Elems(T', S', h), Elems(T, S, h) - {k};
    forall k2 | k2 in A
      ensures k2 in B && A[k2] == B[k2]
    {
      assert S'[k2] == S[k2];
    }
    assert A.Keys == B.Keys;
    SameMap(A, B);
  }

  /** The non-head branch of `remove`: link the neighbours of slot `x` to each other and free it. */
  function Unlinked<E>(T: seq<Entry<E>>, x: nat): (r: seq<Entry<E>>)
    requires x < |T| && T[x].prev.Some? && T[x].prev.value < |T|
    requires T[x].next.Some? ==> T[x].next.value < |T|
    ensures |r| == |T|
  {
    var p := T[x].prev.value;
    var T1 := T[p := T[p].(next := T[x].next)];
    var T2 := if T1[x].next.Some? then T1[T1[x].next.value := T1[T1[x].next.value].(prev := T1[x].prev)] else T1;
    T2[x := FreeEntry()]
  }

  /** Unlinking the `m`-th slot of a chain, for `m > 0`, slot by slot. */
  lemma UnlinkedAt<E, I, K>(T: seq<Entry<E>>, cs: seq<nat>, k: K, h: Hasher<E, I, K>, m: nat)
    requires ChainOk(T, cs, k, h) && 0 < m < |cs|
    ensures cs[m] < |T| && T[cs[m]].prev.Some? && T[cs[m]].prev.value < |T|
    ensures T[cs[m]].next.Some? ==> T[cs[m]].next.value < |T|
    ensures var T' := Unlinked(T, cs[m]);
      && T'[cs[m]] == FreeEntry()
      && T'[cs[m - 1]] == T[cs[m - 1]].(next := if m + 1 < |cs| then Some(cs[m + 1]) else None)
      && (m + 1 < |cs| ==> T'[cs[m + 1]] == T[cs[m + 1]].(prev := Some(cs[m - 1])))
      && (forall y :: 0 <= y < |T| && y != cs[m] && y != cs[m - 1] && (m + 1 < |cs| ==> y != cs[m + 1]) ==> T'[y] == T[y])
  {
    LinksInRange(T, cs, k, h, m);
    assert Used(T, cs[m]) && Used(T, cs[m - 1]) && cs[m - 1] != cs[m];
    if m + 1 < |cs| { assert Used(T, cs[m + 1]) && cs[m + 1] != cs[m] && cs[m - 1] != cs[m + 1]; }
  }

  /** A chain without its `m`-th slot, for `m > 0`, after unlinking that slot. */
  lemma UnlinkedChain<E, I, K>(T: seq<Entry<E>>, T': seq<Entry<E>>, cs: seq<nat>, k: K, h: Hasher<E, I, K>, m: nat)
    requires ChainOk(T, cs, k, h) && 0 < m < |cs| && |T'| == |T|
    requires T'[cs[m - 1]] == T[cs[m - 1]].(next := if m + 1 < |cs| then Some(cs[m + 1]) else None)
    requires m + 1 < |cs| ==> T'[cs[m + 1]] == T[cs[m + 1]].(prev := Some(cs[m - 1]))
    requires forall n :: 0 <= n < |cs| && n + 1 != m && n != m && n != m + 1 ==> T'[cs[n]] == T[cs[n]]
    ensures ChainOk(T', cs[..m] + cs[m + 1..], k, h)
    ensures Chain(T', cs[..m] + cs[m + 1..]) == Chain(T, cs)[..m] + Chain(T, cs)[m + 1..]
  {
    var cs' := cs[..m] + cs[m + 1..];
    assert forall n :: 0 <= n < m ==> cs'[n] == cs[n];
    assert forall n :: m <= n < |cs'| ==> cs'[n] == cs[n + 1];
    UnlinkedUsed(T, T', cs, k, h, m);
    UnlinkedLinks(T, T', cs, k, h, m);
    ChainOkIntro(T', cs', k, h);
    DropElems(T, T', cs, m);
  }

  /** The elements of a chain without its `m`-th slot, when the other slots keep their elements. */
  lemma DropElems<E>(T: seq<Entry<E>>, T': seq<Entry<E>>, cs: seq<nat>, m: nat)
    requires m < |cs| && forall n :: 0 <= n < |cs| ==> Used(T, cs[n])
    requires var cs' := cs[..m] + cs[m + 1..];
      forall n :: 0 <= n < |cs'| ==> Used(T', cs'[n]) && Used(T, cs'[n]) && T'[cs'[n]].ptr == T[cs'[n]].ptr
    ensures Chain(T', cs[..m] + cs[m + 1..]) == Chain(T, cs)[..m] + Chain(T, cs)[m + 1..]
  {
    var cs' := cs[..m] + cs[m + 1..];
    var A, B := Chain(T', cs'), Chain(T, cs)[..m] + Chain(T, cs)[m + 1..];
    forall n | 0 <= n < |A|
      ensures A[n] == B[n]
    {
      if n >= m { assert cs'[n] == cs[n + 1]; } else { assert cs'[n] == cs[n]; }
    }
    assert A == B;
  }

  /**
   * Removing an element that is not the head of its chain links its neighbours to each
   * other and frees its slot, which becomes the hole; the element leaves its chain.
   */
  lemma RemoveMemberOk<E, I, K>(T: seq<Entry<E>>, S: map<K, seq<nat>>, h: Hasher<E, I, K>, x: nat) returns (m: nat)
    requires TableOk(T, S, h) && Used(T, x) && T[x].prev.Some?
    ensures KeyAt(T, h, x) in S && 0 < m < |S[KeyAt(T, h, x)]| && S[KeyAt(T, h, x)][m] == x
    ensures T[x].prev.value < |T| && (T[x].next.Some? ==> T[x].next.value < |T|)
    ensures var k := KeyAt(T, h, x);
      var T' := Unlinked(T, x);
      var cs' := S[k][..m] + S[k][m + 1..];
      var S' := S[k := cs'];
      && ChainsOk(T', S', h) && Covered(T', S', h) && UniqueIds(T', h)
      && !Used(T', x) && Reachable(T', x)
      && Elems(T', S', h) == Elems(T, S, h)[k := Elems(T, S, h)[k][..m] + Elems(T, S, h)[k][m + 1..]]
      && Occupied(T') == Occupied(T) - {x}
  {
    var k := KeyAt(T, h, x);
    ChainSlot(T, S, h, x);
    var cs := S[k];
    assert ChainOk(T, cs, k, h);
    m :| 0 <= m < |cs| && cs[m] == x;
    UnlinkedAt(T, cs, k, h, m);
    UnlinkedState(T, Unlinked(T, x), S, h, k, m);
  }

  /** `RemoveMemberOk` for the table after the unlinking, described slot by slot. */
  lemma UnlinkedState<E, I, K>(T: seq<Entry<E>>, T': seq<Entry<E>>, S: map<K, seq<nat>>, h: Hasher<E, I, K>, k: K, m: nat)
    requires TableOk(T, S, h) && k in S && 0 < m < |S[k]| && |T'| == |T|
    requires var cs := S[k];
      && T'[cs[m]] == FreeEntry()
      && T'[cs[m - 1]] == T[cs[m - 1]].(next := if m + 1 < |cs| then Some(cs[m + 1]) else None)
      && (m + 1 < |cs| ==> T'[cs[m + 1]] == T[cs[m + 1]].(prev := Some(cs[m - 1])))
      && (forall y :: 0 <= y < |T| && y != cs[m] && y != cs[m - 1] && (m + 1 < |cs| ==> y != cs[m + 1]) ==> T'[y] == T[y])
    ensures var cs' := S[k][..m] + S[k][m + 1..];
      var S' := S[k := cs'];
      && ChainsOk(T', S', h) && Covered(T', S', h) && UniqueIds(T', h)
      && !Used(T', S[k][m]) && Reachable(T', S[k][m])
      && Elems(T', S', h) == Elems(T, S, h)[k := Elems(T, S, h)[k][..m] + Elems(T, S, h)[k][m + 1..]]
      && Occupied(T') == Occupied(T) - {S[k][m]}
  {
    var cs := S[k];
    assert ChainOk(T, cs, k, h);
    var cs' := cs[..m] + cs[m + 1..];
    var S' := S[k := cs'];
    UnlinkedKeeps(T, T', cs, k, h, m);
    UnlinkedChain(T, T', cs, k, h, m);
    OthersKept(T, T', S, h, k);
    ElemsUpdate(T, T', S, h, k, cs');
    assert Elems(T, S, h)[k] == Chain(T, cs);
    ChainShrinks(S, k, m);
    ShrunkCovered(T, S, h, k, m);
    Freed(T, T', S, S', h, cs[m]);
  }

  /** The slots unlinking rewrites are the unlinked one and its neighbours in its chain. */
  lemma UnlinkedKeeps<E, I, K>(T: seq<Entry<E>>, T': seq<Entry<E>>, cs: seq<nat>, k: K, h: Hasher<E, I, K>, m: nat)
    requires ChainOk(T, cs, k, h) && 0 < m < |cs| && |T'| == |T|
    requires T'[cs[m]] == FreeEntry()
    requires T'[cs[m - 1]] == T[cs[m - 1]].(next := if m + 1 < |cs| then Some(cs[m + 1]) else None)
    requires m + 1 < |cs| ==> T'[cs[m + 1]] == T[cs[m + 1]].(prev := Some(cs[m - 1]))
    requires forall y :: 0 <= y < |T| && y != cs[m] && y != cs[m - 1] && (m + 1 < |cs| ==> y != cs[m + 1]) ==> T'[y] == T[y]
    ensures forall n :: 0 <= n < |cs| && n + 1 != m && n != m && n != m + 1 ==> T'[cs[n]] == T[cs[n]]
    ensures forall y :: 0 <= y < |T| && T'[y] != T[y] ==> !Used(T, y) || KeyAt(T, h, y) == k
    ensures forall y :: 0 <= y < |T| && y != cs[m] ==> T'[y].ptr == T[y].ptr && T'[y].hashCache == T[y].hashCache
    ensures cs[m] < |T| && !Used(T', cs[m])
  {
    forall n | 0 <= n < |cs| && n + 1 != m && n != m && n != m + 1
      ensures T'[cs[n]] == T[cs[n]]
    {
      assert Used(T, cs[n]) && cs[n] != cs[m] && cs[n] != cs[m - 1];
      if m + 1 < |cs| { assert cs[n] != cs[m + 1]; }
    }
    assert Used(T, cs[m]) && Used(T, cs[m - 1]) && KeyAt(T, h, cs[m - 1]) == k;
    if m + 1 < |cs| { assert Used(T, cs[m + 1]) && KeyAt(T, h, cs[m + 1]) == k; }
    forall y | 0 <= y < |T| && y != cs[m]
      ensures T'[y].ptr == T[y].ptr && T'[y].hashCache == T[y].hashCache
    {
      if y == cs[m - 1] {
      } else if m + 1 < |cs| && y == cs[m + 1] {
      }
    }
  }

  /** Every occupied slot but the removed one is still in the chain of its key. */
  lemma ShrunkCovered<E, I, K>(T: seq<Entry<E>>, S: map<K, seq<nat>>, h: Hasher<E, I, K>, k: K, m: nat)
    requires Covered(T, S, h) && k in S && m < |S[k]| && Used(T, S[k][m]) && KeyAt(T, h, S[k][m]) == k
    requires var S' := S[k := S[k][..m] + S[k][m + 1..]];
      forall k2, y :: k2 in S && y in S[k2] && (k2 != k || y != S[k][m]) ==> k2 in S' && y in S'[k2]
    ensures var S' := S[k := S[k][..m] + S[k][m + 1..]];
      forall y :: Used(T, y) && y != S[k][m] ==> KeyAt(T, h, y) in S' && y in S'[KeyAt(T, h, y)]
  {
  }

  /** Removing the `m`-th slot from the chain of `k` keeps every other slot of every chain. */
  lemma ChainShrinks<K>(S: map<K, seq<nat>>, k: K, m: nat)
    requires k in S && m < |S[k]|
    ensures var S' := S[k := S[k][..m] + S[k][m + 1..]];
      forall k2, y :: k2 in S && y in S[k2] && (k2 != k || y != S[k][m]) ==> k2 in S' && y in S'[k2]
  {
    var cs := S[k];
    var S' := S[k := cs[..m] + cs[m + 1..]];
    forall k2, y | k2 in S && y in S[k2] && (k2 != k || y != cs[m])
      ensures k2 in S' && y in S'[k2]
    {
      if k2 == k {
        var n :| 0 <= n < |cs| && cs[n] == y;
        if n < m { assert (cs[..m] + cs[m + 1..])[n] == y; } else { assert (cs[..m] + cs[m + 1..])[n - 1] == y; }
      }
    }
  }

  lemma UnlinkedUsed<E, I, K>(T: seq<Entry<E>>, T': seq<Entry<E>>, cs: seq<nat>, k: K, h: Hasher<E, I, K>, m: nat)
    requires ChainOk(T, cs, k, h) && 0 < m < |cs| && |T'| == |T|
    requires T'[cs[m - 1]] == T[cs[m - 1]].(next := if m + 1 < |cs| then Some(cs[m + 1]) else None)
    requires m + 1 < |cs| ==> T'[cs[m + 1]] == T[cs[m + 1]].(prev := Some(cs[m - 1]))
    requires forall n :: 0 <= n < |cs| && n + 1 != m && n != m && n != m + 1 ==> T'[cs[n]] == T[cs[n]]
    ensures var cs' := cs[..m] + cs[m + 1..];
      && (forall n :: 0 <= n < |cs'| ==> Used(T', cs'[n]) && Used(T, cs'[n]) && KeyAt(T', h, cs'[n]) == k && T'[cs'[n]].ptr == T[cs'[n]].ptr)
      && (forall n :: 0 <= n < |cs'| ==> cs'[n] < |T'| && T'[cs'[n]].ptr.Some?)
      && Distinct(cs')
  {
    var cs' := cs[..m] + cs[m + 1..];
    assert forall n :: 0 <= n < m ==> cs'[n] == cs[n];
    assert forall n :: m <= n < |cs'| ==> cs'[n] == cs[n + 1];
    forall n | 0 <= n < |cs'|
      ensures Used(T', cs'[n]) && Used(T, cs'[n]) && KeyAt(T', h, cs'[n]) == k && T'[cs'[n]].ptr == T[cs'[n]].ptr
    {
      var n0 := if n < m then n else n + 1;
      assert cs'[n] == cs[n0] && Used(T, cs[n0]);
      if n0 + 1 != m && n0 != m + 1 {
        assert T'[cs[n0]] == T[cs[n0]];
      }
    }
    forall a, b | 0 <= a < b < |cs'|
      ensures cs'[a] != cs'[b]
    {
      var a0 := if a < m then a else a + 1;
      var b0 := if b < m then b else b + 1;
      assert cs'[a] == cs[a0] && cs'[b] == cs[b0];
    }
  }

  lemma UnlinkedLinks<E, I, K>(T: seq<Entry<E>>, T': seq<Entry<E>>, cs: seq<nat>, k: K, h: Hasher<E, I, K>, m: nat)
    requires ChainOk(T, cs, k, h) && 0 < m < |cs| && |T'| == |T|
    requires T'[cs[m - 1]] == T[cs[m - 1]].(next := if m + 1 < |cs| then Some(cs[m + 1]) else None)
    requires m + 1 < |cs| ==> T'[cs[m + 1]] == T[cs[m + 1]].(prev := Some(cs[m - 1]))
    requires forall n :: 0 <= n < |cs| && n + 1 != m && n != m && n != m + 1 ==> T'[cs[n]] == T[cs[n]]
    requires var cs' := cs[..m] + cs[m + 1..];
      forall n :: 0 <= n < |cs'| ==> Used(T', cs'[n]) && T'[cs'[n]].ptr == T[cs'[n]].ptr
    ensures var cs' := cs[..m] + cs[m + 1..];
      && T'[cs'[0]].prev == None && T'[cs'[0]].hashCache == h.hashKey(k)
      && (forall n :: 0 < n < |cs'| ==>
            T'[cs'[n]].prev == Some(cs'[n - 1]) && T'[cs'[n]].hashCache == HashElement(h, T'[cs'[n]].ptr.value, false))
      && (forall n :: 0 <= n < |cs'| - 1 ==> T'[cs'[n]].next == Some(cs'[n + 1]))
      && T'[cs'[|cs'| - 1]].next == None
  {
    var cs' := cs[..m] + cs[m + 1..];
    assert forall n :: 0 <= n < m ==> cs'[n] == cs[n];
    assert forall n :: m <= n < |cs'| ==> cs'[n] == cs[n + 1];
    assert T'[cs'[0]].prev == None && T'[cs'[0]].hashCache == h.hashKey(k) by {
      if m != 1 { assert T'[cs[0]] == T[cs[0]]; }
    }
    forall n | 0 < n < |cs'|
      ensures T'[cs'[n]].prev == Some(cs'[n - 1]) && T'[cs'[n]].hashCache == HashElement(h, T'[cs'[n]].ptr.value, false)
    {
      var n0 := if n < m then n else n + 1;
      assert cs'[n] == cs[n0];
      if n0 + 1 != m && n0 != m + 1 {
        assert T'[cs[n0]] == T[cs[n0]];
      }
      if n0 == m + 1 { assert cs'[n - 1] == cs[m - 1]; } else { assert cs'[n - 1] == cs[n0 - 1]; }
    }
    forall n | 0 <= n < |cs'| - 1
      ensures T'[cs'[n]].next == Some(cs'[n + 1])
    {
      var n0 := if n < m then n else n + 1;
      assert cs'[n] == cs[n0];
      if n0 + 1 != m && n0 != m + 1 {
        assert T'[cs[n0]] == T[cs[n0]];
      }
      if n0 == m - 1 { assert cs'[n + 1] == cs[m + 1]; } else { assert cs'[n + 1] == cs[n0 + 1]; }
    }
    var l := |cs'| - 1;
    var l0 := if l < m then l else l + 1;
    assert cs'[l] == cs[l0];
    if l0 + 1 != m && l0 != m + 1 {
      assert T'[cs[l0]] == T[cs[l0]];
    }
  }

  /**
   * The head branch of `remove` when the head in slot `x` has a successor: the successor
   * loses its predecessor, moves into slot `x`, and caches the key hash there as the new head.
   */
  function Promoted<E, I, K>(T: seq<Entry<E>>, h: Hasher<E, I, K>, x: nat): (r: seq<Entry<E>>)
    requires x < |T| && T[x].next.Some? && T[x].next.value < |T| && T[x].next.value != x && T[T[x].next.value].ptr.Some?
    requires T[T[x].next.value].next.Some? ==> T[T[x].next.value].next.value < |T|
    ensures |r| == |T|
  {
    var j := T[x].next.value;
    var T1 := T[j := T[j].(prev := None)];
    var T2 := Moved(T1, j, x);
    assert T2[x].ptr == T[j].ptr;
    T2[x := T2[x].(hashCache := HashElement(h, T2[x].ptr.value, true))]
  }

  /** Promoting the second slot of a chain into the head slot, slot by slot. */
  lemma PromotedAt<E, I, K>(T: seq<Entry<E>>, cs: seq<nat>, k: K, h: Hasher<E, I, K>)
    requires ChainOk(T, cs, k, h) && 1 < |cs|
    ensures cs[0] < |T| && T[cs[0]].next == Some(cs[1]) && cs[1] < |T| && cs[1] != cs[0] && T[cs[1]].ptr.Some?
    ensures T[cs[1]].next.Some? ==> T[cs[1]].next.value < |T|
    ensures var T' := Promoted(T, h, cs[0]);
      && T'[cs[0]] == Entry(h.hashKey(k), T[cs[1]].ptr, if 2 < |cs| then Some(cs[2]) else None, None)
      && T'[cs[1]] == FreeEntry()
      && (2 < |cs| ==> T'[cs[2]] == T[cs[2]].(prev := Some(cs[0])))
      && (forall y :: 0 <= y < |T| && y != cs[0] && y != cs[1] && (2 < |cs| ==> y != cs[2]) ==> T'[y] == T[y])
  {
    LinksInRange(T, cs, k, h, 0);
    LinksInRange(T, cs, k, h, 1);
    assert Used(T, cs[0]) && Used(T, cs[1]) && cs[0] != cs[1] && KeyAt(T, h, cs[1]) == k;
    if 2 < |cs| { assert Used(T, cs[2]) && cs[2] != cs[0] && cs[2] != cs[1]; }
  }

  /** A chain whose second slot was promoted into its head slot lists the old chain without its head. */
  lemma PromotedChain<E, I, K>(T: seq<Entry<E>>, T': seq<Entry<E>>, cs: seq<nat>, k: K, h: Hasher<E, I, K>)
    requires ChainOk(T, cs, k, h) && 1 < |cs| && |T'| == |T|
    requires T'[cs[0]] == Entry(h.hashKey(k), T[cs[1]].ptr, if 2 < |cs| then Some(cs[2]) else None, None)
    requires 2 < |cs| ==> T'[cs[2]] == T[cs[2]].(prev := Some(cs[0]))
    requires forall n :: 3 <= n < |cs| ==> T'[cs[n]] == T[cs[n]]
    ensures ChainOk(T', [cs[0]] + cs[2..], k, h)
    ensures Chain(T', [cs[0]] + cs[2..]) == Chain(T, cs)[1..]
  {
    PromotedChainOk(T, T', cs, k, h);
    var cs' := [cs[0]] + cs[2..];
    var A, B := Chain(T', cs'), Chain(T, cs)[1..];
    forall n | 0 <= n < |A|
      ensures A[n] == B[n]
    {
    }
    assert A == B;
  }

  lemma PromotedChainOk<E, I, K>(T: seq<Entry<E>>, T': seq<Entry<E>>, cs: seq<nat>, k: K, h: Hasher<E, I, K>)
    requires ChainOk(T, cs, k, h) && 1 < |cs| && |T'| == |T|
    requires T'[cs[0]] == Entry(h.hashKey(k), T[cs[1]].ptr, if 2 < |cs| then Some(cs[2]) else None, None)
    requires 2 < |cs| ==> T'[cs[2]] == T[cs[2]].(prev := Some(cs[0]))
    requires forall n :: 3 <= n < |cs| ==> T'[cs[n]] == T[cs[n]]
    ensures ChainOk(T', [cs[0]] + cs[2..], k, h)
    ensures var cs' := [cs[0]] + cs[2..];
      forall n :: 0 <= n < |cs'| ==> Used(T', cs'[n]) && Used(T, cs[n + 1]) && T'[cs'[n]].ptr == T[cs[n + 1]].ptr
  {
    var cs' := [cs[0]] + cs[2..];
    assert forall n :: 1 <= n < |cs'| ==> cs'[n] == cs[n + 1];
    assert Used(T, cs[1]) && KeyAt(T, h, cs[1]) == k;
    forall n | 0 <= n < |cs'|
      ensures Used(T', cs'[n]) && KeyAt(T', h, cs'[n]) == k && cs'[n] < |T'| && T'[cs'[n]].ptr.Some?
      ensures Used(T, cs[n + 1]) && T'[cs'[n]].ptr == T[cs[n + 1]].ptr
    {
      if n > 0 { assert cs'[n] == cs[n + 1] && Used(T, cs[n + 1]); }
    }
    forall a, b | 0 <= a < b < |cs'|
      ensures cs'[a] != cs'[b]
    {
      if a > 0 { assert cs'[a] == cs[a + 1]; }
      assert cs'[b] == cs[b + 1];
    }
    forall n | 0 < n < |cs'|
      ensures T'[cs'[n]].prev == Some(cs'[n - 1]) && T'[cs'[n]].hashCache == HashElement(h, T'[cs'[n]].ptr.value, false)
    {
      assert cs'[n] == cs[n + 1];
      if n > 1 { assert cs'[n - 1] == cs[n]; }
    }
    forall n | 0 <= n < |cs'| - 1
      ensures T'[cs'[n]].next == Some(cs'[n + 1])
    {
      assert cs'[n + 1] == cs[n + 2];
      if n > 0 { assert cs'[n] == cs[n + 1]; }
    }
    assert T'[cs'[|cs'| - 1]].next == None by {
      var l := |cs'| - 1;
      if l > 0 { assert cs'[l] == cs[l + 1]; }
    }
    ChainOkIntro(T', cs', k, h);
  }

  /**
   * Removing the head of a chain that has a successor moves the successor into the head
   * slot as the new head and frees the successor's old slot, which becomes the hole; the
   * chain loses its first element.
   */
  lemma RemoveHeadOk<E, I, K>(T: seq<Entry<E>>, S: map<K, seq<nat>>, h: Hasher<E, I, K>, x: nat)
    requires TableOk(T, S, h) && Used(T, x) && T[x].prev.None? && T[x].next.Some?
    ensures KeyAt(T, h, x) in S && 1 < |S[KeyAt(T, h, x)]| && S[KeyAt(T, h, x)][0] == x
    ensures T[x].next.value < |T| && T[x].next.value != x && T[T[x].next.value].ptr.Some?
    ensures T[T[x].next.value].next.Some? ==> T[T[x].next.value].next.value < |T|
    ensures var k := KeyAt(T, h, x);
      var j := T[x].next.value;
      var T' := Promoted(T, h, x);
      var S' := S[k := [x] + S[k][2..]];
      && ChainsOk(T', S', h) && Covered(T', S', h) && UniqueIds(T', h)
      && !Used(T', j) && Reachable(T', j)
      && Elems(T', S', h) == Elems(T, S, h)[k := Elems(T, S, h)[k][1..]]
      && Occupied(T') == Occupied(T) - {j}
  {
    var k := KeyAt(T, h, x);
    ChainSlot(T, S, h, x);
    var cs := S[k];
    assert ChainOk(T, cs, k, h);
    LinksInRange(T, cs, k, h, 0);
    PromotedAt(T, cs, k, h);
    PromotedState(T, Promoted(T, h, x), S, h, k);
  }

  /** `RemoveHeadOk` for the table after the promotion, described slot by slot. */
  lemma PromotedState<E, I, K>(T: seq<Entry<E>>, T': seq<Entry<E>>, S: map<K, seq<nat>>, h: Hasher<E, I, K>, k: K)
    requires TableOk(T, S, h) && k in S && 1 < |S[k]| && |T'| == |T|
    requires var cs := S[k];
      && T'[cs[0]] == Entry(h.hashKey(k), T[cs[1]].ptr, if 2 < |cs| then Some(cs[2]) else None, None)
      && T'[cs[1]] == FreeEntry()
      && (2 < |cs| ==> T'[cs[2]] == T[cs[2]].(prev := Some(cs[0])))
      && (forall y :: 0 <= y < |T| && y != cs[0] && y != cs[1] && (2 < |cs| ==> y != cs[2]) ==> T'[y] == T[y])
    ensures var S' := S[k := [S[k][0]] + S[k][2..]];
      && ChainsOk(T', S', h) && Covered(T', S', h) && UniqueIds(T', h)
      && !Used(T', S[k][1]) && Reachable(T', S[k][1])
      && Elems(T', S', h) == Elems(T, S, h)[k := Elems(T, S, h)[k][1..]]
      && Occupied(T') == Occupied(T) - {S[k][1]}
  {
    var cs := S[k];
    assert ChainOk(T, cs, k, h);
    var cs' := [cs[0]] + cs[2..];
    PromotedKeeps(T, T', cs, k, h);
    PromotedChain(T, T', cs, k, h);
    OthersKept(T, T', S, h, k);
    ElemsUpdate(T, T', S, h, k, cs');
    assert Elems(T, S, h)[k] == Chain(T, cs);
    PromotedRest(T, T', S, h, k);
  }

  /** The slots a promotion rewrites are the first three of the chain. */
  lemma PromotedKeeps<E, I, K>(T: seq<Entry<E>>, T': seq<Entry<E>>, cs: seq<nat>, k: K, h: Hasher<E, I, K>)
    requires ChainOk(T, cs, k, h) && 1 < |cs| && |T'| == |T|
    requires T'[cs[0]] == Entry(h.hashKey(k), T[cs[1]].ptr, if 2 < |cs| then Some(cs[2]) else None, None)
    requires T'[cs[1]] == FreeEntry()
    requires 2 < |cs| ==> T'[cs[2]] == T[cs[2]].(prev := Some(cs[0]))
    requires forall y :: 0 <= y < |T| && y != cs[0] && y != cs[1] && (2 < |cs| ==> y != cs[2]) ==> T'[y] == T[y]
    ensures forall n :: 3 <= n < |cs| ==> T'[cs[n]] == T[cs[n]]
    ensures forall y :: 0 <= y < |T| && T'[y] != T[y] ==> !Used(T, y) || KeyAt(T, h, y) == k
    ensures cs[0] < |T| && cs[1] < |T| && T'[cs[0]].ptr == T[cs[1]].ptr && T'[cs[0]].hashCache == T[cs[0]].hashCache
    ensures forall y :: 0 <= y < |T| && y != cs[0] && y != cs[1] ==> T'[y].ptr == T[y].ptr && T'[y].hashCache == T[y].hashCache
  {
    forall n | 3 <= n < |cs|
      ensures T'[cs[n]] == T[cs[n]]
    {
      assert Used(T, cs[n]) && cs[n] != cs[0] && cs[n] != cs[1] && cs[n] != cs[2];
    }
    assert Used(T, cs[0]) && Used(T, cs[1]) && KeyAt(T, h, cs[0]) == k && KeyAt(T, h, cs[1]) == k;
    if 2 < |cs| { assert Used(T, cs[2]) && KeyAt(T, h, cs[2]) == k; }
    forall y | 0 <= y < |T| && y != cs[0] && y != cs[1]
      ensures T'[y].ptr == T[y].ptr && T'[y].hashCache == T[y].hashCache
    {
      if 2 < |cs| && y == cs[2] {
      }
    }
  }

  /** After a promotion every element is covered and unique, and the successor's old slot is the only hole. */
  lemma PromotedRest<E, I, K>(T: seq<Entry<E>>, T': seq<Entry<E>>, S: map<K, seq<nat>>, h: Hasher<E, I, K>, k: K)
    requires TableOk(T, S, h) && k in S && 1 < |S[k]| && |T'| == |T|
    requires var cs := S[k];
      && cs[0] < |T| && cs[1] < |T| && cs[0] != cs[1] && !Used(T', cs[1])
      && T'[cs[0]].ptr == T[cs[1]].ptr && T'[cs[0]].hashCache == T[cs[0]].hashCache
      && (forall y :: 0 <= y < |T| && y != cs[0] && y != cs[1] ==> T'[y].ptr == T[y].ptr && T'[y].hashCache == T[y].hashCache)
    ensures var S' := S[k := [S[k][0]] + S[k][2..]];
      && Covered(T', S', h) && UniqueIds(T', h) && Reachable(T', S[k][1])
      && Occupied(T') == Occupied(T) - {S[k][1]}
  {
    PromotedCovered(T, T', S, h, k);
    PromotedUnique(T, T', S, h, k);
    PromotedReachable(T, T', S, h, k);
  }

  /** After a promotion every element lies in the chain of its key. */
  lemma PromotedCovered<E, I, K>(T: seq<Entry<E>>, T': seq<Entry<E>>, S: map<K, seq<nat>>, h: Hasher<E, I, K>, k: K)
    requires TableOk(T, S, h) && k in S && 1 < |S[k]| && |T'| == |T|
    requires var cs := S[k];
      && cs[0] < |T| && cs[1] < |T| && cs[0] != cs[1] && !Used(T', cs[1])
      && T'[cs[0]].ptr == T[cs[1]].ptr && T'[cs[0]].hashCache == T[cs[0]].hashCache
      && (forall y :: 0 <= y < |T| && y != cs[0] && y != cs[1] ==> T'[y].ptr == T[y].ptr && T'[y].hashCache == T[y].hashCache)
    ensures Covered(T', S[k := [S[k][0]] + S[k][2..]], h)
  {
    var cs := S[k];
    assert ChainOk(T, cs, k, h);
    var x, j := cs[0], cs[1];
    var cs' := [x] + cs[2..];
    var S' := S[k := cs'];
    assert Used(T, x) && Used(T, j) && KeyAt(T, h, j) == k;
    forall y | Used(T', y)
      ensures KeyAt(T', h, y) in S' && y in S'[KeyAt(T', h, y)]
    {
      if y == x {
        assert cs'[0] == x;
      } else {
        assert y != j && Used(T, y) && KeyAt(T', h, y) == KeyAt(T, h, y);
        var k' := KeyAt(T, h, y);
        if k' == k {
          var n :| 0 <= n < |cs| && cs[n] == y;
          assert n >= 2 && cs'[n - 1] == y;
        } else {
          assert S'[k'] == S[k'];
        }
      }
    }
  }

  /** After a promotion no two elements are equal. */
  lemma PromotedUnique<E, I, K>(T: seq<Entry<E>>, T': seq<Entry<E>>, S: map<K, seq<nat>>, h: Hasher<E, I, K>, k: K)
    requires TableOk(T, S, h) && k in S && 1 < |S[k]| && |T'| == |T|
    requires var cs := S[k];
      && cs[0] < |T| && cs[1] < |T| && cs[0] != cs[1] && !Used(T', cs[1])
      && T'[cs[0]].ptr == T[cs[1]].ptr && T'[cs[0]].hashCache == T[cs[0]].hashCache
      && (forall y :: 0 <= y < |T| && y != cs[0] && y != cs[1] ==> T'[y].ptr == T[y].ptr && T'[y].hashCache == T[y].hashCache)
    ensures UniqueIds(T', h)
  {
    var cs := S[k];
    assert ChainOk(T, cs, k, h);
    var x, j := cs[0], cs[1];
    forall y, z | Used(T', y) && Used(T', z) && y != z
      ensures IdAt(T', h, y) != IdAt(T', h, z)
    {
      var y0 := if y == x then j else y;
      var z0 := if z == x then j else z;
      Apart(T, h, y0, z0);
    }
  }

  /** After a promotion every element is reachable, with the successor's old slot as the hole. */
  lemma PromotedReachable<E, I, K>(T: seq<Entry<E>>, T': seq<Entry<E>>, S: map<K, seq<nat>>, h: Hasher<E, I, K>, k: K)
    requires TableOk(T, S, h) && k in S && 1 < |S[k]| && |T'| == |T|
    requires var cs := S[k];
      && cs[0] < |T| && cs[1] < |T| && cs[0] != cs[1] && !Used(T', cs[1])
      && T'[cs[0]].ptr == T[cs[1]].ptr && T'[cs[0]].hashCache == T[cs[0]].hashCache
      && (forall y :: 0 <= y < |T| && y != cs[0] && y != cs[1] ==> T'[y].ptr == T[y].ptr && T'[y].hashCache == T[y].hashCache)
    ensures Reachable(T', S[k][1]) && Occupied(T') == Occupied(T) - {S[k][1]}
  {
    var cs := S[k];
    assert ChainOk(T, cs, k, h);
    var j := cs[1];
    forall x1 | Used(T', x1)
      ensures RunUsed(T', HomeOf(T', x1), x1, j)
    {
      assert Used(T, x1) && HomeOf(T', x1) == HomeOf(T, x1) && RunUsed(T, HomeOf(T, x1), x1, -1);
    }
    assert Occupied(T') == Occupied(T) - {j};
  }

  // ---------------------------------------------------------------------------------------
  // healHole
  // ---------------------------------------------------------------------------------------

  /**
   * No element whose probe run passes the hole `i` lies strictly between `i` and `j`:
   * those elements are the ones `healHole` has yet to look at.
   */
  ghost predicate Frontier<E>(T: seq<Entry<E>>, i: nat, j: nat)
    requires i < |T| && j < |T|
  {
    forall z :: Used(T, z) && Dist(HomeOf(T, z), i, |T|) < Dist(HomeOf(T, z), z, |T|) ==> Dist(i, j, |T|) <= Dist(i, z, |T|)
  }

  /**
   * The invariant of the loop of `healHole`: the chains are intact, slot `i` is the hole,
   * every element is reachable from its home slot except that its run may cross the hole,
   * slot `j` is the next to look at, and `e` is another free slot, which bounds the scan.
   */
  ghost predicate HealInv<E, I, K>(T: seq<Entry<E>>, S: map<K, seq<nat>>, h: Hasher<E, I, K>, i: nat, j: nat, e: nat)
  {
    && 0 < |T| && i < |T| && j < |T| && e < |T|
    && ChainsOk(T, S, h) && Covered(T, S, h) && UniqueIds(T, h)
    && !Used(T, i) && !Used(T, e) && e != i
    && 0 < Dist(i, j, |T|) <= Dist(i, e, |T|)
    && Reachable(T, i)
    && Frontier(T, i, j)
  }

  /** The state a removal leaves: intact chains, one hole, and one more free slot. */
  lemma HealInit<E, I, K>(T: seq<Entry<E>>, S: map<K, seq<nat>>, h: Hasher<E, I, K>, i: nat, e: nat)
    requires 0 < |T| && i < |T| && e < |T| && e != i
    requires ChainsOk(T, S, h) && Covered(T, S, h) && UniqueIds(T, h)
    requires !Used(T, i) && !Used(T, e) && Reachable(T, i)
    ensures HealInv(T, S, h, i, Incr(i, |T|), e)
  {
    var n := |T|;
    assert Dist(i, Incr(i, n), n) == 1;
    forall z | Used(T, z) && Dist(HomeOf(T, z), i, n) < Dist(HomeOf(T, z), z, n)
      ensures Dist(i, Incr(i, n), n) <= Dist(i, z, n)
    {
      assert z != i;
    }
  }

  /** An element whose run passes the hole `i` lies beyond `j`, so its run passes `j`. */
  lemma PastHole<E>(T: seq<Entry<E>>, i: nat, j: nat, x: nat)
    requires i < |T| && j < |T| && Used(T, x)
    requires 0 < Dist(i, j, |T|) && RunUsed(T, HomeOf(T, x), x, i) && Frontier(T, i, j)
    ensures Dist(HomeOf(T, x), i, |T|) < Dist(HomeOf(T, x), x, |T|) ==> Used(T, j)
  {
    var n, s := |T|, HomeOf(T, x);
    if Dist(s, i, n) < Dist(s, x, n) && x != j {
      assert Dist(i, j, n) <= Dist(i, x, n);
      DistInjective(i, j, x, n);
      DistAdd(s, i, x, n);
      assert Dist(s, i, n) + Dist(i, x, n) == Dist(s, x, n);
      DistAdd(s, i, j, n);
      assert Dist(s, j, n) < Dist(s, x, n);
    }
  }

  /** When `healHole` meets a free slot, every element is reachable again. */
  lemma HealExit<E, I, K>(T: seq<Entry<E>>, S: map<K, seq<nat>>, h: Hasher<E, I, K>, i: nat, j: nat, e: nat)
    requires HealInv(T, S, h, i, j, e) && !Used(T, j)
    ensures TableOk(T, S, h)
  {
    var n := |T|;
    forall x | Used(T, x)
      ensures RunUsed(T, HomeOf(T, x), x, -1)
    {
      var s := HomeOf(T, x);
      PastHole(T, i, j, x);
      forall y | 0 <= y < n && Dist(s, y, n) < Dist(s, x, n)
        ensures Used(T, y)
      {
      }
    }
  }

  /** Leaving in place an element whose home lies after the hole keeps the invariant and shortens the scan. */
  lemma HealKeep<E, I, K>(T: seq<Entry<E>>, S: map<K, seq<nat>>, h: Hasher<E, I, K>, i: nat, j: nat, e: nat)
    requires HealInv(T, S, h, i, j, e) && Used(T, j) && IsBetween(i, HomeOf(T, j), j)
    ensures HealInv(T, S, h, i, Incr(j, |T|), e)
    ensures Dist(Incr(j, |T|), e, |T|) < Dist(j, e, |T|)
  {
    var n, k := |T|, HomeOf(T, j);
    DistInjective(i, j, e, n);
    IncrDist(i, j, n);
    IsBetweenDist(i, k, j, n);
    DistAdd(i, k, j, n);
    assert Dist(k, i, n) >= Dist(k, j, n);
    forall z | Used(T, z) && Dist(HomeOf(T, z), i, n) < Dist(HomeOf(T, z), z, n)
      ensures Dist(i, Incr(j, n), n) <= Dist(i, z, n)
    {
      DistInjective(i, j, z, n);
    }
  }

  /**
   * Moving into the hole an element whose home does not lie after the hole keeps the
   * invariant with the hole now at the element's old slot, keeps the contents, and shortens
   * the scan.
   */
  lemma HealMove<E, I, K>(T: seq<Entry<E>>, S: map<K, seq<nat>>, h: Hasher<E, I, K>, i: nat, j: nat, e: nat) returns (m: nat)
    requires HealInv(T, S, h, i, j, e) && Used(T, j) && !IsBetween(i, HomeOf(T, j), j)
    ensures KeyAt(T, h, j) in S && m < |S[KeyAt(T, h, j)]| && S[KeyAt(T, h, j)][m] == j
    ensures T[j].prev.Some? ==> T[j].prev.value < |T|
    ensures T[j].next.Some? ==> T[j].next.value < |T|
    ensures var k := KeyAt(T, h, j);
      var T' := Moved(T, j, i);
      var cs': seq<nat> := S[k][m := i];
      var S' := S[k := cs'];
      && HealInv(T', S', h, j, Incr(j, |T|), e)
      && Elems(T', S', h) == Elems(T, S, h)
      && Occupied(T') == Occupied(T) - {j} + {i}
    ensures Dist(Incr(j, |T|), e, |T|) < Dist(j, e, |T|)
  {
    m := MoveOk(T, S, h, j, i);
    HealMoved(T, Moved(T, j, i), i, j, e);
  }

  /** `HealMove` for the slots' elements and cached hashes after the move. */
  lemma HealMoved<E>(T: seq<Entry<E>>, T': seq<Entry<E>>, i: nat, j: nat, e: nat)
    requires 0 < |T| == |T'| && i < |T| && j < |T| && e < |T|
    requires !Used(T, i) && !Used(T, e) && e != i && Used(T, j)
    requires 0 < Dist(i, j, |T|) <= Dist(i, e, |T|)
    requires Reachable(T, i) && !IsBetween(i, HomeOf(T, j), j)
    requires T'[i].ptr == T[j].ptr && T'[i].hashCache == T[j].hashCache && !Used(T', j)
    requires forall y :: 0 <= y < |T| && y != i && y != j ==> T'[y].ptr == T[y].ptr && T'[y].hashCache == T[y].hashCache
    ensures Reachable(T', j) && Frontier(T', j, Incr(j, |T|))
    ensures !Used(T', e) && 0 < Dist(j, Incr(j, |T|), |T|) <= Dist(j, e, |T|)
    ensures Dist(Incr(j, |T|), e, |T|) < Dist(j, e, |T|)
  {
    var n, k := |T|, HomeOf(T, j);
    DistInjective(i, j, e, n);
    IsBetweenDist(i, k, j, n);
    forall x | Used(T', x)
      ensures RunUsed(T', HomeOf(T', x), x, j)
    {
      if x == i {
        assert HomeOf(T', i) == k;
        if k != i {
          DistAdd(k, i, j, n);
        }
        forall y | 0 <= y < n && Dist(k, y, n) < Dist(k, i, n)
          ensures Used(T', y) || y == j
        {
          DistInjective(k, y, i, n);
          DistInjective(k, y, j, n);
        }
      } else {
        assert Used(T, x) && HomeOf(T', x) == HomeOf(T, x);
      }
    }
    assert Dist(j, Incr(j, n), n) == 1;
  }

  /**
   * The state a removal leaves before `healHole`: intact chains covering the occupied slots,
   * the single hole `x`, contents `M`, `n` occupied slots and at least two free ones.
   */
  ghost predicate Holed<E, I, K>(T: seq<Entry<E>>, S: map<K, seq<nat>>, h: Hasher<E, I, K>, x: nat, M: map<K, seq<E>>, n: int)
  {
    && x < |T|
    && ChainsOk(T, S, h) && Covered(T, S, h) && UniqueIds(T, h)
    && !Used(T, x) && Reachable(T, x)
    && |Occupied(T)| == n && n + 1 < |T|
    && Elems(T, S, h) == M
  }

  /** `RemoveLoneOk` as the state it leaves. */
  lemma LoneHoled<E, I, K>(T: seq<Entry<E>>, S: map<K, seq<nat>>, h: Hasher<E, I, K>, x: nat)
    requires TableOk(T, S, h) && |Occupied(T)| < |T| && Used(T, x) && T[x].prev.None? && T[x].next.None?
    ensures var k := KeyAt(T, h, x);
      && k in S && S[k] == [x]
      && Holed(T[x := FreeEntry()], S - {k}, h, x, Elems(T, S, h) - {k}, |Occupied(T)| - 1)
  {
    RemoveLoneOk(T, S, h, x);
    assert x in Occupied(T);
    assert |Occupied(T) - {x}| == |Occupied(T)| - 1;
  }

  /** `RemoveHeadOk` as the state it leaves, with the hole in the successor's old slot. */
  lemma HeadHoled<E, I, K>(T: seq<Entry<E>>, S: map<K, seq<nat>>, h: Hasher<E, I, K>, x: nat)
    requires TableOk(T, S, h) && |Occupied(T)| < |T| && Used(T, x) && T[x].prev.None? && T[x].next.Some?
    ensures KeyAt(T, h, x) in S && 1 < |S[KeyAt(T, h, x)]| && S[KeyAt(T, h, x)][0] == x
    ensures T[x].next.value < |T| && T[x].next.value != x && T[T[x].next.value].ptr.Some?
    ensures T[T[x].next.value].next.Some? ==> T[T[x].next.value].next.value < |T|
    ensures var k := KeyAt(T, h, x);
      var M := Elems(T, S, h);
      Holed(Promoted(T, h, x), S[k := [x] + S[k][2..]], h, T[x].next.value, M[k := M[k][1..]], |Occupied(T)| - 1)
  {
    RemoveHeadOk(T, S, h, x);
    var j := T[x].next.value;
    assert j in Occupied(T);
    assert |Occupied(T) - {j}| == |Occupied(T)| - 1;
  }

  /** `RemoveMemberOk` as the state it leaves, for the slot `x` at position `p` of its chain. */
  lemma MemberHoled<E, I, K>(T: seq<Entry<E>>, S: map<K, seq<nat>>, h: Hasher<E, I, K>, x: nat, p: nat)
    requires TableOk(T, S, h) && |Occupied(T)| < |T| && Used(T, x) && T[x].prev.Some?
    requires KeyAt(T, h, x) in S && p < |S[KeyAt(T, h, x)]| && S[KeyAt(T, h, x)][p] == x
    ensures 0 < p && T[x].prev.value < |T| && (T[x].next.Some? ==> T[x].next.value < |T|)
    ensures var k := KeyAt(T, h, x);
      var M := Elems(T, S, h);
      var cs' := S[k][..p] + S[k][p + 1..];
      Holed(Unlinked(T, x), S[k := cs'], h, x, M[k := M[k][..p] + M[k][p + 1..]], |Occupied(T)| - 1)
  {
    var k := KeyAt(T, h, x);
    var m := RemoveMemberOk(T, S, h, x);
    assert ChainOk(T, S[k], k, h);
    assert m == p;
    assert x in Occupied(T);
    assert |Occupied(T) - {x}| == |Occupied(T)| - 1;
  }
}
