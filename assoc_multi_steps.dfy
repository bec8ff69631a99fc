/**
 * What each write of `AssocMulti` (lib/Basics/AssocMulti.h) does to the invariant of a
 * bucket: probing finds chain heads and members, a new head or a new second member keeps
 * the table well formed, unlinking leaves one hole, and every step of `healHole` keeps the
 * hole invariant until the table is well formed again.
 */
module AssocMultiSteps {
  import opened Common
  import opened AssocMultiTable

  // ---------------------------------------------------------------------------------------
  // Reading the invariant
  // ---------------------------------------------------------------------------------------

  /** The slots of a chain hold elements with the chain's key, and only its first slot has no predecessor. */
  lemma ChainSlot<E, I, K>(T: seq<Entry<E>>, S: map<K, seq<nat>>, h: Hasher<E, I, K>, x: nat)
    requires ChainsOk(T, S, h) && Covered(T, S, h) && Used(T, x)
    ensures KeyAt(T, h, x) in S
    ensures x in S[KeyAt(T, h, x)]
    ensures T[x].prev.None? <==> x == S[KeyAt(T, h, x)][0]
    ensures T[x].hashCache == HashElement(h, T[x].ptr.value, T[x].prev.None?)
  {
    var k := KeyAt(T, h, x);
    var cs := S[k];
    assert ChainOk(T, cs, k, h);
    var m :| 0 <= m < |cs| && cs[m] == x;
    if m > 0 {
      assert T[cs[m]].prev == Some(cs[m - 1]);
      assert x != cs[0];
    }
  }

  /** Two occupied slots holding equal elements are the same slot. */
  lemma Apart<E, I, K>(T: seq<Entry<E>>, h: Hasher<E, I, K>, x: nat, y: nat)
    requires UniqueIds(T, h) && Used(T, x) && Used(T, y) && x != y
    ensures IdAt(T, h, x) != IdAt(T, h, y)
  {
  }

  /**
   * The head of the chain of `k` is reached by probing from the home slot of the key hash,
   * and it is the only chain head with key `k`.
   */
  lemma HeadReached<E, I, K>(T: seq<Entry<E>>, S: map<K, seq<nat>>, h: Hasher<E, I, K>, k: K)
    requires TableOk(T, S, h) && k in S
    ensures S[k][0] < |T| && Used(T, S[k][0]) && T[S[k][0]].prev.None?
    ensures T[S[k][0]].hashCache == h.hashKey(k) && KeyAt(T, h, S[k][0]) == k
    ensures RunUsed(T, Home(h.hashKey(k), |T|), S[k][0], -1)
    ensures forall y :: Used(T, y) && T[y].prev.None? && KeyAt(T, h, y) == k ==> y == S[k][0]
  {
    assert ChainOk(T, S[k], k, h);
    forall y | Used(T, y) && T[y].prev.None? && KeyAt(T, h, y) == k
      ensures y == S[k][0]
    {
      ChainSlot(T, S, h, y);
    }
  }

  /** No occupied slot holds an element with a key that has no chain. */
  lemma KeyAbsent<E, I, K>(T: seq<Entry<E>>, S: map<K, seq<nat>>, h: Hasher<E, I, K>, k: K)
    requires TableOk(T, S, h) && k !in S
    ensures forall y :: Used(T, y) ==> KeyAt(T, h, y) != k
    ensures forall e :: KeyOf(h, e) == k ==> forall y :: Used(T, y) ==> IdAt(T, h, y) != h.idOf(e)
  {
  }

  /** A chain member other than the head is reached by probing from the home slot of its element hash. */
  lemma MemberReached<E, I, K>(T: seq<Entry<E>>, S: map<K, seq<nat>>, h: Hasher<E, I, K>, x: nat)
    requires TableOk(T, S, h) && Used(T, x) && T[x].prev.Some?
    ensures T[x].hashCache == h.hashId(IdAt(T, h, x))
    ensures RunUsed(T, Home(h.hashId(IdAt(T, h, x)), |T|), x, -1)
  {
    ChainSlot(T, S, h, x);
  }

  /** A table has at most as many occupied slots as slots, and as many when every slot is occupied. */
  lemma OccupiedBound<E>(T: seq<Entry<E>>)
    ensures |Occupied(T)| <= |T|
    ensures (forall x :: 0 <= x < |T| ==> Used(T, x)) ==> |Occupied(T)| == |T|
  {
    if T != [] {
      var P := T[..|T| - 1];
      OccupiedBound(P);
      var last: nat := |T| - 1;
      if Used(T, last) {
        assert Occupied(T) == Occupied(P) + {last};
        assert last !in Occupied(P);
        if forall x :: 0 <= x < |T| ==> Used(T, x) {
          assert forall x :: 0 <= x < |P| ==> Used(P, x) by {
            forall x | 0 <= x < |P| ensures Used(P, x) { assert P[x] == T[x] && Used(T, x); }
          }
        }
      } else {
        assert Occupied(T) == Occupied(P);
      }
    }
  }

  /** A table with fewer occupied slots than slots has a free slot. */
  lemma FreeSlot<E>(T: seq<Entry<E>>) returns (e: nat)
    requires |Occupied(T)| < |T|
    ensures e < |T| && !Used(T, e)
  {
    OccupiedBound(T);
    e :| 0 <= e < |T| && !Used(T, e);
  }

  // ---------------------------------------------------------------------------------------
  // Frames
  // ---------------------------------------------------------------------------------------

  /** A chain whose slots keep their entries stays well formed and holds the same elements. */
  lemma ChainKept<E, I, K>(T: seq<Entry<E>>, T': seq<Entry<E>>, cs: seq<nat>, k: K, h: Hasher<E, I, K>)
    requires ChainOk(T, cs, k, h) && |T'| == |T|
    requires forall m :: 0 <= m < |cs| ==> T'[cs[m]] == T[cs[m]]
    ensures ChainOk(T', cs, k, h) && Chain(T', cs) == Chain(T, cs)
  {
  }

  /** When only free slots and slots of key `k0` change, every other chain is kept. */
  lemma OthersKept<E, I, K>(T: seq<Entry<E>>, T': seq<Entry<E>>, S: map<K, seq<nat>>, h: Hasher<E, I, K>, k0: K)
    requires ChainsOk(T, S, h) && |T'| == |T|
    requires forall y :: 0 <= y < |T| && T'[y] != T[y] ==> !Used(T, y) || KeyAt(T, h, y) == k0
    ensures forall k :: k in S && k != k0 ==> ChainOk(T', S[k], k, h) && Chain(T', S[k]) == Chain(T, S[k])
  {
    forall k | k in S && k != k0
      ensures ChainOk(T', S[k], k, h) && Chain(T', S[k]) == Chain(T, S[k])
    {
      assert ChainOk(T, S[k], k, h);
      ChainKept(T, T', S[k], k, h);
    }
  }

  /** A run of occupied slots stays occupied when no slot is freed. */
  lemma RunKept<E>(T: seq<Entry<E>>, T': seq<Entry<E>>, s: nat, x: nat, hole: int)
    requires s < |T| && x < |T| && |T'| == |T|
    requires RunUsed(T, s, x, hole)
    requires forall y :: Used(T, y) ==> Used(T', y)
    ensures RunUsed(T', s, x, hole)
  {
  }

  // ---------------------------------------------------------------------------------------
  // Insertion
  // ---------------------------------------------------------------------------------------

  /** The entry of a new chain head. */
  function HeadEntry<E, I, K>(h: Hasher<E, I, K>, e: E): Entry<E>
  {
    Entry(h.hashKey(KeyOf(h, e)), Some(e), None, None)
  }

  /**
   * Storing the first element of a key in a free slot reached by probing from the key's
   * home slot keeps the table well formed and adds a one-element chain.
   */
  lemma InsertHeadOk<E, I, K>(T: seq<Entry<E>>, S: map<K, seq<nat>>, h: Hasher<E, I, K>, i: nat, e: E)
    requires TableOk(T, S, h) && KeyOf(h, e) !in S
    requires i < |T| && !Used(T, i) && RunUsed(T, Home(h.hashKey(KeyOf(h, e)), |T|), i, -1)
    ensures TableOk(T[i := HeadEntry(h, e)], S[KeyOf(h, e) := [i]], h)
    ensures Elems(T[i := HeadEntry(h, e)], S[KeyOf(h, e) := [i]], h) == Elems(T, S, h)[KeyOf(h, e) := [e]]
    ensures Occupied(T[i := HeadEntry(h, e)]) == Occupied(T) + {i}
  {
    var T' := T[i := HeadEntry(h, e)];
    KeyAbsent(T, S, h, KeyOf(h, e));
    InsertHeadChains(T, S, h, i, e);
    FilledOk(T, T', S, S[KeyOf(h, e) := [i]], h, i);
  }

  /**
   * Filling the free slot `j`, reached from the home slot of its new entry's hash, while
   * every other slot keeps its element and cached hash, keeps every element reachable and
   * adds `j` to the occupied slots.
   */
  lemma Filled<E>(T: seq<Entry<E>>, T': seq<Entry<E>>, j: nat)
    requires 0 < |T| == |T'| && Reachable(T, -1) && j < |T| && !Used(T, j) && Used(T', j)
    requires RunUsed(T, HomeOf(T', j), j, -1)
    requires forall y :: 0 <= y < |T| && y != j ==> T'[y].ptr == T[y].ptr && T'[y].hashCache == T[y].hashCache
    ensures Reachable(T', -1)
    ensures Occupied(T') == Occupied(T) + {j}
  {
    forall x | Used(T', x)
      ensures RunUsed(T', HomeOf(T', x), x, -1)
    {
      if x == j {
        RunKept(T, T', HomeOf(T', j), j, -1);
      } else {
        assert Used(T, x) && HomeOf(T', x) == HomeOf(T, x);
        RunKept(T, T', HomeOf(T, x), x, -1);
      }
    }
    assert Occupied(T') == Occupied(T) + {j};
  }

  lemma InsertHeadChains<E, I, K>(T: seq<Entry<E>>, S: map<K, seq<nat>>, h: Hasher<E, I, K>, i: nat, e: E)
    requires ChainsOk(T, S, h) && KeyOf(h, e) !in S && i < |T| && !Used(T, i)
    ensures ChainsOk(T[i := HeadEntry(h, e)], S[KeyOf(h, e) := [i]], h)
    ensures Elems(T[i := HeadEntry(h, e)], S[KeyOf(h, e) := [i]], h) == Elems(T, S, h)[KeyOf(h, e) := [e]]
  {
    var k := KeyOf(h, e);
    var T' := T[i := HeadEntry(h, e)];
    var S' := S[k := [i]];
    OthersKept(T, T', S, h, k);
    assert ChainOk(T', [i], k, h);
    assert ChainsOk(T', S', h);
    forall k' | k' in S'
      ensures Elems(T', S', h)[k'] == Elems(T, S, h)[k := [e]][k']
    {
      if k' == k {
        assert Chain(T', [i]) == [e];
      }
    }
    assert Elems(T', S', h) == Elems(T, S, h)[k := [e]];
  }

  /**
   * Filling slot `j` while every other slot keeps its element keeps every element in its
   * key's chain, when `j` joins the chain of its key and no chain loses a slot.
   */
  lemma CoveredFilled<E, I, K>(T: seq<Entry<E>>, T': seq<Entry<E>>, S: map<K, seq<nat>>, S': map<K, seq<nat>>, h: Hasher<E, I, K>, j: nat)
    requires Covered(T, S, h) && |T'| == |T| && j < |T| && Used(T', j)
    requires forall y :: 0 <= y < |T| && y != j ==> T'[y].ptr == T[y].ptr
    requires KeyAt(T', h, j) in S' && j in S'[KeyAt(T', h, j)]
    requires forall k :: k in S ==> k in S' && forall y :: y in S[k] ==> y in S'[k]
    ensures Covered(T', S', h)
  {
    forall x | Used(T', x)
      ensures KeyAt(T', h, x) in S' && x in S'[KeyAt(T', h, x)]
    {
      if x != j {
        assert Used(T, x) && KeyAt(T', h, x) == KeyAt(T, h, x);
      }
    }
  }

  /**
   * Filling slot `i` with an element equal to none of the others, while every other slot
   * keeps its element, keeps elements unique.
   */
  lemma FilledUnique<E, I, K>(T: seq<Entry<E>>, T': seq<Entry<E>>, h: Hasher<E, I, K>, i: nat)
    requires UniqueIds(T, h) && |T'| == |T| && i < |T| && Used(T', i)
    requires forall y :: 0 <= y < |T| && y != i ==> T'[y].ptr == T[y].ptr
    requires forall y :: Used(T, y) && y != i ==> IdAt(T, h, y) != IdAt(T', h, i)
    ensures UniqueIds(T', h)
  {
    forall x, y | Used(T', x) && Used(T', y) && x != y
      ensures IdAt(T', h, x) != IdAt(T', h, y)
    {
      if x != i && y != i {
        Apart(T, h, x, y);
        assert IdAt(T', h, x) == IdAt(T, h, x) && IdAt(T', h, y) == IdAt(T, h, y);
      } else if x == i {
        assert IdAt(T', h, y) == IdAt(T, h, y);
      } else {
        assert IdAt(T', h, x) == IdAt(T, h, x);
      }
    }
  }

  /** The entry of `e` as a chain member other than the head, linked after slot `i` and before `next`. */
  function MemberEntry<E, I, K>(h: Hasher<E, I, K>, e: E, next: Option<nat>, i: nat): Entry<E>
  {
    Entry(HashElement(h, e, false), Some(e), next, Some(i))
  }

  /** The table after `en` is written into slot `j` and linked in right after slot `i` (`insert`, `insertFurther`). */
  function Spliced<E>(T: seq<Entry<E>>, i: nat, j: nat, en: Entry<E>): seq<Entry<E>>
    requires i < |T| && j < |T| && i != j
    requires en.next.Some? ==> en.next.value < |T|
  {
    var T1 := T[j := en][i := T[i].(next := Some(j))];
    if en.next.Some? then T1[en.next.value := T1[en.next.value].(prev := Some(j))] else T1
  }

  /** Where `Spliced` writes, for a chain `cs` headed at slot `i`. */
  lemma SplicedAt<E, I, K>(T: seq<Entry<E>>, cs: seq<nat>, k: K, h: Hasher<E, I, K>, j: nat, e: E)
    requires ChainOk(T, cs, k, h) && j < |T| && !Used(T, j)
    ensures T[cs[0]].next.Some? ==> T[cs[0]].next.value < |T|
    ensures var T' := Spliced(T, cs[0], j, MemberEntry(h, e, T[cs[0]].next, cs[0]));
      && |T'| == |T|
      && T'[cs[0]] == T[cs[0]].(next := Some(j))
      && T'[j] == MemberEntry(h, e, T[cs[0]].next, cs[0])
      && (forall m :: 1 <= m < |cs| ==> T'[cs[m]] == T[cs[m]].(prev := if m == 1 then Some(j) else T[cs[m]].prev))
      && (forall y :: 0 <= y < |T| && y != j && y !in cs ==> T'[y] == T[y])
  {
    var i := cs[0];
    assert Used(T, i) && i != j;
    if 1 < |cs| {
      assert T[i].next == Some(cs[1]) && Used(T, cs[1]);
    } else {
      assert T[i].next == None;
    }
    var T' := Spliced(T, i, j, MemberEntry(h, e, T[i].next, i));
    forall m | 1 <= m < |cs|
      ensures T'[cs[m]] == T[cs[m]].(prev := if m == 1 then Some(j) else T[cs[m]].prev)
    {
      assert cs[m] != i && Used(T, cs[m]);
      if 1 < |cs| && m != 1 {
        assert cs[m] != cs[1];
      }
    }
  }

  /** A chain with a new element spliced in after its head is well formed and lists that element second. */
  lemma SplicedChain<E, I, K>(T: seq<Entry<E>>, T': seq<Entry<E>>, cs: seq<nat>, k: K, h: Hasher<E, I, K>, j: nat, e: E)
    requires ChainOk(T, cs, k, h) && KeyOf(h, e) == k && j < |T| == |T'| && !Used(T, j)
    requires T'[cs[0]] == T[cs[0]].(next := Some(j))
    requires T'[j] == MemberEntry(h, e, T[cs[0]].next, cs[0])
    requires forall m :: 1 <= m < |cs| ==> T'[cs[m]] == T[cs[m]].(prev := if m == 1 then Some(j) else T[cs[m]].prev)
    ensures ChainOk(T', [cs[0], j] + cs[1..], k, h)
    ensures Chain(T', [cs[0], j] + cs[1..]) == [Chain(T, cs)[0], e] + Chain(T, cs)[1..]
  {
    SplicedChainOk(T, T', cs, k, h, j, e);
    SplicedElems(T, T', cs, j, e);
  }

  lemma SplicedElems<E>(T: seq<Entry<E>>, T': seq<Entry<E>>, cs: seq<nat>, j: nat, e: E)
    requires 0 < |cs| && j < |T| == |T'| && T'[j].ptr == Some(e)
    requires forall m :: 0 <= m < |cs| ==> Used(T, cs[m]) && T'[cs[m]].ptr == T[cs[m]].ptr
    ensures forall m :: 0 <= m < |[cs[0], j] + cs[1..]| ==> Used(T', ([cs[0], j] + cs[1..])[m])
    ensures Chain(T', [cs[0], j] + cs[1..]) == [Chain(T, cs)[0], e] + Chain(T, cs)[1..]
  {
    var cs' := [cs[0], j] + cs[1..];
    assert forall m :: 2 <= m < |cs'| ==> cs'[m] == cs[m - 1];
    var A, B := Chain(T', cs'), [Chain(T, cs)[0], e] + Chain(T, cs)[1..];
    forall m | 0 <= m < |A|
      ensures A[m] == B[m]
    {
      if m >= 2 { assert cs'[m] == cs[m - 1]; }
    }
    assert A == B;
  }

  lemma SplicedChainOk<E, I, K>(T: seq<Entry<E>>, T': seq<Entry<E>>, cs: seq<nat>, k: K, h: Hasher<E, I, K>, j: nat, e: E)
    requires ChainOk(T, cs, k, h) && KeyOf(h, e) == k && j < |T| == |T'| && !Used(T, j)
    requires T'[cs[0]] == T[cs[0]].(next := Some(j))
    requires T'[j] == MemberEntry(h, e, T[cs[0]].next, cs[0])
    requires forall m :: 1 <= m < |cs| ==> T'[cs[m]] == T[cs[m]].(prev := if m == 1 then Some(j) else T[cs[m]].prev)
    ensures ChainOk(T', [cs[0], j] + cs[1..], k, h)
  {
    var i := cs[0];
    var cs' := [i, j] + cs[1..];
    assert Distinct(cs');
    assert forall m :: 2 <= m < |cs'| ==> cs'[m] == cs[m - 1];
    assert forall m :: 0 <= m < |cs'| ==> Used(T', cs'[m]) && KeyAt(T', h, cs'[m]) == k by {
      forall m | 0 <= m < |cs'| ensures Used(T', cs'[m]) && KeyAt(T', h, cs'[m]) == k {
        if m >= 2 { assert cs'[m] == cs[m - 1]; }
      }
    }
    assert forall m :: 0 < m < |cs'| ==>
      T'[cs'[m]].prev == Some(cs'[m - 1]) && T'[cs'[m]].hashCache == HashElement(h, T'[cs'[m]].ptr.value, false) by {
      forall m | 0 < m < |cs'|
        ensures T'[cs'[m]].prev == Some(cs'[m - 1]) && T'[cs'[m]].hashCache == HashElement(h, T'[cs'[m]].ptr.value, false)
      {
        if m >= 3 { assert cs'[m] == cs[m - 1] && cs'[m - 1] == cs[m - 2]; }
      }
    }
    assert forall m :: 0 <= m < |cs'| - 1 ==> T'[cs'[m]].next == Some(cs'[m + 1]) by {
      forall m | 0 <= m < |cs'| - 1 ensures T'[cs'[m]].next == Some(cs'[m + 1]) {
        if m >= 2 { assert cs'[m] == cs[m - 1] && cs'[m + 1] == cs[m]; }
      }
    }
    assert T'[cs'[|cs'| - 1]].next == None;
    assert ChainOk(T', cs', k, h);
  }

  /**
   * Filling the free slot `j` with an element equal to none stored, reached from the home
   * slot of its new entry's hash, while every other slot keeps its element and cached hash
   * and every chain keeps its slots, with `j` in the chain of its key, keeps the elements
   * covered, unique and reachable.
   */
  lemma FilledOk<E, I, K>(T: seq<Entry<E>>, T': seq<Entry<E>>, S: map<K, seq<nat>>, S': map<K, seq<nat>>, h: Hasher<E, I, K>, j: nat)
    requires TableOk(T, S, h) && |T'| == |T| && j < |T| && !Used(T, j) && Used(T', j)
    requires RunUsed(T, HomeOf(T', j), j, -1)
    requires forall y :: 0 <= y < |T| && y != j ==> T'[y].ptr == T[y].ptr && T'[y].hashCache == T[y].hashCache
    requires forall y :: Used(T, y) ==> IdAt(T, h, y) != IdAt(T', h, j)
    requires KeyAt(T', h, j) in S' && j in S'[KeyAt(T', h, j)]
    requires forall k :: k in S ==> k in S' && forall y :: y in S[k] ==> y in S'[k]
    ensures Covered(T', S', h) && UniqueIds(T', h) && Reachable(T', -1)
    ensures Occupied(T') == Occupied(T) + {j}
  {
    CoveredFilled(T, T', S, S', h, j);
    FilledUnique(T, T', h, j);
    Filled(T, T', j);
  }

  /**
   * Storing an element whose key already has a chain in a free slot reached by probing
   * from the home slot of its element hash, linked in right after the chain head, keeps
   * the table well formed and makes the element the chain's second one.
   */
  lemma InsertMemberOk<E, I, K>(T: seq<Entry<E>>, S: map<K, seq<nat>>, h: Hasher<E, I, K>, j: nat, e: E)
    requires TableOk(T, S, h) && KeyOf(h, e) in S
    requires j < |T| && !Used(T, j) && RunUsed(T, Home(HashElement(h, e, false), |T|), j, -1)
    requires forall y :: Used(T, y) ==> IdAt(T, h, y) != h.idOf(e)
    ensures Used(T, S[KeyOf(h, e)][0]) && S[KeyOf(h, e)][0] != j
    ensures T[S[KeyOf(h, e)][0]].next.Some? ==> T[S[KeyOf(h, e)][0]].next.value < |T|
    ensures var k := KeyOf(h, e);
      var i := S[k][0];
      var T' := Spliced(T, i, j, MemberEntry(h, e, T[i].next, i));
      var S' := S[k := [i, j] + S[k][1..]];
      && TableOk(T', S', h)
      && Elems(T', S', h) == Elems(T, S, h)[k := [Elems(T, S, h)[k][0], e] + Elems(T, S, h)[k][1..]]
      && Occupied(T') == Occupied(T) + {j}
  {
    var k := KeyOf(h, e);
    assert ChainOk(T, S[k], k, h);
    SplicedAt(T, S[k], k, h, j, e);
    var i := S[k][0];
    MemberLinked(T, Spliced(T, i, j, MemberEntry(h, e, T[i].next, i)), S, h, j, e);
  }

  /** `InsertMemberOk` for the table after the splice, described slot by slot. */
  lemma MemberLinked<E, I, K>(T: seq<Entry<E>>, T': seq<Entry<E>>, S: map<K, seq<nat>>, h: Hasher<E, I, K>, j: nat, e: E)
    requires TableOk(T, S, h) && KeyOf(h, e) in S
    requires j < |T| && !Used(T, j) && RunUsed(T, Home(HashElement(h, e, false), |T|), j, -1)
    requires forall y :: Used(T, y) ==> IdAt(T, h, y) != h.idOf(e)
    requires var cs := S[KeyOf(h, e)];
      && |T'| == |T| && 0 < |cs|
      && T'[cs[0]] == T[cs[0]].(next := Some(j))
      && T'[j] == MemberEntry(h, e, T[cs[0]].next, cs[0])
      && (forall m :: 1 <= m < |cs| ==> T'[cs[m]] == T[cs[m]].(prev := if m == 1 then Some(j) else T[cs[m]].prev))
      && (forall y :: 0 <= y < |T| && y != j && y !in cs ==> T'[y] == T[y])
    ensures var k := KeyOf(h, e);
      var S' := S[k := [S[k][0], j] + S[k][1..]];
      && TableOk(T', S', h)
      && Elems(T', S', h) == Elems(T, S, h)[k := [Elems(T, S, h)[k][0], e] + Elems(T, S, h)[k][1..]]
      && Occupied(T') == Occupied(T) + {j}
  {
    var k := KeyOf(h, e);
    var cs := S[k];
    var S' := S[k := [cs[0], j] + cs[1..]];
    MemberChains(T, T', S, h, j, e);
    LinksOnly(T, T', cs, j);
    ChainGrows(S, k, [cs[0], j] + cs[1..]);
    assert KeyAt(T', h, j) == k;
    FilledOk(T, T', S, S', h, j);
  }

  /** Giving key `k` a chain that lists every slot of its old one loses no slot of any chain. */
  lemma ChainGrows<K>(S: map<K, seq<nat>>, k: K, cs': seq<nat>)
    requires k in S ==> forall y :: y in S[k] ==> y in cs'
    ensures forall k2 :: k2 in S ==> k2 in S[k := cs'] && forall y :: y in S[k2] ==> y in S[k := cs'][k2]
  {
  }

  /** Slots whose links alone were rewritten keep their element and cached hash. */
  lemma LinksOnly<E>(T: seq<Entry<E>>, T': seq<Entry<E>>, cs: seq<nat>, j: nat)
    requires |T'| == |T| && 0 < |cs| && forall m :: 0 <= m < |cs| ==> cs[m] < |T|
    requires T'[cs[0]] == T[cs[0]].(next := Some(j))
    requires forall m :: 1 <= m < |cs| ==> T'[cs[m]] == T[cs[m]].(prev := if m == 1 then Some(j) else T[cs[m]].prev)
    requires forall y :: 0 <= y < |T| && y != j && y !in cs ==> T'[y] == T[y]
    ensures forall y :: 0 <= y < |T| && y != j ==> T'[y].ptr == T[y].ptr && T'[y].hashCache == T[y].hashCache
  {
    forall y | 0 <= y < |T| && y != j
      ensures T'[y].ptr == T[y].ptr && T'[y].hashCache == T[y].hashCache
    {
      if y in cs {
        var m :| 0 <= m < |cs| && cs[m] == y;
      }
    }
  }

  /** The chains after the splice: the key's chain gains `j` in second place, the others are unchanged. */
  lemma MemberChains<E, I, K>(T: seq<Entry<E>>, T': seq<Entry<E>>, S: map<K, seq<nat>>, h: Hasher<E, I, K>, j: nat, e: E)
    requires ChainsOk(T, S, h) && KeyOf(h, e) in S && j < |T| && !Used(T, j)
    requires var cs := S[KeyOf(h, e)];
      && |T'| == |T| && 0 < |cs|
      && T'[cs[0]] == T[cs[0]].(next := Some(j))
      && T'[j] == MemberEntry(h, e, T[cs[0]].next, cs[0])
      && (forall m :: 1 <= m < |cs| ==> T'[cs[m]] == T[cs[m]].(prev := if m == 1 then Some(j) else T[cs[m]].prev))
      && (forall y :: 0 <= y < |T| && y != j && y !in cs ==> T'[y] == T[y])
    ensures var k := KeyOf(h, e);
      var S' := S[k := [S[k][0], j] + S[k][1..]];
      && ChainsOk(T', S', h)
      && Elems(T', S', h) == Elems(T, S, h)[k := [Elems(T, S, h)[k][0], e] + Elems(T, S, h)[k][1..]]
  {
    var k := KeyOf(h, e);
    var cs := S[k];
    assert ChainOk(T, cs, k, h);
    var S' := S[k := [cs[0], j] + cs[1..]];
    SplicedChain(T, T', cs, k, h, j, e);
    assert forall y :: y in cs ==> Used(T, y) && KeyAt(T, h, y) == k;
    OthersKept(T, T', S, h, k);
    ElemsUpdate(T, T', S, h, k, [cs[0], j] + cs[1..]);
  }

  /**
   * The contents after one key's chain changed to the slots `cs'` while every other chain
   * lists the same elements: the old contents with that key's entry replaced.
   */
  lemma ElemsUpdate<E, I, K>(T: seq<Entry<E>>, T': seq<Entry<E>>, S: map<K, seq<nat>>, h: Hasher<E, I, K>, k: K, cs': seq<nat>)
    requires ChainsOk(T, S, h) && ChainOk(T', cs', k, h)
    requires forall k2 :: k2 in S && k2 != k ==> ChainOk(T', S[k2], k2, h) && Chain(T', S[k2]) == Chain(T, S[k2])
    ensures ChainsOk(T', S[k := cs'], h)
    ensures Elems(T', S[k := cs'], h) == Elems(T, S, h)[k := Chain(T', cs')]
  {
    var S' := S[k := cs'];
    assert ChainsOk(T', S', h);
    var A, B := Elems(T', S', h), Elems(T, S, h)[k := Chain(T', cs')];
    forall k2 | k2 in A
      ensures k2 in B && A[k2] == B[k2]
    {
      if k2 != k {
        assert S'[k2] == S[k2];
      }
    }
    assert A.Keys == B.Keys;
    SameMap(A, B);
  }

  /**
   * Storing an element equal to the one in slot `x` in its place keeps the table well
   * formed and replaces that element in its chain.
   */
  lemma OverwriteOk<E, I, K>(T: seq<Entry<E>>, S: map<K, seq<nat>>, h: Hasher<E, I, K>, x: nat, e: E) returns (m: nat)
    requires TableOk(T, S, h) && Used(T, x) && IdAt(T, h, x) == h.idOf(e)
    ensures KeyOf(h, e) in S && m < |S[KeyOf(h, e)]| && S[KeyOf(h, e)][m] == x
    ensures T[x].hashCache == HashElement(h, e, T[x].prev.None?)
    ensures var T' := T[x := T[x].(ptr := Some(e))];
      && TableOk(T', S, h)
      && Elems(T', S, h) == Elems(T, S, h)[KeyOf(h, e) := Elems(T, S, h)[KeyOf(h, e)][m := e]]
      && Occupied(T') == Occupied(T)
  {
    var k := KeyOf(h, e);
    ChainSlot(T, S, h, x);
    var cs := S[k];
    assert ChainOk(T, cs, k, h);
    m :| 0 <= m < |cs| && cs[m] == x;
    OverwrittenChains(T, T[x := T[x].(ptr := Some(e))], S, h, k, m, e);
    OverwrittenRest(T, T[x := T[x].(ptr := Some(e))], S, h, x, e);
  }

  /** The chains after an overwrite: only the chain of `k` changes, in its `m`-th element. */
  lemma OverwrittenChains<E, I, K>(T: seq<Entry<E>>, T': seq<Entry<E>>, S: map<K, seq<nat>>, h: Hasher<E, I, K>, k: K, m: nat, e: E)
    requires ChainsOk(T, S, h) && k in S && m < |S[k]| && KeyOf(h, e) == k
    requires Used(T, S[k][m]) && h.idOf(e) == IdAt(T, h, S[k][m])
    requires T' == T[S[k][m] := T[S[k][m]].(ptr := Some(e))]
    ensures ChainsOk(T', S, h) && Elems(T', S, h) == Elems(T, S, h)[k := Elems(T, S, h)[k][m := e]]
  {
    var cs := S[k];
    assert ChainOk(T, cs, k, h);
    OverwrittenChain(T, T', cs, k, h, m, e);
    forall y | 0 <= y < |T| && T'[y] != T[y]
      ensures !Used(T, y) || KeyAt(T, h, y) == k
    {
    }
    OthersKept(T, T', S, h, k);
    ElemsUpdate(T, T', S, h, k, cs);
    assert S[k := cs] == S;
  }

  /** Coverage, uniqueness and reachability survive replacing the element in slot `x` by an equal one. */
  lemma OverwrittenRest<E, I, K>(T: seq<Entry<E>>, T': seq<Entry<E>>, S: map<K, seq<nat>>, h: Hasher<E, I, K>, x: nat, e: E)
    requires TableOk(T, S, h) && Used(T, x) && IdAt(T, h, x) == h.idOf(e)
    requires T' == T[x := T[x].(ptr := Some(e))]
    ensures Covered(T', S, h) && UniqueIds(T', h) && Reachable(T', -1) && Occupied(T') == Occupied(T)
  {
    forall y | Used(T', y)
      ensures KeyAt(T', h, y) in S && y in S[KeyAt(T', h, y)]
    {
      assert Used(T, y) && KeyAt(T', h, y) == KeyAt(T, h, y);
    }
    forall y, z | Used(T', y) && Used(T', z) && y != z
      ensures IdAt(T', h, y) != IdAt(T', h, z)
    {
      Apart(T, h, y, z);
    }
    forall y | Used(T', y)
      ensures RunUsed(T', HomeOf(T', y), y, -1)
    {
      assert Used(T, y) && HomeOf(T', y) == HomeOf(T, y) && RunUsed(T, HomeOf(T, y), y, -1);
    }
    assert Occupied(T') == Occupied(T);
  }

  /** A chain whose `m`-th element is replaced by an equal one. */
  lemma OverwrittenChain<E, I, K>(T: seq<Entry<E>>, T': seq<Entry<E>>, cs: seq<nat>, k: K, h: Hasher<E, I, K>, m: nat, e: E)
    requires ChainOk(T, cs, k, h) && m < |cs| && h.idOf(e) == IdAt(T, h, cs[m])
    requires T' == T[cs[m] := T[cs[m]].(ptr := Some(e))]
    ensures ChainOk(T', cs, k, h)
    ensures Chain(T', cs) == Chain(T, cs)[m := e]
  {
    forall n | 0 <= n < |cs|
      ensures Used(T', cs[n]) && KeyAt(T', h, cs[n]) == k && cs[n] < |T'| && T'[cs[n]].ptr.Some?
      ensures T'[cs[n]].prev == T[cs[n]].prev && T'[cs[n]].next == T[cs[n]].next && T'[cs[n]].hashCache == T[cs[n]].hashCache
      ensures n > 0 ==> T'[cs[n]].hashCache == HashElement(h, T'[cs[n]].ptr.value, false)
    {
      assert Used(T, cs[n]);
      if n != m { assert cs[n] != cs[m]; }
    }
    ChainOkIntro(T', cs, k, h);
    var A, B := Chain(T', cs), Chain(T, cs)[m := e];
    forall n | 0 <= n < |A|
      ensures A[n] == B[n]
    {
      if n != m { assert cs[n] != cs[m]; }
    }
    assert A == B;
  }
}
