/**
 * What `resizeInternal` of `AssocMulti` (lib/Basics/AssocMulti.h) does to the contents of a
 * bucket, stated over the old table: the old table is scanned slot by slot, and every
 * chain head found starts its chain anew (`insertFirst`), followed by its other members
 * from the tail backwards (`insertFurther`), each of which goes second. After chain heads
 * below slot `j` have been copied, the new table holds exactly their chains.
 */
module AssocMultiRebuild {
  import opened Common
  import opened AssocMultiTable
  import opened AssocMultiSteps
  import opened AssocMultiProbe
  import opened AssocMultiSpec

  /** The chains of the old table whose head lies below slot `j`, as the rebuild has copied them. */
  ghost function Rebuilt<E, I, K>(T0: seq<Entry<E>>, S0: map<K, seq<nat>>, h: Hasher<E, I, K>, j: nat): map<K, seq<E>>
    requires ChainsOk(T0, S0, h)
  {
    map k | k in S0 && S0[k][0] < j :: Chain(T0, S0[k])
  }

  /** Every old slot in `P` is occupied, and its element is found in the contents `C`. */
  ghost predicate AllFound<E, I, K>(T0: seq<Entry<E>>, h: Hasher<E, I, K>, P: set<nat>, C: map<K, seq<E>>)
  {
    forall y :: y in P ==> Used(T0, y) && Lookup(C, h, T0[y].ptr.value).Some?
  }

  /** Every slot of every chain whose head lies below slot `j` is in `P`. */
  ghost predicate DoneIn<K>(S0: map<K, seq<nat>>, j: nat, P: set<nat>)
  {
    forall k, m :: k in S0 && 0 <= m < |S0[k]| && S0[k][0] < j ==> S0[k][m] in P
  }

  /** Walking a chain backwards: only its first slot is its head, and every other slot links back to the one before. */
  lemma ChainBack<E, I, K>(T0: seq<Entry<E>>, cs: seq<nat>, k: K, h: Hasher<E, I, K>, q: nat)
    requires ChainOk(T0, cs, k, h) && q < |cs|
    ensures cs[q] == cs[0] <==> q == 0
    ensures 0 < q ==> T0[cs[q]].prev == Some(cs[q - 1])
  {
  }

  /** The chain of key `k` is well formed, and its elements are distinct. */
  lemma ChainCopyable<E, I, K>(T0: seq<Entry<E>>, S0: map<K, seq<nat>>, h: Hasher<E, I, K>, k: K)
    requires TableOk(T0, S0, h) && k in S0
    ensures ChainOk(T0, S0[k], k, h) && IdsUnique(Chain(T0, S0[k]), h)
  {
    assert ChainOk(T0, S0[k], k, h);
    ElemsOk(T0, S0, h);
    assert Elems(T0, S0, h)[k] == Chain(T0, S0[k]);
  }

  /** Copying more keeps what was copied. */
  lemma DoneGrows<K>(S0: map<K, seq<nat>>, j: nat, P: set<nat>, P': set<nat>)
    requires DoneIn(S0, j, P) && P <= P'
    ensures DoneIn(S0, j, P')
  {
  }

  /** Nothing is copied before the scan starts. */
  lemma RebuiltNone<E, I, K>(T0: seq<Entry<E>>, S0: map<K, seq<nat>>, h: Hasher<E, I, K>)
    requires ChainsOk(T0, S0, h)
    ensures Rebuilt(T0, S0, h, 0) == map[] && DoneIn(S0, 0, {})
  {
  }

  /** A chain head in slot `j` is the head of its key's chain, which has not been copied yet. */
  lemma HeadStart<E, I, K>(T0: seq<Entry<E>>, S0: map<K, seq<nat>>, h: Hasher<E, I, K>, j: nat)
    requires TableOk(T0, S0, h) && Used(T0, j) && T0[j].prev.None?
    ensures var k := KeyAt(T0, h, j);
      && k in S0 && S0[k][0] == j && k !in Rebuilt(T0, S0, h, j)
      && T0[j].hashCache == h.hashKey(k)
  {
    ChainSlot(T0, S0, h, j);
  }

  /** A slot that holds no chain head adds nothing to the copy. */
  lemma RebuiltSkip<E, I, K>(T0: seq<Entry<E>>, S0: map<K, seq<nat>>, h: Hasher<E, I, K>, j: nat, P: set<nat>)
    requires TableOk(T0, S0, h) && !(Used(T0, j) && T0[j].prev.None?) && DoneIn(S0, j, P)
    ensures Rebuilt(T0, S0, h, j + 1) == Rebuilt(T0, S0, h, j) && DoneIn(S0, j + 1, P)
  {
    forall k | k in S0
      ensures S0[k][0] != j
    {
      assert ChainOk(T0, S0[k], k, h);
    }
  }

  /** Once the chain headed at slot `j` is copied in full, the copy covers the heads below `j + 1`. */
  lemma RebuiltStep<E, I, K>(T0: seq<Entry<E>>, S0: map<K, seq<nat>>, h: Hasher<E, I, K>, j: nat, P: set<nat>)
    requires TableOk(T0, S0, h) && Used(T0, j) && T0[j].prev.None? && DoneIn(S0, j, P)
    requires KeyAt(T0, h, j) in S0 && forall m :: 0 <= m < |S0[KeyAt(T0, h, j)]| ==> S0[KeyAt(T0, h, j)][m] in P
    ensures var k := KeyAt(T0, h, j);
      && Rebuilt(T0, S0, h, j + 1) == Rebuilt(T0, S0, h, j)[k := Chain(T0, S0[k])]
      && DoneIn(S0, j + 1, P)
  {
    HeadStart(T0, S0, h, j);
    var k := KeyAt(T0, h, j);
    forall k' | k' in S0 && S0[k'][0] == j
      ensures k' == k
    {
      assert ChainOk(T0, S0[k'], k', h);
    }
  }

  /**
   * The scan of the old table has passed the slots below `j`: the copy `C`, of `n` elements,
   * holds exactly the chains whose heads lie below `j`, and the old slots `P` are those copied.
   */
  ghost predicate Scanned<E, I, K>(T0: seq<Entry<E>>, S0: map<K, seq<nat>>, h: Hasher<E, I, K>, j: nat, P: set<nat>, C: map<K, seq<E>>, n: nat)
  {
    && TableOk(T0, S0, h) && C == Rebuilt(T0, S0, h, j) && AllFound(T0, h, P, C) && DoneIn(S0, j, P) && n == |P|
  }

  /** Before the scan, the empty copy holds the chains whose heads lie below slot 0. */
  lemma ScanStart<E, I, K>(T0: seq<Entry<E>>, S0: map<K, seq<nat>>, h: Hasher<E, I, K>, P: set<nat>, C: map<K, seq<E>>, n: nat)
    requires TableOk(T0, S0, h) && P == {} && C == map[] && n == 0
    ensures Scanned(T0, S0, h, 0, P, C, n)
  {
    RebuiltNone(T0, S0, h);
  }

  /** After the scan, the copy holds the old contents, and every occupied old slot was copied once. */
  lemma ScanEnd<E, I, K>(T0: seq<Entry<E>>, S0: map<K, seq<nat>>, h: Hasher<E, I, K>, P: set<nat>, C: map<K, seq<E>>, n: nat)
    requires Scanned(T0, S0, h, |T0|, P, C, n)
    ensures C == Elems(T0, S0, h) && n == |Occupied(T0)|
  {
    RebuiltAll(T0, S0, h, P);
    AllOccupied(T0, h, P, C);
  }

  /** The copied old slots are occupied; when they include every occupied slot, they are exactly those. */
  lemma AllOccupied<E, I, K>(T0: seq<Entry<E>>, h: Hasher<E, I, K>, P: set<nat>, C: map<K, seq<E>>)
    requires AllFound(T0, h, P, C) && Occupied(T0) <= P
    ensures P == Occupied(T0)
  {
  }

  /** When the scan has passed every slot, the copy is the whole old contents, and every occupied slot was copied. */
  lemma RebuiltAll<E, I, K>(T0: seq<Entry<E>>, S0: map<K, seq<nat>>, h: Hasher<E, I, K>, P: set<nat>)
    requires TableOk(T0, S0, h) && DoneIn(S0, |T0|, P)
    ensures Rebuilt(T0, S0, h, |T0|) == Elems(T0, S0, h)
    ensures Occupied(T0) <= P
  {
    forall k | k in S0
      ensures S0[k][0] < |T0|
    {
      assert ChainOk(T0, S0[k], k, h);
    }
    forall y | y in Occupied(T0)
      ensures y in P
    {
      var m := SlotIndex(T0, S0, h, y);
    }
  }

  /**
   * Copying the element of old slot `x`, which the copy does not hold yet: `x` was not copied
   * before, there is room for it, and afterwards every copied element is still found.
   */
  lemma CopyOne<E, I, K>(T0: seq<Entry<E>>, h: Hasher<E, I, K>, P: set<nat>, C: map<K, seq<E>>, x: nat)
    requires ContentsOk(C, h) && AllFound(T0, h, P, C) && Used(T0, x) && Lookup(C, h, T0[x].ptr.value).None?
    ensures x !in P && |P + {x}| == |P| + 1 <= |Occupied(T0)|
    ensures AllFound(T0, h, P + {x}, Insert(C, h, T0[x].ptr.value, false).0)
  {
    var e := T0[x].ptr.value;
    assert P <= Occupied(T0);
    CardAdd(P, x);
    SubsetCard(P + {x}, Occupied(T0));
    forall y | y in P + {x}
      ensures Used(T0, y) && Lookup(Insert(C, h, e, false).0, h, T0[y].ptr.value).Some?
    {
      InsertLookup(C, h, e, false, T0[y].ptr.value);
    }
  }

  /**
   * Copying the chain head in old slot `j` when the copy holds the chains whose heads lie
   * below `j`: its key is not in the copy yet, the slot was not copied before, there is room
   * for it, and after it starts its key's chain every copied element is still found.
   */
  lemma HeadCopied<E, I, K>(T0: seq<Entry<E>>, S0: map<K, seq<nat>>, h: Hasher<E, I, K>, j: nat, P: set<nat>, C: map<K, seq<E>>)
    requires TableOk(T0, S0, h) && Used(T0, j) && T0[j].prev.None?
    requires ContentsOk(C, h) && C == Rebuilt(T0, S0, h, j) && AllFound(T0, h, P, C)
    ensures var k, e := KeyAt(T0, h, j), T0[j].ptr.value;
      && k in S0 && S0[k][0] == j && ChainOk(T0, S0[k], k, h) && IdsUnique(Chain(T0, S0[k]), h)
      && k !in C && |P + {j}| == |P| + 1 <= |Occupied(T0)|
      && AllFound(T0, h, P + {j}, C[k := [e]])
  {
    HeadStart(T0, S0, h, j);
    ChainCopyable(T0, S0, h, KeyAt(T0, h, j));
    CopyOne(T0, h, P, C, j);
  }

  /**
   * Once the chain headed at old slot `j` is copied in full, on top of the chains whose heads
   * lie below `j`, the copy holds the chains whose heads lie below `j + 1`.
   */
  lemma ChainDone<E, I, K>(T0: seq<Entry<E>>, S0: map<K, seq<nat>>, h: Hasher<E, I, K>, j: nat,
                           P: set<nat>, P': set<nat>, C: map<K, seq<E>>, C': map<K, seq<E>>)
    requires TableOk(T0, S0, h) && Used(T0, j) && T0[j].prev.None? && DoneIn(S0, j, P) && P <= P'
    requires var k := KeyAt(T0, h, j);
      && k in S0 && (forall m :: 0 <= m < |S0[k]| ==> S0[k][m] in P')
      && C == Rebuilt(T0, S0, h, j) && C' == C[k := Chain(T0, S0[k])]
    ensures C' == Rebuilt(T0, S0, h, j + 1) && DoneIn(S0, j + 1, P')
  {
    DoneGrows(S0, j, P, P');
    RebuiltStep(T0, S0, h, j, P');
  }

  /** The head of a chain is copied first, and the rest of it after. */
  lemma AllCopied(cs: seq<nat>, q: nat, P: set<nat>, P': set<nat>)
    requires q + 1 == |cs| && cs[0] in P && P <= P' && forall m :: 0 < m <= q ==> cs[m] in P'
    ensures forall m :: 0 <= m < |cs| ==> cs[m] in P'
  {
  }

  /**
   * The next member to copy, in slot `cs[q]` of its chain, is not in the partial copy of the
   * chain (its head and the members after `cs[q]`), and going second it extends the copy by
   * one member backwards.
   */
  lemma MemberPending<E, I, K>(s: seq<E>, h: Hasher<E, I, K>, q: nat)
    requires IdsUnique(s, h) && 0 < q < |s|
    ensures FindId([s[0]] + s[q + 1..], h, h.idOf(s[q])).None?
    ensures var c := [s[0]] + s[q + 1..]; [c[0], s[q]] + c[1..] == [s[0]] + s[q..]
  {
    var c := [s[0]] + s[q + 1..];
    assert forall v :: 0 < v < |c| ==> c[v] == s[q + v];
    assert c[1..] == s[q + 1..];
  }

  /**
   * Inserting the `q`-th element of a list of distinct elements `s` of key `k`, when the
   * contents hold for `k` the head of `s` and the elements after the `q`-th: it is not found
   * before, and afterwards the contents hold the head and the elements from the `q`-th on.
   */
  lemma InsertPending<E, I, K>(C: map<K, seq<E>>, h: Hasher<E, I, K>, k: K, s: seq<E>, q: nat)
    requires ContentsOk(C, h) && IdsUnique(s, h) && 0 < q < |s| && KeyOf(h, s[q]) == k
    requires k in C && C[k] == [s[0]] + s[q + 1..]
    ensures Lookup(C, h, s[q]).None?
    ensures Insert(C, h, s[q], false).0 == C[k := [s[0]] + s[q..]]
  {
    MemberPending(s, h, q);
  }

  /**
   * The `q`-th member of a chain being copied backwards has the chain's key, is not in the
   * partial copy of the chain yet (its head and the members after the `q`-th), and inserting
   * it extends that copy by one member.
   */
  lemma MemberCopied<E, I, K>(T0: seq<Entry<E>>, cs: seq<nat>, k: K, h: Hasher<E, I, K>, q: nat, r: nat, C: map<K, seq<E>>)
    requires ChainOk(T0, cs, k, h) && IdsUnique(Chain(T0, cs), h) && 0 < q < |cs| && r == q + 1 && ContentsOk(C, h)
    requires var s := Chain(T0, cs); k in C && C[k] == [s[0]] + s[r..]
    ensures var x, s := cs[q], Chain(T0, cs);
      && Used(T0, x) && KeyOf(h, T0[x].ptr.value) == k && T0[x].hashCache == HashElement(h, T0[x].ptr.value, false)
      && Lookup(C, h, T0[x].ptr.value).None?
      && Insert(C, h, T0[x].ptr.value, false).0 == C[k := [s[0]] + s[q..]]
  {
    InsertPending(C, h, k, Chain(T0, cs), q);
  }

  /** Copying the member in slot `cs[q]` extends the copied part `cs[q + 1..q0]` of a chain backwards by one slot. */
  lemma TailCopied(cs: seq<nat>, q: nat, q0: nat, P: set<nat>)
    requires 0 < q <= q0 < |cs| && forall m :: q < m <= q0 ==> cs[m] in P
    ensures forall m :: q - 1 < m <= q0 ==> cs[m] in P + {cs[q]}
  {
  }

  /** A list is its head followed by the rest, which starts at `r`. */
  lemma HeadRest<T>(s: seq<T>, r: nat)
    requires 0 < |s| && r == 1
    ensures [s[0]] + s[r..] == s
  {
  }

  /** Nothing follows the last position `q` of a list. */
  lemma HeadOnly<E, I, K>(T0: seq<Entry<E>>, cs: seq<nat>, k: K, h: Hasher<E, I, K>, j: nat, r: nat,
                          P: set<nat>, n: nat, C0: map<K, seq<E>>, C: map<K, seq<E>>)
    requires ChainOk(T0, cs, k, h) && cs[0] == j && r == |cs|
    requires C == C0[k := [T0[j].ptr.value]] && n == |P| + 1 && |P + {j}| == |P| + 1
    ensures var s := Chain(T0, cs); C == C0[k := [s[0]] + s[r..]] && n == |P + {j}|
  {
    var s := Chain(T0, cs);
    assert [s[0]] + s[r..] == [T0[j].ptr.value];
  }

  /** A second update of the same key overrides the first. */
  lemma Overridden<K, V>(M: map<K, V>, C: map<K, V>, k: K, a: V, b: V)
    requires C == M[k := a]
    ensures C[k := b] == M[k := b]
  {
  }
}
