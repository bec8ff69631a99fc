/**
 * One bucket of `AssocMulti` (lib/Basics/AssocMulti.h): a table of `_nrAlloc` slots holding
 * `_nrUsed` elements, `_nrCollisions` of which are not the first of their key. The
 * operations of the class that work on a single bucket are methods here.
 *
 * The callbacks are passed to each method as a `Hasher`; the ghost map `slots` names, for
 * every key present, the slots of its chain head first.
 */
module AssocMultiBucket {
  import opened Common
  import opened AssocMultiTable
  import opened AssocMultiSteps
  import opened AssocMultiHeal
  import opened AssocMultiProbe
  import opened AssocMultiRebuild
  import Spec = AssocMultiSpec

  /**
   * Whether `insert` grows a bucket before inserting: when it is more than two thirds full,
   * or when one more element would leave no free slot (see `GrowsAsWritten` for the test
   * `insert` writes).
   */
  predicate Grows(nrAlloc: nat, nrUsed: nat)
  {
    2 * nrAlloc < 3 * nrUsed || nrAlloc <= nrUsed + 1
  }

  /**
   * The number of slots of a bucket of `nrAlloc` slots holding `nrUsed` elements once
   * `insert` has taken its growth step: `nearPrime(2 * nrAlloc + 1)` when it `Grows`, and
   * `nrAlloc` otherwise.
   */
  function GrownAlloc(nrAlloc: nat, nrUsed: nat, nearPrime: nat -> nat): nat
  {
    if Grows(nrAlloc, nrUsed) then nearPrime(2 * nrAlloc + 1) else nrAlloc
  }

  /** The growth test exactly as `insert` writes it. */
  predicate GrowsAsWritten(nrAlloc: nat, nrUsed: nat)
  {
    2 * nrAlloc < 3 * nrUsed
  }

  /**
   * As written, the test lets a bucket of at most three slots fill up: with one slot left
   * it does not grow, the insert takes that slot, and afterwards a probe for a key that is
   * not stored finds no free slot to stop at.
   */
  lemma GrowsAsWrittenFills(nrAlloc: nat)
    requires 0 < nrAlloc <= 3
    ensures !GrowsAsWritten(nrAlloc, nrAlloc - 1)
  {
  }

  /** With `Grows`, a bucket that is not grown still has a free slot after the insert. */
  lemma GrowsKeepsFree(nrAlloc: nat, nrUsed: nat)
    requires !Grows(nrAlloc, nrUsed)
    ensures nrUsed + 1 < nrAlloc
  {
  }

  /** `Grows` and the test as written agree on every bucket of four slots or more that has a free slot. */
  lemma GrowsAgrees(nrAlloc: nat, nrUsed: nat)
    requires 4 <= nrAlloc && nrUsed < nrAlloc
    ensures Grows(nrAlloc, nrUsed) <==> GrowsAsWritten(nrAlloc, nrUsed)
  {
  }

  class Bucket<E, I(==), K(==)> {
    var nrAlloc: nat
    var nrUsed: nat
    var nrCollisions: nat
    var table: array<Entry<E>>
    ghost var slots: map<K, seq<nat>>

    /** The table is well formed and the counters agree with it. */
    ghost predicate Consistent(h: Hasher<E, I, K>)
      reads this, table
    {
      && table.Length == nrAlloc
      && TableOk(table[..], slots, h)
      && nrUsed == |Occupied(table[..])|
      && nrCollisions + |slots| == nrUsed
    }

    /** `Consistent`, and at least one slot is free, so every probe ends. */
    ghost predicate Valid(h: Hasher<E, I, K>)
      reads this, table
    {
      Consistent(h) && nrUsed < nrAlloc
    }

    /** The elements of each key present, head first. */
    ghost function Contents(h: Hasher<E, I, K>): map<K, seq<E>>
      reads this, table
      requires Consistent(h)
    {
      Elems(table[..], slots, h)
    }

    /** A bucket of `initialSize` free slots, as the constructor of `AssocMulti` sets each one up. */
    constructor (initialSize: nat, ghost h: Hasher<E, I, K>)
      requires 0 < initialSize
      ensures Valid(h) && Contents(h) == map[] && nrAlloc == initialSize && nrUsed == 0 && fresh(table)
    {
      nrAlloc := initialSize;
      nrUsed := 0;
      nrCollisions := 0;
      var t := FreshTable(initialSize);
      table := t;
      slots := map[];
      new;
      assert Occupied(table[..]) == {};
    }

    /**
     * The head probe: from the home slot of `hashByKey`, the first slot that is free or holds
     * the head of `k`'s chain.
     */
    method FindHead(h: Hasher<E, I, K>, k: K, hashByKey: uint64) returns (i: nat)
      requires Valid(h) && hashByKey == h.hashKey(k)
      ensures i < nrAlloc
      ensures Used(table[..], i) <==> k in slots
      ensures Used(table[..], i) ==> i == slots[k][0]
      ensures RunUsed(table[..], Home(hashByKey, nrAlloc), i, -1)
    {
      ghost var T := table[..];
      ghost var e := FreeSlot(T);
      var s := Home(hashByKey, nrAlloc);
      i := s;
      while table[i].ptr.Some? && (table[i].prev.Some? || table[i].hashCache != hashByKey || KeyOf(h, table[i].ptr.value) != k)
        invariant i < nrAlloc
        invariant HeadProbed(T, h, k, s, i) && Dist(s, i, nrAlloc) <= Dist(s, e, nrAlloc)
        decreases Dist(s, e, nrAlloc) - Dist(s, i, nrAlloc)
      {
        ProbeStep(T, s, i, e);
        i := Incr(i, nrAlloc);
      }
      HeadProbeExit(T, slots, h, k, i);
    }

    /** The free-slot probe of `insertFirst` and `insertFurther`: from slot `s`, the first free slot. */
    method FindFree(ghost h: Hasher<E, I, K>, s: nat) returns (i: nat)
      requires Valid(h) && s < nrAlloc
      ensures i < nrAlloc && !Used(table[..], i)
      ensures RunUsed(table[..], s, i, -1)
    {
      ghost var T := table[..];
      ghost var e := FreeSlot(T);
      i := s;
      while table[i].ptr.Some?
        invariant i < nrAlloc
        invariant RunUsed(T, s, i, -1) && Dist(s, i, nrAlloc) <= Dist(s, e, nrAlloc)
        decreases Dist(s, e, nrAlloc) - Dist(s, i, nrAlloc)
      {
        ProbeStep(T, s, i, e);
        i := Incr(i, nrAlloc);
      }
    }

    /**
     * `findElementPlace`: from the home slot of `e`'s element hash, the first slot that is free
     * or, when `checkEquality` is set, holds an element equal to `e` caching that hash.
     */
    method FindElementPlace(h: Hasher<E, I, K>, e: E, checkEquality: bool) returns (i: nat, hashByElm: uint64)
      requires Valid(h)
      requires !checkEquality ==> forall y :: Used(table[..], y) ==> IdAt(table[..], h, y) != h.idOf(e)
      ensures hashByElm == HashElement(h, e, false) && i < nrAlloc
      ensures RunUsed(table[..], Home(hashByElm, nrAlloc), i, -1)
      ensures Used(table[..], i) ==> IdAt(table[..], h, i) == h.idOf(e) && table[i].hashCache == hashByElm
      ensures !Used(table[..], i) ==> forall y :: Used(table[..], y) && table[y].prev.Some? ==> IdAt(table[..], h, y) != h.idOf(e)
    {
      ghost var T := table[..];
      ghost var f := FreeSlot(T);
      hashByElm := HashElement(h, e, false);
      var s := Home(hashByElm, nrAlloc);
      i := s;
      while table[i].ptr.Some? && (!checkEquality || table[i].hashCache != hashByElm || h.idOf(table[i].ptr.value) != h.idOf(e))
        invariant i < nrAlloc
        invariant ElemProbed(T, h, e, checkEquality, s, i) && Dist(s, i, nrAlloc) <= Dist(s, f, nrAlloc)
        decreases Dist(s, f, nrAlloc) - Dist(s, i, nrAlloc)
      {
        ProbeStep(T, s, i, f);
        i := Incr(i, nrAlloc);
      }
      ElemProbeExit(T, slots, h, e, checkEquality, i);
    }

    /** `lookupByElement`: the slot of the stored element equal to `e`, or a free slot when there is none. */
    method LookupByElement(h: Hasher<E, I, K>, e: E) returns (i: nat)
      requires Valid(h)
      ensures i < nrAlloc
      ensures Used(table[..], i) ==> IdAt(table[..], h, i) == h.idOf(e)
      ensures !Used(table[..], i) ==> forall y :: Used(table[..], y) ==> IdAt(table[..], h, y) != h.idOf(e)
    {
      var hashByKey := HashElement(h, e, true);
      i := FindHead(h, KeyOf(h, e), hashByKey);
      if table[i].ptr.Some? {
        if h.idOf(table[i].ptr.value) == h.idOf(e) {
          return;
        }
        var hashByElm;
        i, hashByElm := FindElementPlace(h, e, true);
        if table[i].ptr.None? {
          NotStored(table[..], slots, h, e);
        }
        return;
      }
      AbsentKey(table[..], slots, h, e);
    }

    /** `lookup`: the stored element equal to `e`, if any. */
    method Lookup(h: Hasher<E, I, K>, e: E) returns (r: Option<E>)
      requires Valid(h)
      ensures r == Spec.Lookup(Contents(h), h, e)
    {
      var i := LookupByElement(h, e);
      r := table[i].ptr;
      if r.Some? {
        ghost var m := FoundLookup(table[..], slots, h, i, e);
      } else {
        MissingLookup(table[..], slots, h, e);
      }
    }

    /**
     * `lookupByKey` and `lookupWithElementByKey`: the elements with key `k`, head first,
     * stopping after `limit` of them unless `limit` is 0.
     */
    method LookupByKey(h: Hasher<E, I, K>, k: K, hashByKey: uint64, limit: nat) returns (r: seq<E>)
      requires Valid(h) && hashByKey == h.hashKey(k)
      ensures r == Spec.ByKey(Contents(h), k, limit)
    {
      r := [];
      var i := FindHead(h, k, hashByKey);
      if table[i].ptr.Some? {
        ghost var end;
        r, end := WalkChain(h, k, slots[k], table[..], i, limit);
        ChainTake(table[..], slots, h, k, 0, end, limit);
      }
    }

    /**
     * The loop of `lookupByKey`: from the head in slot `i` of the chain `cs` along the `next`
     * links, collecting elements until the chain ends or `limit` of them are collected
     * (`limit` 0: no limit); `end` is the number collected.
     */
    method WalkChain(ghost h: Hasher<E, I, K>, ghost k: K, ghost cs: seq<nat>, ghost T: seq<Entry<E>>, i: nat, limit: nat)
      returns (r: seq<E>, ghost end: nat)
      requires table[..] == T && ChainOk(T, cs, k, h) && i == cs[0]
      ensures 0 < end <= |cs| && r == Chain(T, cs)[0..end]
      ensures end == |cs| || (limit != 0 && end == limit)
      ensures limit != 0 ==> end <= limit
    {
      ghost var C := Chain(T, cs);
      r := [];
      var j := i;
      ghost var n := 0;
      while true
        invariant n < |cs| && j == cs[n] && r == C[0..n]
        invariant limit != 0 ==> n < limit
        decreases |cs| - n
      {
        ChainWalk(T, cs, k, h, 0, n);
        r := r + [table[j].ptr.value];
        if table[j].next.None? || (limit != 0 && |r| >= limit) {
          break;
        }
        j := table[j].next.value;
        n := n + 1;
      }
      end := n + 1;
    }

    /**
     * `lookupWithElementByKeyContinue`: the elements after `e` in its key's chain, or after
     * the head when `e` is not stored, at most `limit` of them unless `limit` is 0; `None`
     * when the key is absent.
     */
    method LookupContinue(h: Hasher<E, I, K>, e: E, limit: nat) returns (r: Option<seq<E>>)
      requires Valid(h)
      ensures Spec.ContentsOk(Contents(h), h)
      ensures r == Spec.Continue(Contents(h), h, e, limit)
    {
      var found, i, p := ContinueStart(h, e, limit);
      if !found {
        return None;
      }
      ghost var T, k := table[..], KeyOf(h, e);
      assert ChainOk(T, slots[k], k, h);
      ghost var end;
      var res;
      res, end := WalkAfter(h, k, slots[k], T, i, p, p + 1, limit);
      ChainTake(T, slots, h, k, p + 1, end, limit);
      r := Some(res);
    }

    /**
     * Where `lookupWithElementByKeyContinue` resumes: the slot of the element when it is
     * stored other than at the head, and otherwise the head of its key's chain, found by
     * the key probe; `found` is false when the key has no chain. The continuation is then
     * what follows position `p` of the chain.
     */
    method ContinueStart(h: Hasher<E, I, K>, e: E, ghost limit: nat) returns (found: bool, i: nat, ghost p: nat)
      requires Valid(h)
      ensures Spec.ContentsOk(Contents(h), h)
      ensures found <==> KeyOf(h, e) in slots
      ensures !found ==> Spec.Continue(Contents(h), h, e, limit).None?
      ensures found ==> p < |slots[KeyOf(h, e)]| && slots[KeyOf(h, e)][p] == i
      ensures found ==> Spec.Continue(Contents(h), h, e, limit) == Some(Spec.Take(Contents(h)[KeyOf(h, e)][p + 1..], limit))
    {
      ghost var T := table[..];
      var k := KeyOf(h, e);
      Spec.ElemsOk(T, slots, h);
      var hashByKey := HashElement(h, e, true);
      var hashByElm;
      i, hashByElm := FindElementPlace(h, e, true);
      if table[i].ptr.None? {
        i := FindHead(h, k, hashByKey);
        if table[i].ptr.None? {
          return false, i, 0;
        }
        ContinueFromHead(T, slots, h, e, limit);
        p := 0;
      } else {
        p := FoundLookup(T, slots, h, i, e);
      }
      found := true;
    }

    /**
     * The loop of `lookupWithElementByKeyContinue`: from slot `i`, the `p`-th of the chain `cs`,
     * along the `next` links, collecting the elements after it until the chain ends or `limit`
     * of them are collected (`limit` 0: no limit); `end` is the position after the last one.
     */
    method WalkAfter(ghost h: Hasher<E, I, K>, ghost k: K, ghost cs: seq<nat>, ghost T: seq<Entry<E>>, i: nat, ghost p: nat, ghost q: nat, limit: nat)
      returns (res: seq<E>, ghost end: nat)
      requires table[..] == T && ChainOk(T, cs, k, h) && p < |cs| && i == cs[p] && q == p + 1
      ensures q <= end <= |cs| && res == Chain(T, cs)[q..end]
      ensures end == |cs| || (limit != 0 && end - q == limit)
      ensures limit != 0 ==> end - q <= limit
    {
      ghost var C := Chain(T, cs);
      res := [];
      var j := i;
      ghost var n := p;
      while true
        invariant p <= n < |cs| && j == cs[n] && res == C[q..n + 1]
        invariant limit != 0 ==> |res| <= limit
        decreases |cs| - n
      {
        ChainWalk(T, cs, k, h, p, n);
        if table[j].next.None? || (limit != 0 && |res| >= limit) {
          break;
        }
        j := table[j].next.value;
        n := n + 1;
        ChainWalk(T, cs, k, h, q, n);
        res := res + [table[j].ptr.value];
      }
      end := n + 1;
    }

    /** `moveEntry`: the entry in slot `from` moves to slot `to`, its neighbours' links follow it, and `from` becomes free. */
    method MoveEntry(from: nat, to: nat)
      requires from < table.Length && to < table.Length
      requires table[from].prev.Some? ==> table[from].prev.value < table.Length
      requires table[from].next.Some? ==> table[from].next.value < table.Length
      modifies table
      ensures table[..] == Moved(old(table[..]), from, to)
    {
      ghost var T := table[..];
      table[to] := table[from];
      ghost var T1 := table[..];
      assert T1 == T[to := T[from]];
      if table[to].prev.Some? {
        var p := table[to].prev.value;
        table[p] := table[p].(next := Some(to));
      }
      ghost var T2 := table[..];
      assert T2 == if T1[to].prev.Some? then T1[T1[to].prev.value := T1[T1[to].prev.value].(next := Some(to))] else T1;
      if table[to].next.Some? {
        var n := table[to].next.value;
        table[n] := table[n].(prev := Some(to));
      }
      ghost var T3 := table[..];
      assert T3 == if T2[to].next.Some? then T2[T2[to].next.value := T2[T2[to].next.value].(prev := Some(to))] else T2;
      table[from] := FreeEntry();
    }

    /**
     * `healHole`: after slot `i` was emptied, the elements after it that can no longer be
     * reached from their home slots move back, hole by hole, until a free slot ends the run.
     */
    method HealHole(h: Hasher<E, I, K>, i: nat, ghost M: map<K, seq<E>>, ghost n: int)
      requires table.Length == nrAlloc && Holed(table[..], slots, h, i, M, n)
      modifies this, table
      ensures TableOk(table[..], slots, h) && Elems(table[..], slots, h) == M && |Occupied(table[..])| == n
      ensures table == old(table) && nrAlloc == old(nrAlloc) && nrUsed == old(nrUsed) && nrCollisions == old(nrCollisions)
      ensures |slots| == old(|slots|)
    {
      ghost var e := FreeSlotBut(table[..], i);
      HealInit(table[..], slots, h, i, e);
      var hole := i;
      var j := Incr(i, nrAlloc);
      while table[j].ptr.Some?
        invariant table == old(table) && nrAlloc == old(nrAlloc) && nrUsed == old(nrUsed) && nrCollisions == old(nrCollisions)
        invariant HealInv(table[..], slots, h, hole, j, e)
        invariant Elems(table[..], slots, h) == M && |Occupied(table[..])| == n && |slots| == old(|slots|)
        decreases Dist(j, e, nrAlloc)
      {
        hole := HealStep(h, hole, j, e);
        j := Incr(j, nrAlloc);
      }
      HealExit(table[..], slots, h, hole, j, e);
    }

    /**
     * One round of the `healHole` loop at occupied slot `j`: the element there moves into the
     * hole when the hole lies between its home slot and `j`, and then `j` is the hole.
     */
    method HealStep(h: Hasher<E, I, K>, hole: nat, j: nat, ghost e: nat) returns (hole': nat)
      requires table.Length == nrAlloc && HealInv(table[..], slots, h, hole, j, e) && Used(table[..], j)
      modifies this, table
      ensures table == old(table) && nrAlloc == old(nrAlloc) && nrUsed == old(nrUsed) && nrCollisions == old(nrCollisions)
      ensures j < nrAlloc && HealInv(table[..], slots, h, hole', Incr(j, nrAlloc), e)
      ensures Elems(table[..], slots, h) == old(Elems(table[..], slots, h))
      ensures |Occupied(table[..])| == old(|Occupied(table[..])|) && |slots| == old(|slots|)
      ensures Dist(Incr(j, nrAlloc), e, nrAlloc) < Dist(j, e, nrAlloc)
    {
      ChainSlot(table[..], slots, h, j);
      var hash := HashElement(h, table[j].ptr.value, table[j].prev.None?);
      var k := Home(hash, nrAlloc);
      if !IsBetween(hole, k, j) {
        ShiftBack(h, hole, j, e);
        hole' := j;
      } else {
        HealKeep(table[..], slots, h, hole, j, e);
        hole' := hole;
      }
    }

    /** The move of one `healHole` round: the element in slot `j` goes into the hole, which moves to `j`. */
    method ShiftBack(ghost h: Hasher<E, I, K>, hole: nat, j: nat, ghost e: nat)
      requires table.Length == nrAlloc && HealInv(table[..], slots, h, hole, j, e) && Used(table[..], j)
      requires !IsBetween(hole, HomeOf(table[..], j), j)
      modifies this, table
      ensures table == old(table) && nrAlloc == old(nrAlloc) && nrUsed == old(nrUsed) && nrCollisions == old(nrCollisions)
      ensures j < nrAlloc && HealInv(table[..], slots, h, j, Incr(j, nrAlloc), e)
      ensures Elems(table[..], slots, h) == old(Elems(table[..], slots, h))
      ensures |Occupied(table[..])| == old(|Occupied(table[..])|) && |slots| == old(|slots|)
      ensures Dist(Incr(j, nrAlloc), e, nrAlloc) < Dist(j, e, nrAlloc)
    {
      ghost var T := table[..];
      ghost var S := slots;
      ghost var m := HealMove(T, S, h, hole, j, e);
      ghost var key := KeyAt(T, h, j);
      ghost var cs': seq<nat> := S[key][m := hole];
      SwapCard(Occupied(T), j, hole);
      MoveEntry(j, hole);
      slots := S[key := cs'];
    }

    /**
     * The body of `insert` once the bucket has room for one more element: a new key starts a
     * chain in the free slot the head probe stops at; an element equal to a stored one is
     * returned and, with `overwrite`, takes its place; any other element goes into the free
     * slot `findElementPlace` finds and is linked in second. Without `checkEquality` the
     * caller promises that no equal element is stored.
     */
    method Put(h: Hasher<E, I, K>, e: E, overwrite: bool, checkEquality: bool) returns (prior: Option<E>)
      requires Valid(h) && nrUsed + 1 < nrAlloc
      requires !checkEquality ==> Spec.Lookup(Contents(h), h, e).None?
      modifies this, table
      ensures Valid(h) && table == old(table) && nrAlloc == old(nrAlloc)
      ensures Spec.ContentsOk(old(Contents(h)), h)
      ensures (Contents(h), prior) == Spec.Insert(old(Contents(h)), h, e, overwrite)
      ensures nrUsed == old(nrUsed) + (if prior.None? then 1 else 0)
    {
      ghost var T := table[..];
      ghost var S := slots;
      if !checkEquality {
        NoneStored(T, S, h, e);
      }
      var pl, cache := Probe(h, e, checkEquality);
      prior := if pl.Equal? then table[pl.at].ptr else None;
      PlacedOk(T, S, h, e, pl, overwrite);
      Place(h, e, pl, overwrite, cache);
      Settle(h, Spec.Insert(Elems(T, S, h), h, e, overwrite).0, pl);
    }

    /**
     * The probes of `insert`: the head probe for `e`'s key, then, past a head that is not equal
     * to `e` (compared only with `checkEquality`), `findElementPlace`. Also returns the hash
     * the placement caches.
     */
    method Probe(h: Hasher<E, I, K>, e: E, checkEquality: bool) returns (pl: Placement, cache: uint64)
      requires Valid(h)
      requires !checkEquality ==> forall y :: Used(table[..], y) ==> IdAt(table[..], h, y) != h.idOf(e)
      ensures PlacementOk(table[..], slots, h, e, pl)
      ensures pl.NewHead? ==> cache == h.hashKey(KeyOf(h, e))
      ensures pl.Equal? ==> table[pl.at].hashCache == cache
      ensures pl.Member? ==> cache == HashElement(h, e, false)
    {
      var hashByKey := HashElement(h, e, true);
      var i := FindHead(h, KeyOf(h, e), hashByKey);
      if table[i].ptr.None? {
        return NewHead(i), hashByKey;
      }
      if checkEquality && h.idOf(table[i].ptr.value) == h.idOf(e) {
        return Equal(i), table[i].hashCache;
      }
      var j, hashByElm := FindElementPlace(h, e, checkEquality);
      if table[j].ptr.Some? {
        return Equal(j), hashByElm;
      }
      if checkEquality {
        NotStored(table[..], slots, h, e);
      }
      return Member(i, j), hashByElm;
    }

    /**
     * The writes of `insert` for a placement: a new head receives `e` with its key hash and no
     * links; an equal element is replaced by `e` only with `overwrite`, its cached hash written
     * again unchanged; a new member is spliced in after the head with its element hash.
     */
    method Place(h: Hasher<E, I, K>, e: E, pl: Placement, overwrite: bool, cache: uint64)
      requires table.Length == nrAlloc && PlaceShape(table[..], slots, KeyOf(h, e), pl)
      requires pl.NewHead? ==> cache == h.hashKey(KeyOf(h, e))
      requires pl.Equal? ==> table[pl.at].hashCache == cache
      requires pl.Member? ==> cache == HashElement(h, e, false)
      modifies this, table
      ensures table == old(table) && nrAlloc == old(nrAlloc) && nrUsed == old(nrUsed) && nrCollisions == old(nrCollisions)
      ensures table[..] == PlacedTable(old(table[..]), old(slots), h, e, pl, overwrite)
      ensures slots == PlacedSlots(old(table[..]), old(slots), KeyOf(h, e), pl)
    {
      match pl
      case NewHead(i) =>
        table[i] := Entry(cache, Some(e), None, None);
        slots := slots[KeyOf(h, e) := [i]];
      case Equal(x) =>
        if overwrite {
          table[x] := table[x].(hashCache := cache, ptr := Some(e));
        }
      case Member(i, j) =>
        Splice(h, i, j, e, cache);
    }

    /**
     * The splice of `insert` and `insertFurther`: slot `j` receives `e` with its element hash,
     * linked after the head in slot `i` and before the head's old successor.
     */
    method Splice(h: Hasher<E, I, K>, i: nat, j: nat, e: E, hashByElm: uint64)
      requires i < table.Length && j < table.Length && i != j && hashByElm == HashElement(h, e, false)
      requires table[i].next.Some? ==> table[i].next.value < table.Length
      requires KeyOf(h, e) in slots && 0 < |slots[KeyOf(h, e)]|
      modifies this, table
      ensures table == old(table) && nrAlloc == old(nrAlloc) && nrUsed == old(nrUsed) && nrCollisions == old(nrCollisions)
      ensures table[..] == Spliced(old(table[..]), i, j, MemberEntry(h, e, old(table[i].next), i))
      ensures slots == old(slots)[KeyOf(h, e) := [i, j] + old(slots)[KeyOf(h, e)][1..]]
    {
      ghost var T := table[..];
      ghost var en := MemberEntry(h, e, table[i].next, i);
      table[j] := Entry(hashByElm, Some(e), table[i].next, Some(i));
      table[i] := table[i].(next := Some(j));
      ghost var T1 := table[..];
      assert T1 == T[j := en][i := T[i].(next := Some(j))];
      if table[j].next.Some? {
        var n := table[j].next.value;
        table[n] := table[n].(prev := Some(j));
      }
      ghost var k := KeyOf(h, e);
      slots := slots[k := [i, j] + slots[k][1..]];
    }

    /** The closing `_nrUsed++` of `insert` for a filled slot, and `_nrCollisions++` for a new member. */
    method Settle(h: Hasher<E, I, K>, ghost M: map<K, seq<E>>, pl: Placement)
      requires table.Length == nrAlloc && TableOk(table[..], slots, h) && Elems(table[..], slots, h) == M
      requires |Occupied(table[..])| == nrUsed + Added(pl) && nrCollisions + (if pl.Member? then 1 else 0) + |slots| == nrUsed + Added(pl)
      requires nrUsed + Added(pl) < nrAlloc
      modifies this
      ensures Valid(h) && Contents(h) == M
      ensures table == old(table) && nrAlloc == old(nrAlloc) && nrUsed == old(nrUsed) + Added(pl)
      ensures nrCollisions == old(nrCollisions) + (if pl.Member? then 1 else 0)
    {
      nrUsed := nrUsed + Added(pl);
      if pl.Member? {
        nrCollisions := nrCollisions + 1;
      }
    }

    /** A new table of `n` slots, each set free by `invalidateEntry`. */
    static method FreshTable(n: nat) returns (t: array<Entry<E>>)
      ensures fresh(t) && t.Length == n
      ensures forall x :: 0 <= x < n ==> t[x] == FreeEntry()
    {
      t := new Entry<E>[n];
      for i := 0 to n
        invariant forall x :: 0 <= x < i ==> t[x] == FreeEntry()
      {
        t[i] := FreeEntry();
      }
    }

    /**
     * `insert` of one element: the bucket grows first when `Grows` says so, to a near prime
     * (`nearPrime`, standing for `TRI_NearPrime`) of at least twice its size plus one; then
     * the element is put in.
     */
    method Insert(h: Hasher<E, I, K>, e: E, overwrite: bool, checkEquality: bool, nearPrime: nat -> nat) returns (prior: Option<E>)
      requires Valid(h) && forall n :: nearPrime(n) >= n
      requires !checkEquality ==> Spec.Lookup(Contents(h), h, e).None?
      modifies this, table
      ensures Valid(h) && Spec.ContentsOk(old(Contents(h)), h)
      ensures (Contents(h), prior) == Spec.Insert(old(Contents(h)), h, e, overwrite)
      ensures nrUsed == old(nrUsed) + (if prior.None? then 1 else 0)
      ensures nrAlloc == GrownAlloc(old(nrAlloc), old(nrUsed), nearPrime)
      ensures table == old(table) || fresh(table)
    {
      Grow(h, nearPrime);
      prior := Put(h, e, overwrite, checkEquality);
    }

    /** The growth step of `insert`: a bucket that `Grows` moves to `nearPrime(2 * nrAlloc + 1)` slots. */
    method Grow(h: Hasher<E, I, K>, nearPrime: nat -> nat)
      requires Valid(h) && forall n :: nearPrime(n) >= n
      modifies this
      ensures Valid(h) && Contents(h) == old(Contents(h)) && nrUsed == old(nrUsed) && nrUsed + 1 < nrAlloc
      ensures nrAlloc == GrownAlloc(old(nrAlloc), old(nrUsed), nearPrime)
      ensures table == old(table) || fresh(table)
    {
      if Grows(nrAlloc, nrUsed) {
        var size := 2 * nrAlloc + 1;
        assert GrownAlloc(nrAlloc, nrUsed, nearPrime) == nearPrime(size);
        ResizeInternal(h, size, nearPrime);
      }
    }

    /**
     * `resizeInternal`: the bucket moves to a new table of `nearPrime(size)` slots, holding
     * the same elements in the same chains. The old table is scanned slot by slot; each
     * chain head found is inserted with `insertFirst` and the rest of its chain with
     * `insertFurther`, from the tail backwards.
     */
    method ResizeInternal(h: Hasher<E, I, K>, size: nat, nearPrime: nat -> nat)
      requires Valid(h) && nrUsed < nearPrime(size)
      modifies this
      ensures Valid(h) && fresh(table) && nrAlloc == nearPrime(size)
      ensures Contents(h) == old(Contents(h)) && nrUsed == old(nrUsed)
    {
      var src := table[..];
      ghost var S0 := slots;
      Reset(h, nearPrime(size));
      Scan(h, src, S0);
    }

    /**
     * The scan of `resizeInternal` over the old table `src`, into the empty new table: every
     * chain of the old table is copied, so the new table holds the old contents.
     */
    method Scan(h: Hasher<E, I, K>, src: seq<Entry<E>>, ghost S0: map<K, seq<nat>>)
      requires Valid(h) && TableOk(src, S0, h) && |Occupied(src)| < nrAlloc && Contents(h) == map[] && nrUsed == 0
      modifies this, table
      ensures Valid(h) && table == old(table) && nrAlloc == old(nrAlloc)
      ensures Contents(h) == Elems(src, S0, h) && nrUsed == |Occupied(src)|
    {
      ghost var P: set<nat> := {};
      ScanStart(src, S0, h, P, Contents(h), nrUsed);
      for j := 0 to |src|
        invariant Valid(h) && table == old(table) && nrAlloc == old(nrAlloc) && Scanned(src, S0, h, j, P, Contents(h), nrUsed)
      {
        P := CopyStep(h, src, j, S0, P);
      }
      ScanEnd(src, S0, h, P, Contents(h), nrUsed);
    }

    /** The start of `resizeInternal`: an empty table of `n` free slots replaces the old one. */
    method Reset(ghost h: Hasher<E, I, K>, n: nat)
      requires 0 < n
      modifies this
      ensures Valid(h) && fresh(table) && nrAlloc == n && Contents(h) == map[] && nrUsed == 0
    {
      nrAlloc := n;
      table := FreshTable(n);
      nrUsed := 0;
      nrCollisions := 0;
      slots := map[];
      assert Occupied(table[..]) == {};
    }

    /**
     * One slot of the scan of `resizeInternal` over the old table `src`: when slot `j` holds
     * a chain head, its chain is copied; any other slot is passed over.
     */
    method CopyStep(h: Hasher<E, I, K>, src: seq<Entry<E>>, j: nat, ghost S0: map<K, seq<nat>>, ghost P: set<nat>)
      returns (ghost P': set<nat>)
      requires Valid(h) && |Occupied(src)| < nrAlloc && j < |src| && Scanned(src, S0, h, j, P, Contents(h), nrUsed)
      modifies this, table
      ensures Valid(h) && table == old(table) && nrAlloc == old(nrAlloc)
      ensures Scanned(src, S0, h, j + 1, P', Contents(h), nrUsed)
    {
      if src[j].ptr.Some? && src[j].prev.None? {
        ghost var k := KeyAt(src, h, j);
        ghost var C := Contents(h);
        Spec.ElemsOk(table[..], slots, h);
        HeadCopied(src, S0, h, j, P, C);
        P' := CopyChain(h, src, j, S0[k], k, P);
        ChainDone(src, S0, h, j, P, P', C, Contents(h));
      } else {
        RebuiltSkip(src, S0, h, j, P);
        P' := P;
      }
    }

    /**
     * One chain of `resizeInternal`: the head in slot `j` of the old table `src` is inserted
     * with `insertFirst`; then, from the chain's tail backwards, each further member with
     * `insertFurther`, which puts it second, so the chain is rebuilt in its old order.
     */
    method CopyChain(h: Hasher<E, I, K>, src: seq<Entry<E>>, j: nat, ghost cs: seq<nat>, ghost k: K, ghost P: set<nat>)
      returns (ghost P': set<nat>)
      requires Valid(h) && |Occupied(src)| < nrAlloc
      requires ChainOk(src, cs, k, h) && Spec.IdsUnique(Chain(src, cs), h) && cs[0] == j
      requires k !in Contents(h) && |P + {j}| == |P| + 1 <= |Occupied(src)|
      requires AllFound(src, h, P + {j}, Contents(h)[k := [src[j].ptr.value]]) && nrUsed == |P|
      modifies this, table
      ensures Valid(h) && table == old(table) && nrAlloc == old(nrAlloc) && P <= P'
      ensures Contents(h) == old(Contents(h))[k := Chain(src, cs)]
      ensures AllFound(src, h, P', Contents(h)) && nrUsed == |P'|
      ensures forall m :: 0 <= m < |cs| ==> cs[m] in P'
    {
      var x;
      ghost var q;
      x, q := ChainEnd(src, j, cs, k, h);
      ChainBack(src, cs, k, h, q);
      ghost var r: nat := q + 1;
      ghost var C0 := Contents(h);
      ghost var P1 := P + {j};
      var hashByKey := StartChain(h, src, j, cs, k, C0, q, r, P);
      P' := CopyTail(h, src, j, x, hashByKey, cs, k, C0, q, r, P1);
      AllCopied(cs, q, P1, P');
    }

    /** The head of a chain of `resizeInternal`, in slot `j` of the old table `src`, goes in with `insertFirst`. */
    method StartChain(h: Hasher<E, I, K>, src: seq<Entry<E>>, j: nat, ghost cs: seq<nat>, ghost k: K, ghost C0: map<K, seq<E>>,
                      ghost q: nat, ghost r: nat, ghost P: set<nat>) returns (hashByKey: uint64)
      requires Valid(h) && |Occupied(src)| < nrAlloc && C0 == Contents(h)
      requires ChainOk(src, cs, k, h) && Spec.IdsUnique(Chain(src, cs), h) && cs[0] == j && r == |cs| && q + 1 == r
      requires k !in C0 && |P + {j}| == |P| + 1 <= |Occupied(src)|
      requires AllFound(src, h, P + {j}, C0[k := [src[j].ptr.value]]) && nrUsed == |P|
      modifies this, table
      ensures Tailing(h, src, j, hashByKey, cs, k, C0, q, r, q, P + {j}, P + {j})
      ensures table == old(table) && nrAlloc == old(nrAlloc)
    {
      hashByKey := src[j].hashCache;
      InsertFirst(h, src[j].ptr.value, hashByKey);
      HeadOnly(src, cs, k, h, j, r, P, nrUsed, C0, Contents(h));
    }

    /**
     * The state of the backward walk of `resizeInternal` over the chain `cs` of key `k` in the
     * old table `src`, before its `q`-th member: the new table holds the contents `C0` it held
     * when the walk began, except that key `k` has the chain's head and the members after the
     * `q`-th, and the old slots in `P'`, among them those of the members copied, are copied.
     */
    ghost predicate Tailing(h: Hasher<E, I, K>, src: seq<Entry<E>>, j: nat, hashByKey: uint64, cs: seq<nat>, k: K,
                            C0: map<K, seq<E>>, q: nat, r: nat, q0: nat, P: set<nat>, P': set<nat>)
      reads this, table
    {
      && Valid(h) && |Occupied(src)| < nrAlloc
      && ChainOk(src, cs, k, h) && Spec.IdsUnique(Chain(src, cs), h) && q <= q0 < |cs| && r == q + 1 && cs[0] == j && hashByKey == h.hashKey(k)
      && Contents(h) == C0[k := [Chain(src, cs)[0]] + Chain(src, cs)[r..]]
      && AllFound(src, h, P', Contents(h)) && nrUsed == |P'| && P <= P'
      && forall m :: q < m <= q0 ==> cs[m] in P'
    }

    /**
     * The backward walk of `resizeInternal` over one chain of the old table `src`: from slot
     * `x0`, the `q0`-th of the chain, back to the head in slot `j`, each member is inserted
     * with `insertFurther`, ahead of those inserted before it.
     */
    method CopyTail(h: Hasher<E, I, K>, src: seq<Entry<E>>, j: nat, x0: nat, hashByKey: uint64, ghost cs: seq<nat>,
                    ghost k: K, ghost C0: map<K, seq<E>>, ghost q0: nat, ghost r0: nat, ghost P: set<nat>) returns (ghost P': set<nat>)
      requires Tailing(h, src, j, hashByKey, cs, k, C0, q0, r0, q0, P, P) && x0 == cs[q0] && (x0 == j <==> q0 == 0)
      modifies this, table
      ensures Valid(h) && table == old(table) && nrAlloc == old(nrAlloc) && P <= P'
      ensures Contents(h) == C0[k := Chain(src, cs)]
      ensures AllFound(src, h, P', Contents(h)) && nrUsed == |P'|
      ensures forall m :: 0 < m <= q0 ==> cs[m] in P'
    {
      ghost var s := Chain(src, cs);
      var x := x0;
      ghost var q: nat := q0;
      ghost var r: nat := r0;
      P' := P;
      while x != j
        invariant Tailing(h, src, j, hashByKey, cs, k, C0, q, r, q0, P, P')
        invariant x == cs[q] && (x == j <==> q == 0) && table == old(table) && nrAlloc == old(nrAlloc)
        decreases q
      {
        x, P' := CopyPrev(h, src, j, x, hashByKey, cs, k, C0, q, r, q0, P, P');
        r := q;
        q := q - 1;
      }
      HeadRest(s, r);
    }

    /**
     * One step of the walk of `resizeInternal` back from a chain's tail: the member in slot `x`
     * of `src`, the `q`-th of its chain, goes second in the new table (`insertFurther`), and the
     * walk moves on to the slot before it.
     */
    method CopyPrev(h: Hasher<E, I, K>, src: seq<Entry<E>>, j: nat, x: nat, hashByKey: uint64, ghost cs: seq<nat>,
                    ghost k: K, ghost C0: map<K, seq<E>>, ghost q: nat, ghost r: nat, ghost q0: nat, ghost P: set<nat>, ghost P1: set<nat>)
      returns (y: nat, ghost P': set<nat>)
      requires Tailing(h, src, j, hashByKey, cs, k, C0, q, r, q0, P, P1) && 0 < q && x == cs[q]
      modifies this, table
      ensures Tailing(h, src, j, hashByKey, cs, k, C0, q - 1, q, q0, P, P')
      ensures y == cs[q - 1] && (y == j <==> q == 1) && table == old(table) && nrAlloc == old(nrAlloc)
    {
      ghost var s := Chain(src, cs);
      ChainBack(src, cs, k, h, q);
      y := src[x].prev.value;
      ghost var C := Contents(h);
      Spec.ElemsOk(table[..], slots, h);
      MemberCopied(src, cs, k, h, q, r, C);
      TailCopied(cs, q, q0, P1);
      ghost var p := q - 1;
      ChainBack(src, cs, k, h, p);
      P' := CopyMember(h, src, x, hashByKey, P1);
      Overridden(C0, C, k, [s[0]] + s[r..], [s[0]] + s[q..]);
    }

    /** The walk of `resizeInternal` from a chain head in slot `j` of `src` to the chain's tail. */
    method ChainEnd(src: seq<Entry<E>>, j: nat, ghost cs: seq<nat>, ghost k: K, ghost h: Hasher<E, I, K>)
      returns (x: nat, ghost q: nat)
      requires ChainOk(src, cs, k, h) && cs[0] == j
      ensures q == |cs| - 1 && x == cs[q]
    {
      x, q := j, 0;
      while src[x].next.Some?
        invariant q < |cs| && x == cs[q]
        invariant q < |cs| - 1 ==> src[cs[q]].next == Some(cs[q + 1])
        decreases |cs| - q
      {
        x := src[x].next.value;
        q := q + 1;
      }
    }

    /**
     * One further member of `resizeInternal`: the element in slot `x` of the old table
     * `src`, which has a present key and is not stored yet, is inserted with `insertFurther`.
     */
    method CopyMember(h: Hasher<E, I, K>, src: seq<Entry<E>>, x: nat, hashByKey: uint64, ghost P: set<nat>)
      returns (ghost P': set<nat>)
      requires Valid(h) && |Occupied(src)| < nrAlloc
      requires Used(src, x) && src[x].hashCache == HashElement(h, src[x].ptr.value, false) && hashByKey == h.hashKey(KeyOf(h, src[x].ptr.value))
      requires KeyOf(h, src[x].ptr.value) in Contents(h) && Spec.Lookup(Contents(h), h, src[x].ptr.value).None?
      requires AllFound(src, h, P, Contents(h)) && nrUsed == |P|
      modifies this, table
      ensures Valid(h) && table == old(table) && nrAlloc == old(nrAlloc) && P' == P + {x}
      ensures Spec.ContentsOk(old(Contents(h)), h) && Contents(h) == Spec.Insert(old(Contents(h)), h, src[x].ptr.value, false).0
      ensures AllFound(src, h, P', Contents(h)) && nrUsed == |P'|
    {
      var e := src[x].ptr.value;
      Spec.ElemsOk(table[..], slots, h);
      CopyOne(src, h, P, Contents(h), x);
      InsertFurther(h, e, hashByKey, src[x].hashCache);
      P' := P + {x};
    }

    /**
     * `insertFirst`: `e`, whose key is not present, becomes the head of a new chain in the
     * first free slot from the home slot of `hashByKey`.
     */
    method InsertFirst(h: Hasher<E, I, K>, e: E, hashByKey: uint64)
      requires Valid(h) && nrUsed + 1 < nrAlloc && hashByKey == h.hashKey(KeyOf(h, e)) && KeyOf(h, e) !in Contents(h)
      modifies this, table
      ensures Valid(h) && table == old(table) && nrAlloc == old(nrAlloc) && nrUsed == old(nrUsed) + 1
      ensures Contents(h) == old(Contents(h))[KeyOf(h, e) := [e]]
    {
      ghost var T := table[..];
      ghost var S := slots;
      var i := FindFree(h, Home(hashByKey, nrAlloc));
      PlacedOk(T, S, h, e, NewHead(i), false);
      Place(h, e, NewHead(i), false, hashByKey);
      Settle(h, Spec.Insert(Elems(T, S, h), h, e, false).0, NewHead(i));
    }

    /**
     * `insertFurther`: `e`, whose key is present and which equals no stored element, is
     * linked in second in its key's chain, from the first free slot from the home slot of
     * `hashByElm`.
     */
    method InsertFurther(h: Hasher<E, I, K>, e: E, hashByKey: uint64, hashByElm: uint64)
      requires Valid(h) && nrUsed + 1 < nrAlloc && hashByKey == h.hashKey(KeyOf(h, e)) && hashByElm == HashElement(h, e, false)
      requires KeyOf(h, e) in Contents(h) && Spec.Lookup(Contents(h), h, e).None?
      modifies this, table
      ensures Valid(h) && table == old(table) && nrAlloc == old(nrAlloc) && nrUsed == old(nrUsed) + 1
      ensures Spec.ContentsOk(old(Contents(h)), h)
      ensures (Contents(h), None) == Spec.Insert(old(Contents(h)), h, e, false)
    {
      ghost var T := table[..];
      ghost var S := slots;
      NoneStored(T, S, h, e);
      var i := FindHead(h, KeyOf(h, e), hashByKey);
      var j := FindFree(h, Home(hashByElm, nrAlloc));
      PlacedOk(T, S, h, e, Member(i, j), false);
      Place(h, e, Member(i, j), false, hashByElm);
      Settle(h, Spec.Insert(Elems(T, S, h), h, e, false).0, Member(i, j));
    }

    /**
     * `remove`: the stored element equal to `e` leaves the bucket and is returned; nothing
     * changes when there is none.
     */
    method Remove(h: Hasher<E, I, K>, e: E) returns (r: Option<E>)
      requires Valid(h)
      modifies this, table
      ensures Valid(h) && table == old(table)
      ensures Spec.ContentsOk(old(Contents(h)), h)
      ensures (Contents(h), r) == Spec.Remove(old(Contents(h)), h, e)
      ensures nrUsed == old(nrUsed) - (if r.Some? then 1 else 0)
    {
      var i := LookupByElement(h, e);
      ghost var T := table[..];
      ghost var S := slots;
      Spec.ElemsOk(T, S, h);
      if table[i].ptr.None? {
        MissingLookup(T, S, h, e);
        return None;
      }
      ghost var p := DetachOk(T, S, h, i, e);
      r := table[i].ptr;
      var hole := Detach(h, KeyOf(h, e), p, i);
      ghost var M := Spec.Remove(Elems(T, S, h), h, e).0;
      HealHole(h, hole, M, nrUsed - 1);
      DropUsed(h, M);
    }

    /** The closing `_nrUsed--` of `remove`: once the hole is healed, the counters agree with the table again. */
    method DropUsed(h: Hasher<E, I, K>, ghost M: map<K, seq<E>>)
      requires table.Length == nrAlloc && TableOk(table[..], slots, h) && Elems(table[..], slots, h) == M
      requires |Occupied(table[..])| + 1 == nrUsed && nrCollisions + |slots| + 1 == nrUsed && nrUsed <= nrAlloc
      modifies this
      ensures Valid(h) && Contents(h) == M
      ensures table == old(table) && nrUsed == old(nrUsed) - 1
    {
      nrUsed := nrUsed - 1;
    }

    /**
     * The unlinking half of `remove`: the element in slot `i`, at position `p` of the chain of
     * `k`, leaves its chain by the branch its links select, and a collision is given back
     * unless it was alone.
     */
    method Detach(h: Hasher<E, I, K>, ghost k: K, ghost p: nat, i: nat) returns (hole: nat)
      requires DetachShape(table[..], slots, i, k, p) && (!Lone(table[..], i) ==> 0 < nrCollisions)
      modifies this, table
      ensures table == old(table) && nrAlloc == old(nrAlloc) && nrUsed == old(nrUsed)
      ensures nrCollisions == old(nrCollisions) - (if Lone(old(table[..]), i) then 0 else 1)
      ensures table[..] == DetachedTable(old(table[..]), h, i) && slots == DetachedSlots(old(table[..]), old(slots), i, k, p)
      ensures hole == DetachedHole(old(table[..]), i)
    {
      hole := i;
      if table[i].prev.Some? {
        UnlinkSlot(i);
        slots := slots[k := slots[k][..p] + slots[k][p + 1..]];
        nrCollisions := nrCollisions - 1;
      } else if table[i].next.Some? {
        hole := table[i].next.value;
        PromoteNext(h, i);
        slots := slots[k := [i] + slots[k][2..]];
        nrCollisions := nrCollisions - 1;
      } else {
        InvalidateEntry(i);
        slots := slots - {k};
      }
    }

    /** The unlinking step of `remove` for a member after the head: `prev` and `next` are linked to each other, slot `i` is freed. */
    method UnlinkSlot(i: nat)
      requires i < table.Length && table[i].prev.Some? && table[i].prev.value < table.Length
      requires table[i].next.Some? ==> table[i].next.value < table.Length
      modifies table
      ensures table[..] == Unlinked(old(table[..]), i)
    {
      ghost var T := table[..];
      var p := table[i].prev.value;
      table[p] := table[p].(next := table[i].next);
      ghost var T1 := table[..];
      assert T1 == T[p := T[p].(next := T[i].next)];
      if table[i].next.Some? {
        var n := table[i].next.value;
        table[n] := table[n].(prev := table[i].prev);
      }
      assert table[..] == if T1[i].next.Some? then T1[T1[i].next.value := T1[T1[i].next.value].(prev := T1[i].prev)] else T1;
      table[i] := FreeEntry();
    }

    /**
     * The promotion step of `remove` for a head with a successor: the successor loses its
     * `prev` link, moves into slot `i`, and caches the key hash there.
     */
    method PromoteNext(h: Hasher<E, I, K>, i: nat)
      requires i < table.Length && table[i].next.Some? && table[i].next.value < table.Length
      requires table[i].next.value != i && table[table[i].next.value].ptr.Some?
      requires table[table[i].next.value].next.Some? ==> table[table[i].next.value].next.value < table.Length
      modifies table
      ensures table[..] == Promoted(old(table[..]), h, i)
    {
      ghost var T := table[..];
      var j := table[i].next.value;
      table[j] := table[j].(prev := None);
      assert table[..] == T[j := T[j].(prev := None)];
      MoveEntry(j, i);
      table[i] := table[i].(hashCache := HashElement(h, table[i].ptr.value, true));
    }

    /** `invalidateEntry`: slot `i` becomes free. */
    method InvalidateEntry(i: nat)
      requires i < table.Length
      modifies table
      ensures table[..] == old(table[..])[i := FreeEntry()]
    {
      table[i] := FreeEntry();
    }
  }
}
