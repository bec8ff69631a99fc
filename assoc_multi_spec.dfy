/**
 * What a bucket of `AssocMulti` (lib/Basics/AssocMulti.h) holds, seen from outside: for
 * every key present, the elements with that key in chain order, head first. The public
 * operations are specified here on that map, and their properties are proved on it.
 */
module AssocMultiSpec {
  import opened Common
  import opened AssocMultiTable

  /** The position of the first element of `s` equal to `id`, if any. */
  ghost function FindId<E, I, K>(s: seq<E>, h: Hasher<E, I, K>, id: I): (r: Option<nat>)
    ensures r.Some? ==> r.value < |s| && h.idOf(s[r.value]) == id
    ensures r.Some? ==> forall m :: 0 <= m < r.value ==> h.idOf(s[m]) != id
    ensures r.None? ==> forall m :: 0 <= m < |s| ==> h.idOf(s[m]) != id
  {
    if |s| == 0 then None
    else if h.idOf(s[0]) == id then Some(0)
    else match FindId(s[1..], h, id)
      case None => None
      case Some(m) => Some(m + 1)
  }

  /** No two elements of `s` are equal. */
  ghost predicate IdsUnique<E, I, K>(s: seq<E>, h: Hasher<E, I, K>)
  {
    forall a, b :: 0 <= a < b < |s| ==> h.idOf(s[a]) != h.idOf(s[b])
  }

  /** Every key present has a non-empty list of elements with that key, no two of them equal. */
  ghost predicate ContentsOk<E, I, K>(M: map<K, seq<E>>, h: Hasher<E, I, K>)
  {
    forall k {:trigger M[k]} :: k in M ==>
      && 0 < |M[k]|
      && (forall m :: 0 <= m < |M[k]| ==> KeyOf(h, M[k][m]) == k)
      && IdsUnique(M[k], h)
  }

  /** In a list of distinct elements, the element equal to `id` is the only one. */
  lemma FindIdAt<E, I, K>(s: seq<E>, h: Hasher<E, I, K>, m: nat)
    requires IdsUnique(s, h) && m < |s|
    ensures FindId(s, h, h.idOf(s[m])) == Some(m)
  {
  }

  /** `lookup(element)`: the stored element equal to `e`, if any. */
  ghost function Lookup<E, I, K>(M: map<K, seq<E>>, h: Hasher<E, I, K>, e: E): Option<E>
  {
    var k := KeyOf(h, e);
    if k !in M then None
    else match FindId(M[k], h, h.idOf(e))
      case None => None
      case Some(m) => Some(M[k][m])
  }

  /** The first `limit` elements of `s`, or all of them when `limit` is 0. */
  function Take<E>(s: seq<E>, limit: nat): (r: seq<E>)
  {
    if limit == 0 || |s| <= limit then s else s[..limit]
  }

  /** `lookupByKey(key, limit)`: the elements with key `k`, head first, at most `limit` of them unless `limit` is 0. */
  function ByKey<E, K>(M: map<K, seq<E>>, k: K, limit: nat): seq<E>
  {
    if k in M then Take(M[k], limit) else []
  }

  /**
   * `lookupWithElementByKeyContinue(element, limit)`: the elements with the key of `e` that
   * follow `e` in its chain, or those after the head when `e` is not stored; nothing
   * (the source's null result) when the key is absent.
   */
  ghost function Continue<E, I, K>(M: map<K, seq<E>>, h: Hasher<E, I, K>, e: E, limit: nat): Option<seq<E>>
    requires ContentsOk(M, h)
  {
    var k := KeyOf(h, e);
    if k !in M then None
    else
      var start := match FindId(M[k], h, h.idOf(e)) case None => 1 case Some(m) => m + 1;
      Some(Take(M[k][start..], limit))
  }

  /**
   * `insert(element, overwrite, checkEquality)`: the new contents and the result. A new
   * key starts a chain; an element equal to a stored one is returned and, with
   * `overwrite`, takes its place; any other element goes second in its key's chain.
   */
  ghost function Insert<E, I, K>(M: map<K, seq<E>>, h: Hasher<E, I, K>, e: E, overwrite: bool): (map<K, seq<E>>, Option<E>)
    requires ContentsOk(M, h)
  {
    var k := KeyOf(h, e);
    if k !in M then (M[k := [e]], None)
    else match FindId(M[k], h, h.idOf(e))
      case Some(m) => (if overwrite then M[k := M[k][m := e]] else M, Some(M[k][m]))
      case None => (M[k := [M[k][0], e] + M[k][1..]], None)
  }

  /** `remove(element)`: the stored element equal to `e` leaves its chain, and its key leaves with its last element. */
  ghost function Remove<E, I, K>(M: map<K, seq<E>>, h: Hasher<E, I, K>, e: E): (map<K, seq<E>>, Option<E>)
  {
    var k := KeyOf(h, e);
    if k !in M then (M, None)
    else match FindId(M[k], h, h.idOf(e))
      case None => (M, None)
      case Some(m) => (if |M[k]| == 1 then M - {k} else M[k := M[k][..m] + M[k][m + 1..]], Some(M[k][m]))
  }

  /** A stored element is found exactly by the elements equal to it. */
  lemma LookupFinds<E, I, K>(M: map<K, seq<E>>, h: Hasher<E, I, K>, k: K, m: nat, e: E)
    requires ContentsOk(M, h) && k in M && m < |M[k]|
    ensures Lookup(M, h, e) == Some(M[k][m]) <==> h.idOf(e) == h.idOf(M[k][m])
  {
    assert 0 < |M[k]| && KeyOf(h, M[k][m]) == k && IdsUnique(M[k], h);
    if h.idOf(e) == h.idOf(M[k][m]) {
      FindIdAt(M[k], h, m);
    }
  }

  /** Whatever `Lookup` returns is equal to the element looked up and stored under its key. */
  lemma LookupSound<E, I, K>(M: map<K, seq<E>>, h: Hasher<E, I, K>, e: E)
    requires Lookup(M, h, e).Some?
    ensures KeyOf(h, e) in M && Lookup(M, h, e).value in M[KeyOf(h, e)]
    ensures h.idOf(Lookup(M, h, e).value) == h.idOf(e)
  {
  }

  /**
   * After `insert` the contents are still well formed; the result is what `lookup` found
   * before; the inserted element is found unless an equal one was kept; every other
   * element is found exactly as before.
   */
  lemma InsertLookup<E, I, K>(M: map<K, seq<E>>, h: Hasher<E, I, K>, e: E, overwrite: bool, e': E)
    requires ContentsOk(M, h)
    ensures var (M', r) := Insert(M, h, e, overwrite);
      && ContentsOk(M', h)
      && r == Lookup(M, h, e)
      && Lookup(M', h, e') == (if h.idOf(e') != h.idOf(e) then Lookup(M, h, e')
                               else if r.None? || overwrite then Some(e) else r)
  {
    var k, k' := KeyOf(h, e), KeyOf(h, e');
    var (M', r) := Insert(M, h, e, overwrite);
    InsertContentsOk(M, h, e, overwrite);
    if h.idOf(e') == h.idOf(e) {
      assert k' == k;
      if k !in M {
        FindIdAt(M'[k], h, 0);
      } else {
        var f := FindId(M[k], h, h.idOf(e));
        if f.Some? {
          if overwrite { FindIdAt(M'[k], h, f.value); }
        } else {
          FindIdAt(M'[k], h, 1);
        }
      }
    } else if k' == k && k in M {
      InsertOtherId(M, h, e, overwrite, e');
    }
  }

  /** Insertion keeps the contents well formed. */
  lemma InsertContentsOk<E, I, K>(M: map<K, seq<E>>, h: Hasher<E, I, K>, e: E, overwrite: bool)
    requires ContentsOk(M, h)
    ensures ContentsOk(Insert(M, h, e, overwrite).0, h)
  {
    var k := KeyOf(h, e);
    var M' := Insert(M, h, e, overwrite).0;
    if k in M {
      var s := M[k];
      assert 0 < |s| && IdsUnique(s, h) && forall m :: 0 <= m < |s| ==> KeyOf(h, s[m]) == k;
      var f := FindId(s, h, h.idOf(e));
      if f.None? {
        var s' := [s[0], e] + s[1..];
        assert forall m :: 1 < m < |s'| ==> s'[m] == s[m - 1];
        forall a, b | 0 <= a < b < |s'|
          ensures h.idOf(s'[a]) != h.idOf(s'[b])
        {
          if a != 1 && b != 1 {
            assert s'[a] == s[if a == 0 then 0 else a - 1];
          }
        }
        assert M' == M[k := s'];
      } else if overwrite {
        var s' := s[f.value := e];
        assert IdsUnique(s', h);
        assert M' == M[k := s'];
      }
    }
  }

  /** Inserting `e` leaves the chain positions of elements not equal to it found as before. */
  lemma InsertOtherId<E, I, K>(M: map<K, seq<E>>, h: Hasher<E, I, K>, e: E, overwrite: bool, e': E)
    requires ContentsOk(M, h) && KeyOf(h, e) in M && KeyOf(h, e') == KeyOf(h, e) && h.idOf(e') != h.idOf(e)
    ensures Lookup(Insert(M, h, e, overwrite).0, h, e') == Lookup(M, h, e')
  {
    var k := KeyOf(h, e);
    var s := M[k];
    var M' := Insert(M, h, e, overwrite).0;
    InsertContentsOk(M, h, e, overwrite);
    var s' := M'[k];
    assert IdsUnique(s', h);
    var f := FindId(s, h, h.idOf(e'));
    var f' := FindId(s', h, h.idOf(e'));
    if FindId(s, h, h.idOf(e)).None? {
      assert s' == [s[0], e] + s[1..];
      if f.Some? {
        FindIdAt(s', h, if f.value == 0 then 0 else f.value + 1);
      }
    } else if overwrite {
      var n := FindId(s, h, h.idOf(e)).value;
      assert s' == s[n := e];
      if f.Some? {
        FindIdAt(s', h, f.value);
      }
    }
  }

  /**
   * After `remove` the contents are still well formed; the result is what `lookup` found
   * before; the removed element is no longer found; every other element is found exactly
   * as before.
   */
  lemma RemoveLookup<E, I, K>(M: map<K, seq<E>>, h: Hasher<E, I, K>, e: E, e': E)
    requires ContentsOk(M, h)
    ensures var (M', r) := Remove(M, h, e);
      && ContentsOk(M', h)
      && r == Lookup(M, h, e)
      && Lookup(M', h, e') == (if h.idOf(e') == h.idOf(e) then None else Lookup(M, h, e'))
  {
    var k, k' := KeyOf(h, e), KeyOf(h, e');
    var (M', r) := Remove(M, h, e);
    if k in M && FindId(M[k], h, h.idOf(e)).Some? {
      var s := M[k];
      var n := FindId(s, h, h.idOf(e)).value;
      assert 0 < |s| && IdsUnique(s, h) && forall m :: 0 <= m < |s| ==> KeyOf(h, s[m]) == k;
      if |s| == 1 {
        assert M' == M - {k};
      } else {
        var s' := s[..n] + s[n + 1..];
        DropFind(s, h, n, h.idOf(e'));
        assert M' == M[k := s'];
      }
    }
  }

  /** An element of a present key with no equal element stored goes second in its key's list. */
  lemma InsertSecond<E, I, K>(M: map<K, seq<E>>, h: Hasher<E, I, K>, e: E, overwrite: bool)
    requires ContentsOk(M, h) && KeyOf(h, e) in M && FindId(M[KeyOf(h, e)], h, h.idOf(e)).None?
    ensures var k := KeyOf(h, e);
      Insert(M, h, e, overwrite) == (M[k := [M[k][0], e] + M[k][1..]], None)
  {
  }

  /** Dropping the `n`-th of a list of distinct elements keeps the others findable, at their new places. */
  lemma DropFind<E, I, K>(s: seq<E>, h: Hasher<E, I, K>, n: nat, id: I)
    requires IdsUnique(s, h) && n < |s|
    ensures var s' := s[..n] + s[n + 1..];
      && IdsUnique(s', h)
      && (FindId(s', h, id).Some? <==> FindId(s, h, id).Some? && id != h.idOf(s[n]))
      && (FindId(s', h, id).Some? ==> s'[FindId(s', h, id).value] == s[FindId(s, h, id).value])
  {
    var s' := s[..n] + s[n + 1..];
    assert forall m :: 0 <= m < |s'| ==> s'[m] == s[if m < n then m else m + 1];
    DroppedFind(s, s', h, n, id);
  }

  /** `DropFind`, for any list `s'` that lists `s` without its `n`-th element. */
  lemma DroppedFind<E, I, K>(s: seq<E>, s': seq<E>, h: Hasher<E, I, K>, n: nat, id: I)
    requires IdsUnique(s, h) && n < |s| && |s'| + 1 == |s|
    requires forall m :: 0 <= m < |s'| ==> s'[m] == s[if m < n then m else m + 1]
    ensures IdsUnique(s', h)
    ensures FindId(s', h, id).Some? <==> FindId(s, h, id).Some? && id != h.idOf(s[n])
    ensures FindId(s', h, id).Some? ==> s'[FindId(s', h, id).value] == s[FindId(s, h, id).value]
  {
    var f, f' := FindId(s, h, id), FindId(s', h, id);
    if f'.Some? {
      var m := if f'.value < n then f'.value else f'.value + 1;
      FindIdAt(s, h, m);
      assert s[m] == s'[f'.value] && m != n;
    }
    if f.Some? && id != h.idOf(s[n]) {
      var m := if f.value < n then f.value else f.value - 1;
      assert s'[m] == s[f.value];
    }
  }

  /** Removing an element that was just inserted, and not stored before, restores the contents. */
  lemma InsertRemove<E, I, K>(M: map<K, seq<E>>, h: Hasher<E, I, K>, e: E, overwrite: bool)
    requires ContentsOk(M, h) && Lookup(M, h, e).None?
    ensures Remove(Insert(M, h, e, overwrite).0, h, e) == (M, Some(e))
  {
    var k := KeyOf(h, e);
    var M' := Insert(M, h, e, overwrite).0;
    InsertContentsOk(M, h, e, overwrite);
    if k in M {
      var s := M[k];
      var s' := [s[0], e] + s[1..];
      assert M'[k] == s';
      FindIdAt(s', h, 1);
      assert s'[..1] + s'[2..] == s;
      assert M'[k := s] == M;
    } else {
      FindIdAt(M'[k], h, 0);
      assert M' - {k} == M;
    }
  }

  /**
   * `lookupByKey` lists exactly the stored elements with the key: each element it returns
   * is found by `lookup`, and without a limit every element `lookup` finds with that key
   * is listed.
   */
  lemma ByKeyLookup<E, I, K>(M: map<K, seq<E>>, h: Hasher<E, I, K>, k: K, limit: nat, e: E)
    requires ContentsOk(M, h)
    ensures e in ByKey(M, k, limit) ==> KeyOf(h, e) == k && Lookup(M, h, e) == Some(e)
    ensures KeyOf(h, e) == k && Lookup(M, h, e).Some? ==> Lookup(M, h, e).value in ByKey(M, k, 0)
    ensures limit == 0 ==> |ByKey(M, k, limit)| == if k in M then |M[k]| else 0
    ensures 0 < limit ==> |ByKey(M, k, limit)| == if k in M && limit < |M[k]| then limit else |ByKey(M, k, 0)|
  {
    if e in ByKey(M, k, limit) {
      var m :| 0 <= m < |ByKey(M, k, limit)| && ByKey(M, k, limit)[m] == e;
      assert M[k][m] == e;
      LookupFinds(M, h, k, m, e);
    }
  }

  /**
   * Paging with `lookupByKey` and `lookupWithElementByKeyContinue`: continuing after the
   * last element of a limited first page yields the rest of the key's elements.
   */
  lemma ContinuePages<E, I, K>(M: map<K, seq<E>>, h: Hasher<E, I, K>, k: K, limit: nat)
    requires ContentsOk(M, h) && k in M && 0 < limit
    ensures var page := ByKey(M, k, limit);
      Continue(M, h, page[|page| - 1], 0) == Some(ByKey(M, k, 0)[|page|..])
  {
    var s := M[k];
    assert 0 < |s| && IdsUnique(s, h) && forall m :: 0 <= m < |s| ==> KeyOf(h, s[m]) == k;
    var page := Take(s, limit);
    var n := |page|;
    assert 0 < n <= |s| && page[n - 1] == s[n - 1];
    FindIdAt(s, h, n - 1);
    assert Continue(M, h, s[n - 1], 0) == Some(s[n..]);
  }

  /** Continuing with an element that is not stored starts after the head of its key. */
  lemma ContinueUnknown<E, I, K>(M: map<K, seq<E>>, h: Hasher<E, I, K>, e: E, limit: nat)
    requires ContentsOk(M, h) && KeyOf(h, e) in M && Lookup(M, h, e).None?
    ensures Continue(M, h, e, limit) == Some(Take(ByKey(M, KeyOf(h, e), 0)[1..], limit))
  {
  }

  /** The contents of a well-formed table are well formed. */
  lemma ElemsOk<E, I, K>(T: seq<Entry<E>>, S: map<K, seq<nat>>, h: Hasher<E, I, K>)
    requires TableOk(T, S, h)
    ensures ContentsOk(Elems(T, S, h), h)
  {
    var M := Elems(T, S, h);
    forall k | k in M
      ensures 0 < |M[k]| && (forall m :: 0 <= m < |M[k]| ==> KeyOf(h, M[k][m]) == k) && IdsUnique(M[k], h)
    {
      var cs := S[k];
      assert ChainOk(T, cs, k, h);
      assert M[k] == Chain(T, cs);
      forall a, b | 0 <= a < b < |cs|
        ensures h.idOf(M[k][a]) != h.idOf(M[k][b])
      {
        assert cs[a] != cs[b];
        assert IdAt(T, h, cs[a]) != IdAt(T, h, cs[b]);
      }
    }
  }
}
