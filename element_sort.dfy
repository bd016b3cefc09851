// Orders on elements, the sort the map delegates to, and the adjacency
// check behind AreKeySorted / AreValueSorted.
//
// TVoxelArray::Sort is not part of this model; SortBy stands in for it. The
// map relies only on what any comparison sort gives: the result is a
// permutation of the input, and for a strict weak order no later element is
// less than an earlier one.
module ElementSort {
  import opened MapElements

  /** The requirement C++ sorting places on a predicate: irreflexive,
      transitive, and with transitive incomparability (stated as: not-less is
      transitive). */
  ghost predicate StrictWeakOrder<T(!new)>(lt: (T, T) -> bool)
  {
    && (forall a :: !lt(a, a))
    && (forall a, b, c :: lt(a, b) && lt(b, c) ==> lt(a, c))
    && (forall a, b, c :: !lt(a, b) && !lt(b, c) ==> !lt(a, c))
  }

  /** A strict weak order in which distinct values are always comparable,
      as TLess is on the key types the map is used with. */
  ghost predicate StrictTotalOrder<T(!new)>(lt: (T, T) -> bool)
  {
    && StrictWeakOrder(lt)
    && (forall a, b :: a != b ==> lt(a, b) || lt(b, a))
  }

  /** No element is less than one before it. */
  ghost predicate SortedBy<T>(s: seq<T>, lt: (T, T) -> bool)
  {
    forall i, j :: 0 <= i < j < |s| ==> !lt(s[j], s[i])
  }

  /** Every element is less than the next one: what AreKeySorted and
      AreValueSorted check. */
  ghost predicate AdjacentBy<T>(s: seq<T>, lt: (T, T) -> bool)
  {
    forall i :: 1 <= i < |s| ==> lt(s[i - 1], s[i])
  }

  /** The element order KeySort builds from a key order. */
  function KeyOrder<K, V>(less: (K, K) -> bool): ((K, V), (K, V)) -> bool
  {
    (p: (K, V), q: (K, V)) => less(p.0, q.0)
  }

  /** The element order ValueSort builds from a value order. */
  function ValueOrder<K, V>(less: (V, V) -> bool): ((K, V), (K, V)) -> bool
  {
    (p: (K, V), q: (K, V)) => less(p.1, q.1)
  }

  /** Insertion of x before the first element that is not less than it. */
  function Insert<T>(x: T, s: seq<T>, lt: (T, T) -> bool): (r: seq<T>)
    ensures |r| == |s| + 1
    ensures multiset(r) == multiset(s) + multiset{x}
  {
    if s == [] then [x]
    else if lt(s[0], x) then
      assert s == [s[0]] + s[1..];
      [s[0]] + Insert(x, s[1..], lt)
    else [x] + s
  }

  /** The stand-in for TVoxelArray::Sort: insertion sort. */
  function SortBy<T>(s: seq<T>, lt: (T, T) -> bool): (r: seq<T>)
    ensures |r| == |s|
    ensures multiset(r) == multiset(s)
  {
    if s == [] then []
    else
      assert s == [s[0]] + s[1..];
      Insert(s[0], SortBy(s[1..], lt), lt)
  }

  /** Inserting into a sorted sequence keeps it sorted. */
  lemma {:induction false} InsertSorted<T(!new)>(x: T, s: seq<T>, lt: (T, T) -> bool)
    requires StrictWeakOrder(lt) && SortedBy(s, lt)
    ensures SortedBy(Insert(x, s, lt), lt)
  {
    if s != [] {
      var r := Insert(x, s, lt);
      if lt(s[0], x) {
        var tail := s[1..];
        assert SortedBy(tail, lt);
        InsertSorted(x, tail, lt);
        var r' := Insert(x, tail, lt);
        assert r == [s[0]] + r';
        forall k | 0 <= k < |r'| ensures !lt(r'[k], s[0]) {
          assert r'[k] in multiset(r');
          if r'[k] != x {
            assert r'[k] in multiset(tail);
            var m :| 0 <= m < |tail| && tail[m] == r'[k];
            assert s[m + 1] == r'[k];
          }
        }
      } else {
        forall k | 0 <= k < |s| ensures !lt(s[k], x) {
          if k > 0 {
            assert !lt(s[k], s[0]);
          }
        }
      }
    }
  }

  /** SortBy sorts, for every strict weak order. */
  lemma {:induction false} SortBySorted<T(!new)>(s: seq<T>, lt: (T, T) -> bool)
    requires StrictWeakOrder(lt)
    ensures SortedBy(SortBy(s, lt), lt)
  {
    if s != [] {
      SortBySorted(s[1..], lt);
      InsertSorted(s[0], SortBy(s[1..], lt), lt);
    }
  }

  /** Comparing elements by key is a strict weak order when the key order
      is one. */
  lemma KeyOrderIsWeak<K(!new), V(!new)>(less: (K, K) -> bool)
    requires StrictWeakOrder(less)
    ensures StrictWeakOrder(KeyOrder<K, V>(less))
  {
    var lt := KeyOrder<K, V>(less);
    forall a: (K, V) ensures !lt(a, a) {
      assert !less(a.0, a.0);
    }
    forall a: (K, V), b: (K, V), c: (K, V) | lt(a, b) && lt(b, c) ensures lt(a, c) {
      assert less(a.0, b.0) && less(b.0, c.0);
    }
    forall a: (K, V), b: (K, V), c: (K, V) | !lt(a, b) && !lt(b, c) ensures !lt(a, c) {
      assert !less(a.0, b.0) && !less(b.0, c.0);
    }
  }

  /** Comparing elements by value is a strict weak order when the value
      order is one. */
  lemma ValueOrderIsWeak<K(!new), V(!new)>(less: (V, V) -> bool)
    requires StrictWeakOrder(less)
    ensures StrictWeakOrder(ValueOrder<K, V>(less))
  {
    var lt := ValueOrder<K, V>(less);
    forall a: (K, V) ensures !lt(a, a) {
      assert !less(a.1, a.1);
    }
    forall a: (K, V), b: (K, V), c: (K, V) | lt(a, b) && lt(b, c) ensures lt(a, c) {
      assert less(a.1, b.1) && less(b.1, c.1);
    }
    forall a: (K, V), b: (K, V), c: (K, V) | !lt(a, b) && !lt(b, c) ensures !lt(a, c) {
      assert !less(a.1, b.1) && !less(b.1, c.1);
    }
  }

  /** Pairs sorted by a total key order with no key repeated have strictly
      increasing keys: AreKeySorted holds after KeySort. */
  lemma {:induction false} KeySortedIsAdjacent<K(!new), V(!new)>(ps: seq<(K, V)>, less: (K, K) -> bool)
    requires StrictTotalOrder(less) && UniqueKeys(ps)
    requires SortedBy(ps, KeyOrder<K, V>(less))
    ensures AdjacentBy(Keys(ps), less)
  {
    var ks := Keys(ps);
    forall i | 1 <= i < |ks| ensures less(ks[i - 1], ks[i]) {
      assert ps[i - 1].0 != ps[i].0;
      assert !KeyOrder<K, V>(less)(ps[i], ps[i - 1]);
    }
  }

  /** Elements that pass the adjacency check under a strict weak order are
      sorted: the converse direction. */
  lemma {:induction false} AdjacentIsSorted<T(!new)>(s: seq<T>, lt: (T, T) -> bool)
    requires StrictWeakOrder(lt) && AdjacentBy(s, lt)
    ensures SortedBy(s, lt)
    ensures forall i, j :: 0 <= i < j < |s| ==> lt(s[i], s[j])
  {
    if |s| > 1 {
      var init := s[..|s| - 1];
      assert AdjacentBy(init, lt);
      AdjacentIsSorted(init, lt);
      forall i, j | 0 <= i < j < |s| ensures lt(s[i], s[j]) {
        if j < |s| - 1 {
          assert lt(init[i], init[j]);
        } else if i < j - 1 {
          assert lt(init[i], init[j - 1]);
        }
      }
    }
  }

  /** The keys of the pairs, in order. */
  function Keys<K, V>(ps: seq<(K, V)>): (ks: seq<K>)
    ensures |ks| == |ps|
    ensures forall i :: 0 <= i < |ps| ==> ks[i] == ps[i].0
  {
    seq(|ps|, i requires 0 <= i < |ps| => ps[i].0)
  }

  /** The values of the pairs, in order. */
  function Values<K, V>(ps: seq<(K, V)>): (vs: seq<V>)
    ensures |vs| == |ps|
    ensures forall i :: 0 <= i < |ps| ==> vs[i] == ps[i].1
  {
    seq(|ps|, i requires 0 <= i < |ps| => ps[i].1)
  }
}
