// The dense element array of the voxel map, viewed as a sequence of
// key/value pairs, and the key-to-value mapping it denotes.
module MapElements {

  datatype Option<T> = None | Some(value: T)

  /** One entry of the element array: its key, its value, and the index of
      the next element of its bucket chain (NextElementIndex; -1 ends it). */
  datatype Element<K, V> = Element(key: K, value: V, next: int)

  /** The key/value pairs of the element array, in array order. */
  function Pairs<K, V>(es: seq<Element<K, V>>): (ps: seq<(K, V)>)
    ensures |ps| == |es|
    ensures forall i :: 0 <= i < |es| ==> ps[i] == (es[i].key, es[i].value)
  {
    seq(|es|, i requires 0 <= i < |es| => (es[i].key, es[i].value))
  }

  /** Elements holding the given pairs, with no chain links yet. */
  function Unlinked<K, V>(ps: seq<(K, V)>): (es: seq<Element<K, V>>)
    ensures Pairs(es) == ps
  {
    seq(|ps|, i requires 0 <= i < |ps| => Element(ps[i].0, ps[i].1, -1))
  }

  /** Rewriting chain links leaves the pairs as they are. */
  lemma RelinkKeepsPairs<K, V>(es: seq<Element<K, V>>, i: nat, next: int)
    requires i < |es|
    ensures Pairs(es[i := es[i].(next := next)]) == Pairs(es)
  {
  }

  ghost predicate UniqueKeys<K, V>(ps: seq<(K, V)>)
  {
    forall i, j :: 0 <= i < j < |ps| ==> ps[i].0 != ps[j].0
  }

  /** The key-to-value mapping a pair sequence denotes: the pairs entered
      one after the other. */
  ghost function MapOf<K, V>(ps: seq<(K, V)>): map<K, V>
  {
    if ps == [] then map[]
    else MapOf(ps[..|ps| - 1])[ps[|ps| - 1].0 := ps[|ps| - 1].1]
  }

  /** Every key of the sequence is in the mapping, and nothing else is. */
  lemma {:induction false} MapOfKeys<K, V>(ps: seq<(K, V)>)
    ensures forall i :: 0 <= i < |ps| ==> ps[i].0 in MapOf(ps)
    ensures forall k :: k in MapOf(ps) ==> exists i :: 0 <= i < |ps| && ps[i].0 == k
  {
    if ps != [] {
      var init := ps[..|ps| - 1];
      MapOfKeys(init);
      assert forall i :: 0 <= i < |init| ==> init[i] == ps[i];
    }
  }

  /** With unique keys, each key maps to the value stored beside it. */
  lemma {:induction false} MapOfValues<K, V>(ps: seq<(K, V)>)
    requires UniqueKeys(ps)
    ensures forall i :: 0 <= i < |ps| ==> ps[i].0 in MapOf(ps) && MapOf(ps)[ps[i].0] == ps[i].1
  {
    if ps != [] {
      var init := ps[..|ps| - 1];
      assert forall i :: 0 <= i < |init| ==> init[i] == ps[i];
      MapOfValues(init);
    }
  }

  /** With unique keys, the mapping has one entry per pair: Num() is the
      number of live keys. */
  lemma {:induction false} MapOfSize<K, V>(ps: seq<(K, V)>)
    requires UniqueKeys(ps)
    ensures |MapOf(ps)| == |ps|
  {
    if ps != [] {
      var init := ps[..|ps| - 1];
      assert forall i :: 0 <= i < |init| ==> init[i] == ps[i];
      MapOfSize(init);
      MapOfKeys(init);
    }
  }

  /** Entering one more pair rebinds its key, whether present or not. */
  lemma MapOfSnoc<K, V>(ps: seq<(K, V)>, p: (K, V))
    ensures MapOf(ps + [p]) == MapOf(ps)[p.0 := p.1]
  {
    assert (ps + [p])[..|ps|] == ps;
  }

  /** Entering the elements of es one at a time, in array order. */
  lemma MapOfPrefix<K, V>(es: seq<Element<K, V>>, i: nat)
    requires i < |es|
    ensures MapOf(Pairs(es[..i + 1])) == MapOf(Pairs(es[..i]))[es[i].key := es[i].value]
  {
    assert Pairs(es[..i + 1]) == Pairs(es[..i]) + [(es[i].key, es[i].value)];
    MapOfSnoc(Pairs(es[..i]), (es[i].key, es[i].value));
  }

  /** Rebinding a key after a merge is merging the rebound right side. */
  lemma MergeRebind<K, V>(a: map<K, V>, b: map<K, V>, k: K, v: V)
    ensures (a + b)[k := v] == a + b[k := v]
  {
  }

  /** A map holding every pair of a unique-key sequence, and no more entries
      than the sequence has pairs, is the sequence's map. */
  lemma CoveredSameSize<K, V>(es: seq<Element<K, V>>, m: map<K, V>)
    requires UniqueKeys(Pairs(es)) && |m| == |es|
    requires forall t :: 0 <= t < |es| ==> es[t].key in m && m[es[t].key] == es[t].value
    ensures m == MapOf(Pairs(es))
  {
    var ps := Pairs(es);
    MapOfKeys(ps);
    MapOfValues(ps);
    MapOfSize(ps);
    forall k | k in MapOf(ps) ensures k in m && m[k] == MapOf(ps)[k] {
      var t :| 0 <= t < |ps| && ps[t].0 == k;
      assert es[t].key == k;
    }
    SubmapOfSameSize(m, MapOf(ps));
  }

  /** A key set holding every key of a unique-key sequence, and no more keys
      than the sequence has pairs, is the key set of the sequence's map. */
  lemma KeysCoveredSameSize<K, V>(es: seq<Element<K, V>>, s: set<K>)
    requires UniqueKeys(Pairs(es)) && |s| == |es|
    requires forall t :: 0 <= t < |es| ==> es[t].key in s
    ensures s == MapOf(Pairs(es)).Keys
  {
    var ps := Pairs(es);
    MapOfKeys(ps);
    MapOfSize(ps);
    forall k | k in MapOf(ps) ensures k in s {
      var t :| 0 <= t < |ps| && ps[t].0 == k;
      assert es[t].key == k;
    }
    SubsetOfSameSize(MapOf(ps).Keys, s);
  }

  /** A map that contains another of the same size equals it: how a size
      comparison plus one-sided lookups decide equality. */
  lemma {:induction false} SubmapOfSameSize<K, V>(m1: map<K, V>, m2: map<K, V>)
    requires |m1| == |m2|
    requires forall k :: k in m2 ==> k in m1 && m1[k] == m2[k]
    ensures m1 == m2
  {
    SubsetOfSameSize(m2.Keys, m1.Keys);
  }

  lemma {:induction false} SubsetOfSameSize<T>(a: set<T>, b: set<T>)
    requires a <= b && |a| == |b|
    ensures a == b
    decreases a
  {
    if a != {} {
      var x :| x in a;
      SubsetOfSameSize(a - {x}, b - {x});
    }
  }

  /** The index at which a present key sits. */
  ghost function IndexOfKey<K, V>(ps: seq<(K, V)>, k: K): (i: nat)
    requires k in MapOf(ps)
    ensures i < |ps| && ps[i].0 == k
  {
    MapOfKeys(ps);
    var i :| 0 <= i < |ps| && ps[i].0 == k; i
  }

  /** Adding a pair whose key is absent keeps keys unique and adds exactly
      that entry to the mapping. */
  lemma AppendFresh<K, V>(ps: seq<(K, V)>, k: K, v: V)
    requires UniqueKeys(ps) && k !in MapOf(ps)
    ensures UniqueKeys(ps + [(k, v)])
    ensures MapOf(ps + [(k, v)]) == MapOf(ps)[k := v]
  {
    var qs := ps + [(k, v)];
    assert qs[..|ps|] == ps;
    MapOfKeys(ps);
    forall i, j | 0 <= i < j < |qs| ensures qs[i].0 != qs[j].0 {
      assert qs[i] == ps[i];
      if j < |ps| {
        assert qs[j] == ps[j];
      }
    }
  }

  /** Overwriting the value stored at an index rebinds that key only. */
  lemma {:induction false} UpdateValue<K, V>(ps: seq<(K, V)>, i: nat, v: V)
    requires UniqueKeys(ps) && i < |ps|
    ensures UniqueKeys(ps[i := (ps[i].0, v)])
    ensures MapOf(ps[i := (ps[i].0, v)]) == MapOf(ps)[ps[i].0 := v]
  {
    var qs := ps[i := (ps[i].0, v)];
    assert UniqueKeys(qs) by {
      forall a, b | 0 <= a < b < |qs| ensures qs[a].0 != qs[b].0 {
        assert qs[a].0 == ps[a].0 && qs[b].0 == ps[b].0;
      }
    }
    MapOfKeys(ps);
    MapOfValues(ps);
    MapOfKeys(qs);
    MapOfValues(qs);
    var m, m' := MapOf(ps)[ps[i].0 := v], MapOf(qs);
    forall k | k in m' ensures k in m {
      var j :| 0 <= j < |qs| && qs[j].0 == k;
      assert ps[j].0 == k;
    }
    forall k | k in m ensures k in m' && m'[k] == m[k] {
      if k == ps[i].0 {
        assert qs[i].0 == k;
      } else {
        var j :| 0 <= j < |ps| && ps[j].0 == k;
        assert qs[j] == ps[j];
      }
    }
  }

  /** The array after removing index i the way RemoveHashedChecked does:
      the last element is popped, or moved into index i and then popped. */
  function SwapRemove<T>(s: seq<T>, i: nat): (r: seq<T>)
    requires i < |s|
    ensures |r| == |s| - 1
    ensures forall j :: 0 <= j < |r| ==> r[j] == if j == i then s[|s| - 1] else s[j]
  {
    if i == |s| - 1 then s[..|s| - 1]
    else s[i := s[|s| - 1]][..|s| - 1]
  }

  /** Swap-removal deletes exactly the removed key from the mapping and
      keeps keys unique. */
  lemma {:induction false} SwapRemoveDeletesKey<K, V>(ps: seq<(K, V)>, i: nat)
    requires UniqueKeys(ps) && i < |ps|
    ensures |SwapRemove(ps, i)| == |ps| - 1
    ensures UniqueKeys(SwapRemove(ps, i))
    ensures MapOf(SwapRemove(ps, i)) == MapOf(ps) - {ps[i].0}
  {
    SwapRemoveKeepsUniqueKeys(ps, i);
    var n := |ps|;
    var rs := SwapRemove(ps, i);
    MapOfKeys(ps);
    MapOfValues(ps);
    MapOfKeys(rs);
    MapOfValues(rs);
    var m, m' := MapOf(ps) - {ps[i].0}, MapOf(rs);
    forall k | k in m' ensures k in m {
      var j :| 0 <= j < |rs| && rs[j].0 == k;
      assert rs[j] == if j == i then ps[n - 1] else ps[j];
    }
    forall k | k in m ensures k in m' && m'[k] == m[k] {
      var j :| 0 <= j < n && ps[j].0 == k;
      var j' := if j == n - 1 then i else j;
      assert rs[j'] == ps[j];
    }
  }

  lemma SwapRemoveKeepsUniqueKeys<K, V>(ps: seq<(K, V)>, i: nat)
    requires UniqueKeys(ps) && i < |ps|
    ensures UniqueKeys(SwapRemove(ps, i))
  {
    var rs := SwapRemove(ps, i);
    forall a, b | 0 <= a < b < |rs| ensures rs[a].0 != rs[b].0 {
      assert rs[a] == if a == i then ps[|ps| - 1] else ps[a];
      assert rs[b] == if b == i then ps[|ps| - 1] else ps[b];
    }
  }

  /** What swap-removal does to the order: the slots before i keep their
      pairs, and the slots from i on hold exactly the pairs that followed i,
      so a forward walk that resumes at i meets each of them once. */
  lemma {:induction false} SwapRemoveKeepsUnvisited<T>(s: seq<T>, i: nat)
    requires i < |s|
    ensures SwapRemove(s, i)[..i] == s[..i]
    ensures multiset(SwapRemove(s, i)[i..]) == multiset(s[i + 1..])
    ensures i < |s| - 1 ==> SwapRemove(s, i)[i] == s[|s| - 1]
  {
    var n := |s|;
    if i < n - 1 {
      var r := SwapRemove(s, i);
      assert r[i..] == [s[n - 1]] + s[i + 1..n - 1];
      assert s[i + 1..] == s[i + 1..n - 1] + [s[n - 1]];
    }
  }

  /** Reordering a pair sequence keeps its keys unique and its mapping. */
  lemma {:induction false} PermutationKeepsMap<K, V>(ps: seq<(K, V)>, qs: seq<(K, V)>)
    requires UniqueKeys(ps) && multiset(ps) == multiset(qs)
    ensures UniqueKeys(qs)
    ensures MapOf(qs) == MapOf(ps)
  {
    assert UniqueKeys(qs) by {
      forall p ensures multiset(qs)[p] <= 1 {
        AtMostOnce(ps, p);
      }
      forall i, j | 0 <= i < j < |qs| ensures qs[i].0 != qs[j].0 {
        DistinctSlots(qs, i, j);
        assert qs[i] in multiset(ps) && qs[j] in multiset(ps);
        var a :| 0 <= a < |ps| && ps[a] == qs[i];
        var b :| 0 <= b < |ps| && ps[b] == qs[j];
      }
    }
    MapOfKeys(ps);
    MapOfValues(ps);
    MapOfKeys(qs);
    MapOfValues(qs);
    var m, m' := MapOf(ps), MapOf(qs);
    forall k | k in m' ensures k in m {
      var j :| 0 <= j < |qs| && qs[j].0 == k;
      assert qs[j] in multiset(ps);
    }
    forall k | k in m ensures k in m' && m'[k] == m[k] {
      var j :| 0 <= j < |ps| && ps[j].0 == k;
      assert ps[j] in multiset(qs);
      var j' :| 0 <= j' < |qs| && qs[j'] == ps[j];
    }
  }

  /** In a sequence where no value occurs twice, distinct slots differ. */
  lemma DistinctSlots<T>(s: seq<T>, i: nat, j: nat)
    requires forall x :: multiset(s)[x] <= 1
    requires i < j < |s|
    ensures s[i] != s[j]
  {
    assert s == s[..j] + s[j..];
    assert s[i] in multiset(s[..j]) && s[j] in multiset(s[j..]);
    assert multiset(s)[s[j]] == multiset(s[..j])[s[j]] + multiset(s[j..])[s[j]];
  }

  /** In a unique-key sequence no pair occurs twice. */
  lemma {:induction false} AtMostOnce<K, V>(ps: seq<(K, V)>, p: (K, V))
    requires UniqueKeys(ps)
    ensures multiset(ps)[p] <= 1
  {
    if ps != [] {
      var init := ps[..|ps| - 1];
      assert ps == init + [ps[|ps| - 1]];
      assert UniqueKeys(init);
      AtMostOnce(init, p);
      if p == ps[|ps| - 1] {
        assert p !in init;
      }
    }
  }
}
