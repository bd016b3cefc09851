// The bucket table of the voxel map and the intrusive collision chains
// threaded through the elements' NextElementIndex fields.
//
// Each bucket of HashTable holds the index of the first element of its
// chain, and each element holds the index of the next one; -1 ends a chain.
// The ghost `chains` lists, bucket by bucket, the element indices a walk
// from the bucket visits, so that the pointer structure can be stated and
// preserved one link at a time.
module HashChains {
  import opened Hashing
  import opened MapElements

  /** What a bucket holds for a chain: its first index, or -1 when empty. */
  function HeadOf(c: seq<nat>): (head: int)
    ensures head == -1 <==> c == []
  {
    if c == [] then -1 else c[0]
  }

  /** What the j-th element of a chain holds: the following index, or -1. */
  function NextOf(c: seq<nat>, j: nat): (next: int)
    requires j < |c|
    ensures next == -1 <==> j == |c| - 1
  {
    if j + 1 < |c| then c[j + 1] else -1
  }

  /** No index occurs twice on a chain, so the walk along it ends. */
  ghost predicate Distinct(c: seq<nat>)
  {
    forall j1, j2 :: 0 <= j1 < j2 < |c| ==> c[j1] != c[j2]
  }

  /** The j-th entry of chain c of bucket b names a linked element that
      hashes to b and whose NextElementIndex is the chain's next entry. */
  ghost predicate EntryOk<K, V>(hash: K -> Hash32, es: seq<Element<K, V>>, size: nat,
                                b: nat, c: seq<nat>, j: nat, linked: nat, skip: int)
    requires 0 < size <= MaxHashSize && j < |c| && linked <= |es|
  {
    && c[j] < linked
    && c[j] != skip
    && Bucket(hash(es[c[j]].key), size) == b
    && es[c[j]].next == NextOf(c, j)
  }

  /** The chain invariant for the first `linked` elements, leaving out the
      element `skip` (the one RemoveHashedChecked has just unlinked; -1 for
      none): every bucket starts its chain, every chain entry lies in its
      bucket and links to its successor, chains do not repeat an index, and
      every linked element is on the chain of its own bucket. */
  ghost predicate Linked<K, V>(hash: K -> Hash32, es: seq<Element<K, V>>, table: seq<int>,
                               chains: seq<seq<nat>>, linked: nat, skip: int)
  {
    && linked <= |es|
    && |table| <= MaxHashSize
    && |chains| == |table|
    && (linked > 0 ==> |table| > 0)
    && (forall b :: 0 <= b < |table| ==> table[b] == HeadOf(chains[b]))
    && (forall b, j :: 0 <= b < |chains| && 0 <= j < |chains[b]| ==>
          EntryOk(hash, es, |table|, b, chains[b], j, linked, skip))
    && (forall b :: 0 <= b < |chains| ==> Distinct(chains[b]))
    && (forall i :: 0 <= i < linked && i != skip ==>
          0 < |table| && i in chains[Bucket(hash(es[i].key), |table|)])
  }

  /** A table whose buckets are all -1 links no element. */
  lemma EmptyLinked<K, V>(hash: K -> Hash32, es: seq<Element<K, V>>, size: nat)
    requires size <= MaxHashSize
    ensures Linked(hash, es, seq(size, _ => -1), seq(size, _ => []), 0, -1)
  {
  }

  /** The invariant looks only at the keys and links of the linked
      elements: values, and elements beyond the linked prefix, may change
      freely. */
  lemma {:induction false} LinkedFrame<K, V>(hash: K -> Hash32, es: seq<Element<K, V>>, es2: seq<Element<K, V>>,
                                             table: seq<int>, chains: seq<seq<nat>>, linked: nat, skip: int)
    requires Linked(hash, es, table, chains, linked, skip)
    requires linked <= |es2|
    requires forall i :: 0 <= i < linked && i != skip ==> es2[i].key == es[i].key && es2[i].next == es[i].next
    ensures Linked(hash, es2, table, chains, linked, skip)
  {
    forall b, j | 0 <= b < |chains| && 0 <= j < |chains[b]|
      ensures EntryOk(hash, es2, |table|, b, chains[b], j, linked, skip)
    {
      assert EntryOk(hash, es, |table|, b, chains[b], j, linked, skip);
    }
    forall i | 0 <= i < linked && i != skip
      ensures 0 < |table| && i in chains[Bucket(hash(es2[i].key), |table|)]
    {
      assert es2[i].key == es[i].key;
    }
  }

  /** One step of Rehash and of AddHashed_CheckNew: element i is pushed on
      the front of the chain of its bucket, taking the old head as its next
      index, and becomes linked. */
  lemma {:induction false} PushFront<K, V>(hash: K -> Hash32, es: seq<Element<K, V>>, table: seq<int>,
                                           chains: seq<seq<nat>>, i: nat)
    requires Linked(hash, es, table, chains, i, -1)
    requires i < |es| && 0 < |table|
    ensures var b := Bucket(hash(es[i].key), |table|);
            Linked(hash, es[i := es[i].(next := table[b])], table[b := i], chains[b := [i] + chains[b]], i + 1, -1)
  {
    var size := |table|;
    var b := Bucket(hash(es[i].key), size);
    var es2 := es[i := es[i].(next := table[b])];
    var t2 := table[b := i];
    var ch2 := chains[b := [i] + chains[b]];
    var linked := i + 1;
    forall b', j | 0 <= b' < |ch2| && 0 <= j < |ch2[b']|
      ensures EntryOk(hash, es2, size, b', ch2[b'], j, linked, -1)
    {
      if b' == b && j == 0 {
        assert ch2[b'][0] == i;
      } else {
        var jj := if b' == b then j - 1 else j;
        assert ch2[b'][j] == chains[b'][jj];
        assert EntryOk(hash, es, size, b', chains[b'], jj, i, -1);
        assert es2[chains[b'][jj]] == es[chains[b'][jj]];
        assert NextOf(ch2[b'], j) == NextOf(chains[b'], jj);
      }
    }
    forall b' | 0 <= b' < |ch2| ensures Distinct(ch2[b']) {
      if b' == b {
        forall j | 0 <= j < |chains[b]| ensures chains[b][j] != i {
          assert EntryOk(hash, es, size, b, chains[b], j, i, -1);
        }
      }
    }
    forall k | 0 <= k < i + 1
      ensures 0 < size && k in ch2[Bucket(hash(es2[k].key), size)]
    {
      if k < i {
        assert es2[k] == es[k];
      } else {
        assert ch2[b][0] == i;
      }
    }
  }

  /** The int32* through which RemoveHashedChecked walks a chain: either a
      bucket of HashTable or the NextElementIndex field of an element. */
  datatype Slot = Head(bucket: nat) | Link(element: nat)

  predicate ValidSlot<K, V>(es: seq<Element<K, V>>, table: seq<int>, s: Slot)
  {
    match s
    case Head(b) => b < |table|
    case Link(i) => i < |es|
  }

  /** The value the slot points at. */
  function ReadSlot<K, V>(es: seq<Element<K, V>>, table: seq<int>, s: Slot): int
    requires ValidSlot(es, table, s)
  {
    match s
    case Head(b) => table[b]
    case Link(i) => es[i].next
  }

  /** Storing v through the slot: one bucket or one link changes, and no key
      or value does. */
  function WriteSlot<K, V>(es: seq<Element<K, V>>, table: seq<int>, s: Slot, v: int)
    : (r: (seq<Element<K, V>>, seq<int>))
    requires ValidSlot(es, table, s)
    ensures |r.0| == |es| && |r.1| == |table|
    ensures ValidSlot(r.0, r.1, s) && ReadSlot(r.0, r.1, s) == v
    ensures Pairs(r.0) == Pairs(es)
    ensures forall i :: 0 <= i < |es| && s != Link(i) ==> r.0[i] == es[i]
    ensures forall b :: 0 <= b < |table| && s != Head(b) ==> r.1[b] == table[b]
  {
    match s
    case Head(b) => (es, table[b := v])
    case Link(i) => (es[i := es[i].(next := v)], table)
  }

  /** The slot that points at the j-th entry of a chain: the bucket itself
      for the first entry, the previous element's link otherwise. */
  function SlotBefore(b: nat, c: seq<nat>, j: nat): Slot
    requires j < |c|
  {
    if j == 0 then Head(b) else Link(c[j - 1])
  }

  /** Walking the chain of a bucket: the slot before the j-th entry points
      at that entry. */
  lemma {:induction false} SlotBeforeReads<K, V>(hash: K -> Hash32, es: seq<Element<K, V>>, table: seq<int>,
                                                 chains: seq<seq<nat>>, linked: nat, skip: int, b: nat, j: nat)
    requires Linked(hash, es, table, chains, linked, skip)
    requires b < |table| && j < |chains[b]|
    ensures ValidSlot(es, table, SlotBefore(b, chains[b], j))
    ensures ReadSlot(es, table, SlotBefore(b, chains[b], j)) == chains[b][j]
  {
    if j > 0 {
      assert EntryOk(hash, es, |table|, b, chains[b], j - 1, linked, skip);
    }
  }

  /** Every entry of a chain is an element index with the chain's bucket. */
  lemma ChainEntry<K, V>(hash: K -> Hash32, es: seq<Element<K, V>>, table: seq<int>,
                         chains: seq<seq<nat>>, linked: nat, skip: int, b: nat, j: nat)
    requires Linked(hash, es, table, chains, linked, skip)
    requires b < |table| && j < |chains[b]|
    ensures chains[b][j] < linked && chains[b][j] != skip
    ensures Bucket(hash(es[chains[b][j]].key), |table|) == b
    ensures es[chains[b][j]].next == NextOf(chains[b], j)
  {
    assert EntryOk(hash, es, |table|, b, chains[b], j, linked, skip);
  }

  /** The outcome of walking a chain for a key. */
  datatype Lookup = Found(index: nat) | Missing | OutOfRange(badIndex: int)

  /** The walk FindHashed makes, as a function over the element array: from
      index cur follow NextElementIndex until the key, -1, or an index
      outside the array, taking at most `fuel` links. */
  function ChainLookup<K(==), V>(es: seq<Element<K, V>>, cur: int, k: K, fuel: nat): (r: Lookup)
    ensures r.Found? ==> r.index < |es| && es[r.index].key == k
    ensures r.OutOfRange? ==> r.badIndex != -1 && !(0 <= r.badIndex < |es|)
    decreases fuel
  {
    if cur == -1 then Missing
    else if cur < 0 || cur >= |es| then OutOfRange(cur)
    else if es[cur].key == k then Found(cur)
    else if fuel == 0 then Missing
    else ChainLookup(es, es[cur].next, k, fuel - 1)
  }

  /** Walking from the j-th entry of a well-linked chain stays inside the
      array, and reports Missing only when no later entry holds the key. */
  lemma {:induction false} WalkFrom<K, V>(hash: K -> Hash32, es: seq<Element<K, V>>, table: seq<int>,
                                          chains: seq<seq<nat>>, b: nat, j: nat, k: K, fuel: nat)
    requires Linked(hash, es, table, chains, |es|, -1) && b < |table|
    requires j <= |chains[b]| <= j + fuel
    ensures var r := ChainLookup(es, if j < |chains[b]| then chains[b][j] else -1, k, fuel);
            && !r.OutOfRange?
            && (r.Missing? ==> forall t :: j <= t < |chains[b]| ==> chains[b][t] < |es| && es[chains[b][t]].key != k)
    decreases |chains[b]| - j
  {
    var c := chains[b];
    if j < |c| {
      ChainEntry(hash, es, table, chains, |es|, -1, b, j);
      if es[c[j]].key != k {
        WalkFrom(hash, es, table, chains, b, j + 1, k, fuel - 1);
      }
    }
  }

  /** On a well-linked table the walk from a key's bucket never leaves the
      array, and it finds the key exactly when some element holds it. */
  lemma ChainLookupAgrees<K, V>(hash: K -> Hash32, es: seq<Element<K, V>>, table: seq<int>,
                                chains: seq<seq<nat>>, k: K)
    requires Linked(hash, es, table, chains, |es|, -1) && 0 < |table|
    ensures var b := Bucket(hash(k), |table|);
            var r := ChainLookup(es, table[b], k, |chains[b]|);
            && !r.OutOfRange?
            && (r.Missing? <==> forall i :: 0 <= i < |es| ==> es[i].key != k)
  {
    var b := Bucket(hash(k), |table|);
    WalkFrom(hash, es, table, chains, b, 0, k, |chains[b]|);
    if ChainLookup(es, table[b], k, |chains[b]|).Missing? {
      AbsentFromChain(hash, es, table, chains, k);
    }
  }

  /** With unique keys, the walk from a key's bucket reports the one index
      that holds the key, or Missing when none does. */
  lemma ChainLookupResult<K, V>(hash: K -> Hash32, es: seq<Element<K, V>>, table: seq<int>,
                                chains: seq<seq<nat>>, k: K, index: int)
    requires Linked(hash, es, table, chains, |es|, -1) && 0 < |table| && UniqueKeys(Pairs(es))
    requires index == -1 <==> forall i :: 0 <= i < |es| ==> es[i].key != k
    requires index != -1 ==> 0 <= index < |es| && es[index].key == k
    ensures var b := Bucket(hash(k), |table|);
            ChainLookup(es, table[b], k, |chains[b]|) == if index == -1 then Missing else Found(index)
  {
    var b := Bucket(hash(k), |table|);
    ChainLookupAgrees(hash, es, table, chains, k);
    var r := ChainLookup(es, table[b], k, |chains[b]|);
    if r.Found? {
      assert Pairs(es)[r.index].0 == Pairs(es)[index].0;
    }
  }

  /** FindHashed's exit at -1: a key no entry of its chain holds is absent
      from the map, and the chain walk reports it Missing. */
  lemma FindMissingExit<K, V>(hash: K -> Hash32, es: seq<Element<K, V>>, table: seq<int>,
                              chains: seq<seq<nat>>, k: K)
    requires Linked(hash, es, table, chains, |es|, -1) && 0 < |table| && UniqueKeys(Pairs(es))
    requires forall t :: 0 <= t < |chains[Bucket(hash(k), |table|)]| ==>
               chains[Bucket(hash(k), |table|)][t] < |es| && es[chains[Bucket(hash(k), |table|)][t]].key != k
    ensures k !in MapOf(Pairs(es))
    ensures var b := Bucket(hash(k), |table|);
            ChainLookup(es, table[b], k, |chains[b]|) == Missing
  {
    AbsentFromChain(hash, es, table, chains, k);
    MapOfKeys(Pairs(es));
    ChainLookupResult(hash, es, table, chains, k, -1);
  }

  /** FindHashed's exit at the key: the element found holds the key's value
      in the map, and the chain walk reports that index. */
  lemma FindFoundExit<K, V>(hash: K -> Hash32, es: seq<Element<K, V>>, table: seq<int>,
                            chains: seq<seq<nat>>, k: K, index: nat)
    requires Linked(hash, es, table, chains, |es|, -1) && 0 < |table| && UniqueKeys(Pairs(es))
    requires index < |es| && es[index].key == k
    ensures k in MapOf(Pairs(es)) && MapOf(Pairs(es))[k] == es[index].value
    ensures var b := Bucket(hash(k), |table|);
            ChainLookup(es, table[b], k, |chains[b]|) == Found(index)
  {
    MapOfValues(Pairs(es));
    assert Pairs(es)[index] == (k, es[index].value);
    ChainLookupResult(hash, es, table, chains, k, index);
  }

  /** A key that no entry of its bucket's chain holds is held by no
      element: the miss FindHashed reports when the walk reaches -1. */
  lemma {:induction false} AbsentFromChain<K, V>(hash: K -> Hash32, es: seq<Element<K, V>>, table: seq<int>,
                                                 chains: seq<seq<nat>>, k: K)
    requires Linked(hash, es, table, chains, |es|, -1) && 0 < |table|
    requires forall t :: 0 <= t < |chains[Bucket(hash(k), |table|)]| ==>
               chains[Bucket(hash(k), |table|)][t] < |es| && es[chains[Bucket(hash(k), |table|)][t]].key != k
    ensures forall i :: 0 <= i < |es| ==> es[i].key != k
  {
    var c := chains[Bucket(hash(k), |table|)];
    forall i | 0 <= i < |es| ensures es[i].key != k {
      if Bucket(hash(es[i].key), |table|) == Bucket(hash(k), |table|) {
        var t :| 0 <= t < |c| && c[t] == i;
      }
    }
  }

  /** Every element is on exactly one chain, that of its own bucket, and
      occurs on it exactly once. */
  lemma {:induction false} OnOneChain<K, V>(hash: K -> Hash32, es: seq<Element<K, V>>, table: seq<int>,
                                            chains: seq<seq<nat>>, i: nat)
    requires Linked(hash, es, table, chains, |es|, -1) && i < |es|
    ensures 0 < |table|
    ensures forall b :: 0 <= b < |chains| ==> (i in chains[b] <==> b == Bucket(hash(es[i].key), |table|))
    ensures multiset(chains[Bucket(hash(es[i].key), |table|)])[i] == 1
  {
    forall b | 0 <= b < |chains| && i in chains[b]
      ensures b == Bucket(hash(es[i].key), |table|)
    {
      var j :| 0 <= j < |chains[b]| && chains[b][j] == i;
      assert EntryOk(hash, es, |table|, b, chains[b], j, |es|, -1);
    }
    var b := Bucket(hash(es[i].key), |table|);
    OccursOnce(chains[b], i);
  }

  lemma {:induction false} OccursOnce(c: seq<nat>, x: nat)
    requires Distinct(c) && x in c
    ensures multiset(c)[x] == 1
  {
    if c[0] == x {
      assert c == [c[0]] + c[1..];
      assert x !in c[1..] by {
        forall j | 1 <= j < |c| ensures c[j] != x {
          assert c[0] != c[j];
        }
      }
    } else {
      assert c == [c[0]] + c[1..];
      assert x in c[1..];
      OccursOnce(c[1..], x);
    }
  }

  /** A chain with its j-th entry taken out. */
  function Drop(c: seq<nat>, j: nat): (r: seq<nat>)
    requires j < |c|
    ensures |r| == |c| - 1
    ensures forall t :: 0 <= t < |r| ==> r[t] == if t < j then c[t] else c[t + 1]
  {
    c[..j] + c[j + 1..]
  }

  /** RemoveHashedChecked's first phase: the slot before the found entry is
      overwritten with the entry's next index, which takes the element off
      its chain and leaves everything else linked. */
  lemma {:induction false} Unlink<K, V>(hash: K -> Hash32, es: seq<Element<K, V>>, table: seq<int>,
                                        chains: seq<seq<nat>>, b: nat, j: nat)
    requires Linked(hash, es, table, chains, |es|, -1)
    requires b < |table| && j < |chains[b]|
    ensures ValidSlot(es, table, SlotBefore(b, chains[b], j))
    ensures chains[b][j] < |es|
    ensures var x := chains[b][j];
            var r := WriteSlot(es, table, SlotBefore(b, chains[b], j), es[x].next);
            && r.0[x] == es[x]
            && Linked(hash, r.0, r.1, chains[b := Drop(chains[b], j)], |es|, x)
  {
    var c := chains[b];
    var x := c[j];
    ChainEntry(hash, es, table, chains, |es|, -1, b, j);
    SlotBeforeReads(hash, es, table, chains, |es|, -1, b, j);
    var r := WriteSlot(es, table, SlotBefore(b, c, j), es[x].next);
    var es2, t2 := r.0, r.1;
    var ch2 := chains[b := Drop(c, j)];
    if j > 0 {
      assert c[j - 1] != x;
    }
    forall b' | 0 <= b' < |t2| ensures t2[b'] == HeadOf(ch2[b']) {
      if b' == b && j == 0 {
        assert t2[b] == es[x].next == NextOf(c, 0);
      }
    }
    var n := |es|;
    forall b', t | 0 <= b' < |ch2| && 0 <= t < |ch2[b']|
      ensures EntryOk(hash, es2, |table|, b', ch2[b'], t, n, x)
    {
      UnlinkEntry(hash, es, table, chains, b, j, es2, t2, b', t);
    }
    forall b' | 0 <= b' < |ch2| ensures Distinct(ch2[b']) {
      if b' == b {
        assert Distinct(c);
      }
    }
    forall i | 0 <= i < |es| && i != x
      ensures 0 < |table| && i in ch2[Bucket(hash(es2[i].key), |table|)]
    {
      UnlinkCovers(hash, es, table, chains, b, j, es2, i);
    }
  }

  lemma {:induction false} UnlinkEntry<K, V>(hash: K -> Hash32, es: seq<Element<K, V>>, table: seq<int>,
                                             chains: seq<seq<nat>>, b: nat, j: nat,
                                             es2: seq<Element<K, V>>, t2: seq<int>, b': nat, t: nat)
    requires Linked(hash, es, table, chains, |es|, -1)
    requires b < |table| && j < |chains[b]| && chains[b][j] < |es|
    requires ValidSlot(es, table, SlotBefore(b, chains[b], j))
    requires (es2, t2) == WriteSlot(es, table, SlotBefore(b, chains[b], j), es[chains[b][j]].next)
    requires b' < |table| && t < |chains[b := Drop(chains[b], j)][b']|
    ensures EntryOk(hash, es2, |table|, b', chains[b := Drop(chains[b], j)][b'], t, |es|, chains[b][j])
  {
    var c := chains[b];
    var x := c[j];
    var s := SlotBefore(b, c, j);
    var ch2 := chains[b := Drop(c, j)];
    var tt := if b' == b && t >= j then t + 1 else t;
    assert ch2[b'][t] == chains[b'][tt];
    ChainEntry(hash, es, table, chains, |es|, -1, b', tt);
    var y := chains[b'][tt];
    ChainEntry(hash, es, table, chains, |es|, -1, b, j);
    assert y != x by {
      if b' == b {
        assert Distinct(c);
        assert c[tt] != c[j];
      }
    }
    if b' == b && t == j - 1 {
      assert s == Link(y);
      assert es2[y] == es[y].(next := es[x].next);
      assert NextOf(ch2[b'], t) == NextOf(c, j);
    } else {
      assert s != Link(y) by {
        if j > 0 && b' == b {
          assert c[tt] != c[j - 1];
        } else if j > 0 {
          ChainEntry(hash, es, table, chains, |es|, -1, b, j - 1);
        }
      }
      assert es2[y] == es[y];
      assert NextOf(ch2[b'], t) == NextOf(chains[b'], tt);
    }
  }

  lemma {:induction false} UnlinkCovers<K, V>(hash: K -> Hash32, es: seq<Element<K, V>>, table: seq<int>,
                                              chains: seq<seq<nat>>, b: nat, j: nat,
                                              es2: seq<Element<K, V>>, i: nat)
    requires Linked(hash, es, table, chains, |es|, -1)
    requires b < |table| && j < |chains[b]|
    requires Pairs(es2) == Pairs(es)
    requires i < |es| && i != chains[b][j]
    ensures 0 < |table| && i in chains[b := Drop(chains[b], j)][Bucket(hash(es2[i].key), |table|)]
  {
    var c := chains[b];
    assert es2[i].key == es[i].key by {
      assert Pairs(es2)[i] == Pairs(es)[i];
    }
    var bi := Bucket(hash(es[i].key), |table|);
    var ti :| 0 <= ti < |chains[bi]| && chains[bi][ti] == i;
    if bi == b {
      assert ti != j;
      assert Drop(c, j)[if ti < j then ti else ti - 1] == i;
    }
  }

  /** RemoveHashedChecked's pop: when the unlinked element is the last one,
      dropping it leaves the rest linked. */
  lemma {:induction false} PopUnlinked<K, V>(hash: K -> Hash32, es: seq<Element<K, V>>, table: seq<int>,
                                             chains: seq<seq<nat>>)
    requires 0 < |es| && Linked(hash, es, table, chains, |es|, |es| - 1)
    ensures Linked(hash, es[..|es| - 1], table, chains, |es| - 1, -1)
  {
    var n := |es|;
    var es2 := es[..n - 1];
    var linked := n - 1;
    forall b, j | 0 <= b < |chains| && 0 <= j < |chains[b]|
      ensures EntryOk(hash, es2, |table|, b, chains[b], j, linked, -1)
    {
      assert EntryOk(hash, es, |table|, b, chains[b], j, n, n - 1);
    }
    forall i | 0 <= i < n - 1
      ensures 0 < |table| && i in chains[Bucket(hash(es2[i].key), |table|)]
    {
      assert es2[i] == es[i];
    }
  }

  /** A chain whose j-th entry now names element x. */
  function Redirect(c: seq<nat>, j: nat, x: nat): (r: seq<nat>)
    requires j < |c|
    ensures |r| == |c| && r[j] == x
    ensures forall t :: 0 <= t < |c| && t != j ==> r[t] == c[t]
  {
    c[j := x]
  }

  /** RemoveHashedChecked's move: with element x unlinked, the link that
      pointed at the last index is redirected to x, the last element is
      moved into x (with its key, value and next index) and popped. The
      chains stay linked and the pairs are those of a swap-removal of x. */
  lemma {:induction false} MoveLast<K, V>(hash: K -> Hash32, es: seq<Element<K, V>>, table: seq<int>,
                                          chains: seq<seq<nat>>, x: nat, b: nat, j: nat)
    requires Linked(hash, es, table, chains, |es|, x)
    requires x < |es| - 1
    requires b < |table| && j < |chains[b]| && chains[b][j] == |es| - 1
    ensures ValidSlot(es, table, SlotBefore(b, chains[b], j))
    ensures var r := WriteSlot(es, table, SlotBefore(b, chains[b], j), x);
            var es3 := r.0[x := r.0[|es| - 1]][..|es| - 1];
            && Linked(hash, es3, r.1, chains[b := Redirect(chains[b], j, x)], |es| - 1, -1)
            && Pairs(es3) == SwapRemove(Pairs(es), x)
  {
    var n := |es|;
    var c := chains[b];
    SlotBeforeReads(hash, es, table, chains, n, x, b, j);
    var r := WriteSlot(es, table, SlotBefore(b, c, j), x);
    var es2, t2 := r.0, r.1;
    var es3 := es2[x := es2[n - 1]][..n - 1];
    var ch2 := chains[b := Redirect(c, j, x)];
    forall b' | 0 <= b' < |t2| ensures t2[b'] == HeadOf(ch2[b']) {
    }
    var linked := n - 1;
    forall b', t | 0 <= b' < |ch2| && 0 <= t < |ch2[b']|
      ensures EntryOk(hash, es3, |table|, b', ch2[b'], t, linked, -1)
    {
      MoveEntry(hash, es, table, chains, x, b, j, es2, t2, b', t);
    }
    forall b' | 0 <= b' < |ch2| ensures Distinct(ch2[b']) {
      if b' == b {
        assert Distinct(c);
        forall t | 0 <= t < |c| && t != j ensures c[t] != x {
          ChainEntry(hash, es, table, chains, n, x, b, t);
        }
      }
    }
    forall i | 0 <= i < n - 1
      ensures 0 < |table| && i in ch2[Bucket(hash(es3[i].key), |table|)]
    {
      MoveCovers(hash, es, table, chains, x, b, j, es2, i);
    }
    MovedPairs(es, es2, x);
  }

  /** Moving the last element into x and popping, on an array whose pairs
      are those of es, leaves the pairs of a swap-removal of x. */
  lemma MovedPairs<K, V>(es: seq<Element<K, V>>, es2: seq<Element<K, V>>, x: nat)
    requires Pairs(es2) == Pairs(es) && x < |es| - 1
    ensures Pairs(es2[x := es2[|es| - 1]][..|es| - 1]) == SwapRemove(Pairs(es), x)
  {
    var n := |es|;
    var es3 := es2[x := es2[n - 1]][..n - 1];
    forall t | 0 <= t < n - 1 ensures Pairs(es3)[t] == SwapRemove(Pairs(es), x)[t] {
      assert SwapRemove(Pairs(es), x)[t] == if t == x then Pairs(es)[n - 1] else Pairs(es)[t];
      assert Pairs(es2)[t] == Pairs(es)[t];
      assert Pairs(es2)[n - 1] == Pairs(es)[n - 1];
    }
  }

  /** The element moved from the last index keeps its next link: the slot
      written is never the last element's own. */
  lemma {:induction false} MoveKeepsLast<K, V>(hash: K -> Hash32, es: seq<Element<K, V>>, table: seq<int>,
                                               chains: seq<seq<nat>>, x: nat, b: nat, j: nat,
                                               es2: seq<Element<K, V>>, t2: seq<int>)
    requires Linked(hash, es, table, chains, |es|, x)
    requires x < |es| - 1
    requires b < |table| && j < |chains[b]| && chains[b][j] == |es| - 1
    requires ValidSlot(es, table, SlotBefore(b, chains[b], j))
    requires (es2, t2) == WriteSlot(es, table, SlotBefore(b, chains[b], j), x)
    ensures es2[|es| - 1] == es[|es| - 1]
  {
    if j > 0 {
      assert Distinct(chains[b]);
      assert chains[b][j - 1] != chains[b][j];
    }
  }

  lemma {:induction false} MoveEntry<K, V>(hash: K -> Hash32, es: seq<Element<K, V>>, table: seq<int>,
                                           chains: seq<seq<nat>>, x: nat, b: nat, j: nat,
                                           es2: seq<Element<K, V>>, t2: seq<int>, b': nat, t: nat)
    requires Linked(hash, es, table, chains, |es|, x)
    requires x < |es| - 1
    requires b < |table| && j < |chains[b]| && chains[b][j] == |es| - 1
    requires ValidSlot(es, table, SlotBefore(b, chains[b], j))
    requires (es2, t2) == WriteSlot(es, table, SlotBefore(b, chains[b], j), x)
    requires b' < |table| && t < |chains[b := Redirect(chains[b], j, x)][b']|
    ensures EntryOk(hash, es2[x := es2[|es| - 1]][..|es| - 1], |table|, b',
                    chains[b := Redirect(chains[b], j, x)][b'], t, |es| - 1, -1)
  {
    var n := |es|;
    var c := chains[b];
    var s := SlotBefore(b, c, j);
    var es3 := es2[x := es2[n - 1]][..n - 1];
    var ch2 := chains[b := Redirect(c, j, x)];
    MoveKeepsLast(hash, es, table, chains, x, b, j, es2, t2);
    ChainEntry(hash, es, table, chains, n, x, b, j);
    if b' == b && t == j {
      assert ch2[b'][t] == x;
      assert es3[x] == es[n - 1];
    } else {
      assert ch2[b'][t] == chains[b'][t];
      ChainEntry(hash, es, table, chains, n, x, b', t);
      var y := chains[b'][t];
      assert y != n - 1 by {
        if b' == b {
          assert Distinct(c);
          assert c[t] != c[j];
        }
      }
      if b' == b && t == j - 1 {
        assert s == Link(y);
        assert es3[y] == es[y].(next := x);
      } else {
        assert s != Link(y) by {
          if j > 0 && b' == b {
            assert Distinct(c);
            assert c[t] != c[j - 1];
          } else if j > 0 {
            ChainEntry(hash, es, table, chains, n, x, b, j - 1);
          }
        }
        assert es3[y] == es[y];
      }
    }
  }

  lemma {:induction false} MoveCovers<K, V>(hash: K -> Hash32, es: seq<Element<K, V>>, table: seq<int>,
                                            chains: seq<seq<nat>>, x: nat, b: nat, j: nat,
                                            es2: seq<Element<K, V>>, i: nat)
    requires Linked(hash, es, table, chains, |es|, x)
    requires x < |es| - 1
    requires b < |table| && j < |chains[b]| && chains[b][j] == |es| - 1
    requires |es2| == |es| && Pairs(es2) == Pairs(es)
    requires i < |es| - 1
    ensures 0 < |table|
    ensures i in chains[b := Redirect(chains[b], j, x)][Bucket(hash(es2[x := es2[|es| - 1]][i].key), |table|)]
  {
    var n := |es|;
    var ch2 := chains[b := Redirect(chains[b], j, x)];
    assert Pairs(es2)[n - 1] == Pairs(es)[n - 1];
    if i == x {
      ChainEntry(hash, es, table, chains, n, x, b, j);
      assert ch2[b][j] == x;
    } else {
      assert Pairs(es2)[i] == Pairs(es)[i];
      var bi := Bucket(hash(es[i].key), |table|);
      var ti :| 0 <= ti < |chains[bi]| && chains[bi][ti] == i;
      assert ti != j || bi != b;
      assert ch2[bi][ti] == i;
    }
  }
}
