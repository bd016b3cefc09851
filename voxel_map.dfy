// TVoxelMap: a hash map kept as a dense array of elements plus a
// power-of-two table of bucket heads, with the collision chains threaded
// through the elements' NextElementIndex fields.
module VoxelMaps {
  import opened Hashing
  import opened MapElements
  import opened HashChains
  import opened ElementSort

  class VoxelMap<K(==, !new), V(!new)> {
    /** Elements: the dense array; removal swaps the last element in. */
    var elements: seq<Element<K, V>>
    /** HashTable: per bucket, the index of its first element or -1. */
    var hashTable: seq<int>
    /** The element indices each bucket's chain visits, in walk order. */
    ghost var chains: seq<seq<nat>>

    /** HashValue of a key (FVoxelUtilities::HashValue is not modelled). */
    const hash: K -> Hash32
    /** GetHashTableSize and the allocator's MinHashSize. */
    const policy: SizePolicy
    /** The value FVoxelUtilities::MakeSafe gives FindOrAdd for a new key. */
    const defaultValue: V

    /** The map's invariant: the table is large enough for the element count
        (CheckInvariants) and a power of two (GetElementIndex), keys are
        unique, and every element is linked on the chain of its bucket. */
    ghost predicate Valid()
      reads this
    {
      && ValidPolicy(policy)
      && SizedFor(policy, |elements|, |hashTable|)
      && UniqueKeys(Pairs(elements))
      && Linked(hash, elements, hashTable, chains, |elements|, -1)
    }

    /** The key-to-value mapping the map stands for. */
    ghost function Contents(): map<K, V>
      reads this
    {
      MapOf(Pairs(elements))
    }

    /** A default-constructed map: no elements and no hash table. */
    constructor (hash: K -> Hash32, policy: SizePolicy, defaultValue: V)
      requires ValidPolicy(policy)
      ensures Valid()
      ensures this.hash == hash && this.policy == policy && this.defaultValue == defaultValue
      ensures elements == [] && hashTable == []
      ensures Contents() == map[]
    {
      this.hash := hash;
      this.policy := policy;
      this.defaultValue := defaultValue;
      elements := [];
      hashTable := [];
      chains := [];
    }

    /** Num: the number of elements, which is the number of keys. */
    function Num(): (n: nat)
      reads this
      requires Valid()
      ensures n == |Contents()|
    {
      MapOfSize(Pairs(elements));
      |elements|
    }

    /** FindHashed: the index of the element holding key k, or -1 (the null
        pointer) when there is none. An empty table answers -1 at once;
        otherwise the walk starts at bucket Hash & (HashSize - 1) and follows
        NextElementIndex until the key or -1. */
    method FindHashed(h: Hash32, k: K) returns (index: int)
      requires Valid() && h == hash(k)
      ensures index == -1 <==> k !in Contents()
      ensures index != -1 ==> 0 <= index < |elements| && elements[index].key == k
                              && elements[index].value == Contents()[k]
      ensures hashTable == [] ==> index == -1
      ensures hashTable != [] ==>
                var b := Bucket(h, |hashTable|);
                ChainLookup(elements, hashTable[b], k, |chains[b]|) == if index == -1 then Missing else Found(index)
    {
      if |hashTable| == 0 {
        MapOfKeys(Pairs(elements));
        return -1;
      }
      var b := Bucket(h, |hashTable|);
      index := hashTable[b];
      ghost var c := chains[b];
      ghost var j := 0;
      while true
        invariant 0 <= j <= |c|
        invariant index == if j < |c| then c[j] else -1
        invariant forall t :: 0 <= t < j ==> c[t] < |elements| && elements[c[t]].key != k
        decreases |c| - j
      {
        if index == -1 {
          FindMissingExit(hash, elements, hashTable, chains, k);
          return;
        }
        ChainEntry(hash, elements, hashTable, chains, |elements|, -1, b, j);
        if elements[index].key != k {
          index := elements[index].next;
          j := j + 1;
          continue;
        }
        FindFoundExit(hash, elements, hashTable, chains, k, index);
        return;
      }
    }

    /** Find: FindHashed with the key's own hash. */
    method Find(k: K) returns (index: int)
      requires Valid()
      ensures index == -1 <==> k !in Contents()
      ensures index != -1 ==> 0 <= index < |elements| && elements[index].key == k
                              && elements[index].value == Contents()[k]
    {
      index := FindHashed(hash(k), k);
    }

    /** Contains: whether Find succeeds. */
    method Contains(k: K) returns (found: bool)
      requires Valid()
      ensures found <==> k in Contents()
    {
      var index := Find(k);
      found := index != -1;
    }

    /** FindChecked: the value of a key the caller knows to be present; the
        walk never reaches -1. */
    method FindChecked(k: K) returns (v: V)
      requires Valid() && k in Contents()
      ensures v == Contents()[k]
    {
      ghost var x := IndexOfKey(Pairs(elements), k);
      var b := Bucket(hash(k), |hashTable|);
      var index := hashTable[b];
      ghost var c := chains[b];
      ghost var at :| 0 <= at < |c| && c[at] == x;
      ghost var j := 0;
      while true
        invariant 0 <= j <= at && index == c[j]
        decreases at - j
      {
        ChainEntry(hash, elements, hashTable, chains, |elements|, -1, b, j);
        if elements[index].key != k {
          index := elements[index].next;
          j := j + 1;
          continue;
        }
        MapOfValues(Pairs(elements));
        return elements[index].value;
      }
    }

    /** Rehash: the table becomes max(HashTable.Num(), GetHashSize(Num()))
        buckets, all -1, and every element is pushed, in array order, on the
        front of the chain of its bucket. Keys, values and order of the
        elements stay as they are. */
    method Rehash()
      requires ValidPolicy(policy)
      requires |hashTable| == 0 || IsPowerOfTwo(|hashTable|)
      requires |hashTable| <= MaxHashSize
      modifies this
      ensures |hashTable| == RehashSize(policy, |elements|, old(|hashTable|))
      ensures Pairs(elements) == old(Pairs(elements))
      ensures SizedFor(policy, |elements|, |hashTable|)
      ensures Linked(hash, elements, hashTable, chains, |elements|, -1)
    {
      var size := RehashSize(policy, |elements|, |hashTable|);
      hashTable := seq(size, _ => -1);
      chains := seq(size, _ => []);
      EmptyLinked(hash, elements, size);
      var i := 0;
      while i < |elements|
        invariant 0 <= i <= |elements|
        invariant |hashTable| == size
        invariant Pairs(elements) == old(Pairs(elements))
        invariant Linked(hash, elements, hashTable, chains, i, -1)
      {
        var b := Bucket(hash(elements[i].key), |hashTable|);
        PushFront(hash, elements, hashTable, chains, i);
        RelinkKeepsPairs(elements, i, hashTable[b]);
        elements := elements[i := elements[i].(next := hashTable[b])];
        hashTable := hashTable[b := i];
        chains := chains[b := [i] + chains[b]];
        i := i + 1;
      }
    }

    /** Reserve: nothing happens unless more than Num() elements are asked
        for; then a table smaller than GetHashSize(number) is grown to that
        size and rehashed. The contents never change. */
    method Reserve(number: nat)
      requires Valid()
      modifies this
      ensures Valid()
      ensures Pairs(elements) == old(Pairs(elements))
      ensures Contents() == old(Contents())
      ensures number <= old(|elements|) ==> unchanged(this)
      ensures number > old(|elements|) ==> GetHashSize(policy, number) <= |hashTable|
      ensures old(|hashTable|) < GetHashSize(policy, number) && number > old(|elements|) ==>
                |hashTable| == GetHashSize(policy, number)
      ensures old(|hashTable|) >= GetHashSize(policy, number) || number <= old(|elements|) ==>
                unchanged(this)
    {
      if number <= |elements| {
        return;
      }
      var newHashSize := GetHashSize(policy, number);
      if |hashTable| < newHashSize {
        GetHashSizeMonotone(policy, |elements|, number);
        hashTable := hashTable + seq(newHashSize - |hashTable|, _ => -1);
        Rehash();
      }
    }

    /** ReserveGrow: room for Number more elements than there are now. */
    method ReserveGrow(number: nat)
      requires Valid()
      modifies this
      ensures Valid()
      ensures Pairs(elements) == old(Pairs(elements))
      ensures number > 0 ==> GetHashSize(policy, |elements| + number) <= |hashTable|
      ensures number == 0 || old(|hashTable|) >= GetHashSize(policy, old(|elements|) + number) ==>
                unchanged(this)
      ensures number > 0 && old(|hashTable|) < GetHashSize(policy, old(|elements|) + number) ==>
                |hashTable| == GetHashSize(policy, old(|elements|) + number)
    {
      Reserve(|elements| + number);
    }

    /** Append: every key of Other ends up with Other's value; keys only in
        this map keep theirs. Into an empty map the hash table is reused and
        the elements copied with their links (see AppendFastPathLosesLinks for
        the fast path as written); otherwise room is reserved and each element
        of Other is entered in turn. */
    method Append(other: VoxelMap<K, V>)
      requires Valid() && other.Valid() && other != this
      requires other.hash == hash && other.policy == policy
      modifies this
      ensures Valid()
      ensures Contents() == old(Contents()) + other.Contents()
      ensures old(|elements|) == 0 ==> Pairs(elements) == Pairs(other.elements) && hashTable == other.hashTable
      ensures |elements| >= old(|elements|)
      ensures Keys(Pairs(elements))[..old(|elements|)] == old(Keys(Pairs(elements)))
    {
      if |elements| == 0 {
        CopyFrom(other);
      } else {
        AppendEach(other);
      }
    }

    /** Append's fast path: the table and the elements, links included, are
        copied from Other. */
    method CopyFrom(other: VoxelMap<K, V>)
      requires Valid() && other.Valid() && other != this && |elements| == 0
      requires other.hash == hash && other.policy == policy
      modifies this
      ensures Valid()
      ensures Contents() == other.Contents()
      ensures Pairs(elements) == Pairs(other.elements) && hashTable == other.hashTable
    {
      hashTable := other.hashTable;
      elements := other.elements;
      chains := other.chains;
    }

    /** Append's general path: ReserveGrow(Other.Num()), then each element of
        Other entered in array order. */
    method AppendEach(other: VoxelMap<K, V>)
      requires Valid() && other.Valid() && other != this
      modifies this
      ensures Valid()
      ensures Contents() == old(Contents()) + other.Contents()
      ensures |elements| >= old(|elements|)
      ensures Keys(Pairs(elements))[..old(|elements|)] == old(Keys(Pairs(elements)))
    {
      ghost var before := Contents();
      ghost var keys := Keys(Pairs(elements));
      var os := other.elements;
      MapOfSize(Pairs(os));
      ReserveGrow(other.Num());
      assert os[..0] == [];
      assert Pairs(elements) == Pairs(old(elements));
      EnterAll(os, before, keys);
      assert os[..|os|] == os;
    }

    /** Append's loop over the elements of Other, in array order. */
    method EnterAll(os: seq<Element<K, V>>, ghost before: map<K, V>, ghost keys: seq<K>)
      requires EnteredUpTo(os, 0, before, keys)
      modifies this
      ensures EnteredUpTo(os, |os|, before, keys)
    {
      var i := 0;
      while i < |os|
        invariant i <= |os|
        invariant EnteredUpTo(os, i, before, keys)
      {
        EnterElement(os, i, before, keys);
        i := i + 1;
      }
    }

    /** Append's loop state after the first i elements of os: the map still
        holds its first keys in place and has the pairs entered over what it
        held before, and the table has room for every element of os. */
    ghost predicate EnteredUpTo(os: seq<Element<K, V>>, i: nat, before: map<K, V>, keys: seq<K>)
      reads this
    {
      && Valid()
      && i <= |os|
      && Contents() == before + MapOf(Pairs(os[..i]))
      && |keys| <= |elements| <= |keys| + i
      && Keys(Pairs(elements))[..|keys|] == keys
      && (|os| > 0 ==> GetHashSize(policy, |keys| + |os|) <= |hashTable|)
    }

    /** One pass of Append's loop body over element i of os. */
    method EnterElement(os: seq<Element<K, V>>, i: nat, ghost before: map<K, V>, ghost keys: seq<K>)
      requires i < |os| && EnteredUpTo(os, i, before, keys)
      modifies this
      ensures EnteredUpTo(os, i + 1, before, keys)
    {
      var key := os[i].key;
      var value := os[i].value;
      ghost var entered := MapOf(Pairs(os[..i]));
      EnterPair(hash(key), key, value, |keys| + |os|, |keys|);
      MapOfPrefix(os, i);
      MergeRebind(before, entered, key, value);
    }

    /** One step of Append's loop: FindHashed, then either the value is
        overwritten or the pair added without a rehash, room having been
        reserved for `room` elements. */
    method EnterPair(h: Hash32, k: K, v: V, ghost room: nat, ghost start: nat)
      requires Valid() && h == hash(k) && start <= |elements|
      requires |elements| < room && GetHashSize(policy, room) <= |hashTable|
      modifies this
      ensures Valid()
      ensures Contents() == old(Contents())[k := v]
      ensures |hashTable| == old(|hashTable|)
      ensures old(|elements|) <= |elements| <= old(|elements|) + 1
      ensures Keys(Pairs(elements))[..start] == old(Keys(Pairs(elements))[..start])
    {
      var index := FindHashed(h, k);
      if index != -1 {
        SetValue(index, v);
      } else {
        GetHashSizeMonotone(policy, |elements| + 1, room);
        index := AddHashed_CheckNew_CheckNoRehash(h, k, v);
      }
    }

    /** The write through the value pointer FindHashed returned. */
    method SetValue(index: nat, v: V)
      requires Valid() && index < |elements|
      modifies this
      ensures Valid()
      ensures |elements| == old(|elements|) && hashTable == old(hashTable)
      ensures Keys(Pairs(elements)) == old(Keys(Pairs(elements)))
      ensures Contents() == old(Contents())[elements[index].key := v]
    {
      UpdateValue(Pairs(elements), index, v);
      ghost var es := elements;
      elements := elements[index := elements[index].(value := v)];
      assert Pairs(elements) == Pairs(es)[index := (es[index].key, v)];
      LinkedFrame(hash, es, elements, hashTable, chains, |es|, -1);
    }

    /** AddHashed_CheckNew: a key the caller knows to be absent is appended
        as the last element. When the table has become too small for the new
        count the map is rehashed; otherwise the element is pushed on the
        front of its bucket's chain. Either way the table is large enough
        afterwards. */
    method AddHashed_CheckNew(h: Hash32, k: K, v: V) returns (index: nat)
      requires Valid() && h == hash(k) && k !in Contents()
      modifies this
      ensures Valid()
      ensures Pairs(elements) == old(Pairs(elements)) + [(k, v)]
      ensures index == |elements| - 1 == old(|elements|)
      ensures Contents() == old(Contents())[k := v]
      ensures GetHashSize(policy, |elements|) <= |hashTable|
      ensures old(|hashTable|) < GetHashSize(policy, |elements|) ==>
                |hashTable| == GetHashSize(policy, |elements|)
      ensures old(|hashTable|) >= GetHashSize(policy, |elements|) ==>
                |hashTable| == old(|hashTable|) && hashTable == old(hashTable)[Bucket(h, |hashTable|) := index]
    {
      AppendFresh(Pairs(elements), k, v);
      ghost var es := elements;
      // Emplace leaves NextElementIndex at its debug default until linked.
      elements := elements + [Element(k, v, -16)];
      index := |elements| - 1;
      assert Pairs(elements) == Pairs(es) + [(k, v)];
      LinkedFrame(hash, es, elements, hashTable, chains, index, -1);
      if |hashTable| < GetHashSize(policy, |elements|) {
        Rehash();
      } else {
        PushOnChain(h, index);
      }
    }

    /** The tail of AddHashed_CheckNew and AddHashed_CheckNew_CheckNoRehash:
        GetElementIndex(Hash) is read into the new element's link, then set to
        the new element. */
    method PushOnChain(h: Hash32, index: nat)
      requires ValidPolicy(policy) && index == |elements| - 1 && h == hash(elements[index].key)
      requires SizedFor(policy, |elements|, |hashTable|)
      requires UniqueKeys(Pairs(elements))
      requires Linked(hash, elements, hashTable, chains, index, -1)
      modifies this
      ensures Valid()
      ensures Pairs(elements) == old(Pairs(elements))
      ensures |hashTable| == old(|hashTable|)
      ensures hashTable == old(hashTable)[Bucket(h, |hashTable|) := index]
    {
      var b := Bucket(h, |hashTable|);
      PushFront(hash, elements, hashTable, chains, index);
      RelinkKeepsPairs(elements, index, hashTable[b]);
      elements := elements[index := elements[index].(next := hashTable[b])];
      hashTable := hashTable[b := index];
      chains := chains[b := [index] + chains[b]];
    }

    /** AddHashed_CheckNew_CheckNoRehash: as AddHashed_CheckNew for a caller
        that has reserved room, so the table is already large enough for the
        new count and the element always goes on the front of its chain. */
    method AddHashed_CheckNew_CheckNoRehash(h: Hash32, k: K, v: V) returns (index: nat)
      requires Valid() && h == hash(k) && k !in Contents()
      requires GetHashSize(policy, |elements| + 1) <= |hashTable|
      modifies this
      ensures Valid()
      ensures Pairs(elements) == old(Pairs(elements)) + [(k, v)]
      ensures index == |elements| - 1 == old(|elements|)
      ensures Contents() == old(Contents())[k := v]
      ensures |hashTable| == old(|hashTable|)
      ensures hashTable == old(hashTable)[Bucket(h, |hashTable|) := index]
    {
      AppendFresh(Pairs(elements), k, v);
      ghost var es := elements;
      elements := elements + [Element(k, v, -16)];
      index := |elements| - 1;
      assert Pairs(elements) == Pairs(es) + [(k, v)];
      LinkedFrame(hash, es, elements, hashTable, chains, index, -1);
      PushOnChain(h, index);
    }

    /** AddHashed_EnsureNew: adds like AddHashed_CheckNew, but a key that is
        already present is a soft failure: the ensure fires, nothing is added
        and the existing element is returned. */
    method AddHashed_EnsureNew(h: Hash32, k: K, v: V) returns (index: nat, ensureFailed: bool)
      requires Valid() && h == hash(k)
      modifies this
      ensures Valid()
      ensures ensureFailed <==> k in old(Contents())
      ensures ensureFailed ==> unchanged(this) && index < |elements| && elements[index].key == k
                               && elements[index].value == Contents()[k]
      ensures !ensureFailed ==> Contents() == old(Contents())[k := v] && index == |elements| - 1 == old(|elements|)
      ensures !ensureFailed ==> Pairs(elements) == old(Pairs(elements)) + [(k, v)]
      ensures !ensureFailed ==> GetHashSize(policy, |elements|) <= |hashTable|
      ensures !ensureFailed && old(|hashTable|) < GetHashSize(policy, |elements|) ==>
                |hashTable| == GetHashSize(policy, |elements|)
      ensures !ensureFailed && old(|hashTable|) >= GetHashSize(policy, |elements|) ==>
                |hashTable| == old(|hashTable|) && hashTable == old(hashTable)[Bucket(h, |hashTable|) := index]
    {
      var existing := FindHashed(h, k);
      if existing != -1 {
        return existing, true;
      }
      index := AddHashed_CheckNew(h, k, v);
      ensureFailed := false;
    }

    /** FindOrAdd: the element of a present key, with nothing changed, or a
        new last element holding the default value. Either way the key is
        found afterwards. */
    method FindOrAdd(k: K) returns (index: nat)
      requires Valid()
      modifies this
      ensures Valid()
      ensures index < |elements| && elements[index].key == k && k in Contents()
      ensures k in old(Contents()) ==> unchanged(this)
      ensures k !in old(Contents()) ==> Contents() == old(Contents())[k := defaultValue]
                                        && |elements| == old(|elements|) + 1 && index == |elements| - 1
      ensures k !in old(Contents()) ==> Pairs(elements) == old(Pairs(elements)) + [(k, defaultValue)]
    {
      var h := hash(k);
      var existing := FindHashed(h, k);
      if existing != -1 {
        return existing;
      }
      index := AddHashed_CheckNew(h, k, defaultValue);
      MapOfKeys(Pairs(elements));
    }

    /** RemoveHashedChecked: removes a key the caller knows to be present.
        The walk from its bucket finds the slot pointing at its element and
        stores the element's next index there. The last element is then
        popped, or else the link pointing at the last element is redirected
        to the freed index and the last element moved into it. */
    method RemoveHashedChecked(h: Hash32, k: K)
      requires Valid() && h == hash(k) && k in Contents()
      modifies this
      ensures Valid()
      ensures Pairs(elements) == SwapRemove(old(Pairs(elements)), IndexOfKey(old(Pairs(elements)), k))
      ensures Contents() == old(Contents()) - {k}
      ensures |elements| == old(|elements|) - 1
      ensures |hashTable| == old(|hashTable|)
    {
      ghost var ps := Pairs(elements);
      ghost var x := IndexOfKey(ps, k);
      SwapRemoveDeletesKey(ps, x);
      GetHashSizeMonotone(policy, |elements| - 1, |elements|);
      var elementIndex := UnlinkKey(h, k);
      if elementIndex == |elements| - 1 {
        // The last element: just pop.
        PopLast();
      } else {
        // Otherwise move the last element to the freed index.
        MoveLastInto(elementIndex);
      }
    }

    /** RemoveHashedChecked's first phase: the slot pointing at the element
        of k is overwritten with that element's next index. The element
        stays in the array but is on no chain. */
    method UnlinkKey(h: Hash32, k: K) returns (elementIndex: nat)
      requires Valid() && h == hash(k) && k in Contents()
      modifies this
      ensures elementIndex == old(IndexOfKey(Pairs(elements), k)) < |elements|
      ensures Pairs(elements) == old(Pairs(elements))
      ensures |hashTable| == old(|hashTable|)
      ensures Linked(hash, elements, hashTable, chains, |elements|, elementIndex)
    {
      var b := Bucket(h, |hashTable|);
      var slot, j := SlotOfKey(h, k);
      elementIndex := ReadSlot(elements, hashTable, slot);
      Unlink(hash, elements, hashTable, chains, b, j);
      var unlinked := WriteSlot(elements, hashTable, slot, elements[elementIndex].next);
      elements, hashTable := unlinked.0, unlinked.1;
      chains := chains[b := Drop(chains[b], j)];
    }

    /** RemoveHashedChecked's pop, for an unlinked last element. */
    method PopLast()
      requires 0 < |elements| && Linked(hash, elements, hashTable, chains, |elements|, |elements| - 1)
      modifies this
      ensures Linked(hash, elements, hashTable, chains, |elements|, -1)
      ensures Pairs(elements) == SwapRemove(old(Pairs(elements)), old(|elements|) - 1)
      ensures hashTable == old(hashTable)
    {
      PopUnlinked(hash, elements, hashTable, chains);
      ghost var ps := Pairs(elements);
      elements := elements[..|elements| - 1];
      assert Pairs(elements) == ps[..|ps| - 1];
    }

    /** RemoveHashedChecked's move: the walk from the last element's bucket
        finds the slot holding the last index and stores the freed index x
        there; the last element is moved into x and popped. */
    method MoveLastInto(x: nat)
      requires x < |elements| - 1
      requires Linked(hash, elements, hashTable, chains, |elements|, x)
      modifies this
      ensures Linked(hash, elements, hashTable, chains, |elements|, -1)
      ensures Pairs(elements) == SwapRemove(old(Pairs(elements)), x)
      ensures |hashTable| == old(|hashTable|)
    {
      var n := |elements|;
      var lastKey := elements[n - 1].key;
      var b := Bucket(hash(lastKey), |hashTable|);
      var slot, j := SlotOfIndex(b, n - 1, x);
      MoveLast(hash, elements, hashTable, chains, x, b, j);
      var redirected := WriteSlot(elements, hashTable, slot, x);
      elements := redirected.0[x := redirected.0[n - 1]][..n - 1];
      hashTable := redirected.1;
      chains := chains[b := Redirect(chains[b], j, x)];
    }

    /** The first walk of RemoveHashedChecked: from bucket Hash & (HashSize - 1)
        along the links, the slot that points at the element holding k. */
    method SlotOfKey(h: Hash32, k: K) returns (slot: Slot, ghost j: nat)
      requires Valid() && h == hash(k) && k in Contents()
      ensures 0 < |hashTable| && j < |chains[Bucket(h, |hashTable|)]|
      ensures slot == SlotBefore(Bucket(h, |hashTable|), chains[Bucket(h, |hashTable|)], j)
      ensures ValidSlot(elements, hashTable, slot)
      ensures ReadSlot(elements, hashTable, slot) == chains[Bucket(h, |hashTable|)][j]
                                                 == IndexOfKey(Pairs(elements), k)
    {
      ghost var x := IndexOfKey(Pairs(elements), k);
      var b := Bucket(h, |hashTable|);
      slot := Head(b);
      ghost var c := chains[b];
      ghost var at :| 0 <= at < |c| && c[at] == x;
      j := 0;
      SlotBeforeReads(hash, elements, hashTable, chains, |elements|, -1, b, 0);
      ChainEntry(hash, elements, hashTable, chains, |elements|, -1, b, 0);
      while elements[ReadSlot(elements, hashTable, slot)].key != k
        invariant 0 <= j <= at && slot == SlotBefore(b, c, j)
        invariant ValidSlot(elements, hashTable, slot) && ReadSlot(elements, hashTable, slot) == c[j]
        invariant c[j] < |elements|
        decreases at - j
      {
        slot := Link(ReadSlot(elements, hashTable, slot));
        j := j + 1;
        SlotBeforeReads(hash, elements, hashTable, chains, |elements|, -1, b, j);
        ChainEntry(hash, elements, hashTable, chains, |elements|, -1, b, j);
      }
      assert Pairs(elements)[c[j]].0 == k == Pairs(elements)[x].0;
    }

    /** The second walk of RemoveHashedChecked: along the chain of bucket b,
        the slot that holds the element index target. */
    method SlotOfIndex(b: nat, target: nat, ghost skip: int) returns (slot: Slot, ghost j: nat)
      requires Linked(hash, elements, hashTable, chains, |elements|, skip)
      requires b < |hashTable| && target in chains[b]
      ensures j < |chains[b]| && chains[b][j] == target
      ensures slot == SlotBefore(b, chains[b], j)
    {
      slot := Head(b);
      ghost var c := chains[b];
      ghost var at :| 0 <= at < |c| && c[at] == target;
      j := 0;
      SlotBeforeReads(hash, elements, hashTable, chains, |elements|, skip, b, 0);
      while ReadSlot(elements, hashTable, slot) != target
        invariant 0 <= j <= at && slot == SlotBefore(b, c, j)
        invariant ValidSlot(elements, hashTable, slot) && ReadSlot(elements, hashTable, slot) == c[j]
        decreases at - j
      {
        ChainEntry(hash, elements, hashTable, chains, |elements|, skip, b, j);
        slot := Link(ReadSlot(elements, hashTable, slot));
        j := j + 1;
        SlotBeforeReads(hash, elements, hashTable, chains, |elements|, skip, b, j);
      }
    }

    /** RemoveChecked: RemoveHashedChecked with the key's own hash. */
    method RemoveChecked(k: K)
      requires Valid() && k in Contents()
      modifies this
      ensures Valid()
      ensures Pairs(elements) == SwapRemove(old(Pairs(elements)), IndexOfKey(old(Pairs(elements)), k))
      ensures Contents() == old(Contents()) - {k}
    {
      RemoveHashedChecked(hash(k), k);
    }

    /** Remove: false with nothing changed for an absent key; otherwise the
        key is removed (not order-preserving) and the result is true. */
    method Remove(k: K) returns (removed: bool)
      requires Valid()
      modifies this
      ensures Valid()
      ensures removed <==> k in old(Contents())
      ensures !removed ==> unchanged(this)
      ensures Contents() == old(Contents()) - {k}
      ensures removed ==> |elements| == old(|elements|) - 1
    {
      var h := hash(k);
      var index := FindHashed(h, k);
      if index == -1 {
        return false;
      }
      RemoveHashedChecked(h, k);
      return true;
    }

    /** RemoveAndCopyValue: Remove that also hands back the removed value;
        the output is untouched (None) when the key is absent. */
    method RemoveAndCopyValue(k: K) returns (removed: bool, removedValue: Option<V>)
      requires Valid()
      modifies this
      ensures Valid()
      ensures removed <==> k in old(Contents())
      ensures removed ==> removedValue == Some(old(Contents())[k])
      ensures !removed ==> removedValue == None && unchanged(this)
      ensures Contents() == old(Contents()) - {k}
    {
      var h := hash(k);
      var index := FindHashed(h, k);
      if index == -1 {
        return false, None;
      }
      removedValue := Some(elements[index].value);
      RemoveHashedChecked(h, k);
      removed := true;
    }

    /** Sort: the elements are reordered by the predicate, then rehashed.
        The contents do not change, and under a strict weak order no element
        is less than one before it. */
    method Sort(lt: ((K, V), (K, V)) -> bool)
      requires Valid()
      modifies this
      ensures Valid()
      ensures multiset(Pairs(elements)) == multiset(old(Pairs(elements)))
      ensures Contents() == old(Contents())
      ensures |hashTable| == RehashSize(policy, |elements|, old(|hashTable|))
      ensures StrictWeakOrder(lt) ==> SortedBy(Pairs(elements), lt)
    {
      ghost var ps := Pairs(elements);
      var sorted := SortBy(Pairs(elements), lt);
      PermutationKeepsMap(ps, sorted);
      if StrictWeakOrder(lt) {
        SortBySorted(ps, lt);
      }
      // The links the sort carried along are rebuilt by Rehash.
      elements := Unlinked(sorted);
      Rehash();
    }

    /** KeySort: Sort comparing keys. With a strict total order on keys,
        AreKeySorted holds afterwards. */
    method KeySort(less: (K, K) -> bool)
      requires Valid()
      modifies this
      ensures Valid()
      ensures multiset(Pairs(elements)) == multiset(old(Pairs(elements)))
      ensures Contents() == old(Contents())
      ensures StrictWeakOrder(less) ==> SortedBy(Pairs(elements), KeyOrder(less))
      ensures StrictTotalOrder(less) ==> AdjacentBy(Keys(Pairs(elements)), less)
    {
      if StrictWeakOrder(less) {
        KeyOrderIsWeak<K, V>(less);
      }
      Sort(KeyOrder(less));
      if StrictTotalOrder(less) {
        KeySortedIsAdjacent(Pairs(elements), less);
      }
    }

    /** ValueSort: Sort comparing values. */
    method ValueSort(less: (V, V) -> bool)
      requires Valid()
      modifies this
      ensures Valid()
      ensures multiset(Pairs(elements)) == multiset(old(Pairs(elements)))
      ensures Contents() == old(Contents())
      ensures StrictWeakOrder(less) ==> SortedBy(Pairs(elements), ValueOrder(less))
    {
      if StrictWeakOrder(less) {
        ValueOrderIsWeak<K, V>(less);
      }
      Sort(ValueOrder(less));
    }

    /** AreKeySorted: whether each key is less than the next one. */
    method AreKeySorted(less: (K, K) -> bool) returns (sorted: bool)
      ensures sorted <==> AdjacentBy(Keys(Pairs(elements)), less)
    {
      var index := 1;
      while index < |elements|
        invariant 1 <= index <= |elements| || |elements| <= 1
        invariant forall t :: 1 <= t < index && t < |elements| ==> less(elements[t - 1].key, elements[t].key)
      {
        if !less(elements[index - 1].key, elements[index].key) {
          return false;
        }
        index := index + 1;
      }
      return true;
    }

    /** AreValueSorted: whether each value is less than the next one. */
    method AreValueSorted(less: (V, V) -> bool) returns (sorted: bool)
      ensures sorted <==> AdjacentBy(Values(Pairs(elements)), less)
    {
      var index := 1;
      while index < |elements|
        invariant 1 <= index <= |elements| || |elements| <= 1
        invariant forall t :: 1 <= t < index && t < |elements| ==> less(elements[t - 1].value, elements[t].value)
      {
        if !less(elements[index - 1].value, elements[index].value) {
          return false;
        }
        index := index + 1;
      }
      return true;
    }

    /** Reset: no elements and no hash table. */
    method Reset()
      requires ValidPolicy(policy)
      modifies this
      ensures Valid()
      ensures elements == [] && hashTable == []
      ensures Contents() == map[]
    {
      elements := [];
      hashTable := [];
      chains := [];
    }

    /** Reset_KeepHashSize: no elements; the table keeps its size (or gets
        GetHashSize(0) buckets if it had none), every bucket -1. */
    method ResetKeepHashSize()
      requires Valid()
      modifies this
      ensures Valid()
      ensures elements == []
      ensures Contents() == map[]
      ensures |hashTable| == RehashSize(policy, 0, old(|hashTable|))
      ensures forall b :: 0 <= b < |hashTable| ==> hashTable[b] == -1
    {
      elements := [];
      Rehash();
      forall b | 0 <= b < |hashTable| ensures hashTable[b] == -1 {
        assert chains[b] == [] by {
          if chains[b] != [] {
            ChainEntry(hash, elements, hashTable, chains, 0, -1, b, 0);
          }
        }
      }
    }

    /** Shrink: an empty map drops its table (GetHashSize(0) is not 0);
        otherwise a table of the wrong size for Num() is emptied and rebuilt
        at exactly GetHashSize(Num()). The contents never change. */
    method Shrink()
      requires Valid()
      modifies this
      ensures Valid()
      ensures Pairs(elements) == old(Pairs(elements))
      ensures Contents() == old(Contents())
      ensures |elements| == 0 ==> hashTable == []
      ensures |elements| > 0 ==> |hashTable| == GetHashSize(policy, |elements|)
    {
      if |elements| == 0 {
        elements := [];
        hashTable := [];
        chains := [];
        return;
      }
      if |hashTable| != GetHashSize(policy, |elements|) {
        hashTable := [];
        Rehash();
      }
    }

    /** Loading from an archive: the element array is read (keys and values
        in array order), then the map is rehashed, since the table is not
        stored. */
    method Load(ps: seq<(K, V)>)
      requires ValidPolicy(policy) && UniqueKeys(ps)
      requires |hashTable| == 0 || IsPowerOfTwo(|hashTable|)
      requires |hashTable| <= MaxHashSize
      modifies this
      ensures Valid()
      ensures Pairs(elements) == ps
      ensures Contents() == MapOf(ps)
    {
      elements := Unlinked(ps);
      Rehash();
    }
  }

  /** The elements Append's fast path builds as written: each copy is
      constructed from key and value alone, so its NextElementIndex keeps
      the constructor's debug default -16 (it is uninitialised in release
      builds), while the hash table is copied unchanged. */
  function CopiedWithoutLinks<K, V>(es: seq<Element<K, V>>): (r: seq<Element<K, V>>)
    ensures Pairs(r) == Pairs(es)
    ensures forall i :: 0 <= i < |r| ==> r[i].next == -16
  {
    seq(|es|, i requires 0 <= i < |es| => Element(es[i].key, es[i].value, -16))
  }

  /** Two keys sharing the only bucket of a one-bucket table, key 2 added
      after key 1 and so in front of it on the chain. */
  lemma SharedBucketIsLinked()
    ensures var hash := (k: int) => 0 as Hash32;
            var es := [Element(1, 10, -1), Element(2, 20, 0)];
            && Linked(hash, es, [1], [[1, 0]], |es|, -1)
            && UniqueKeys(Pairs(es))
  {
    var hash := (k: int) => 0 as Hash32;
    var es := [Element(1, 10, -1), Element(2, 20, 0)];
    assert Bucket(0, 1) == 0;
    assert EntryOk(hash, es, 1, 0, [1, 0], 0, 2, -1);
    assert EntryOk(hash, es, 1, 0, [1, 0], 1, 2, -1);
  }

  /** Two linked elements in a one-bucket table headed by element 1: the
      chain is 1 then 0, so element 1 links to 0 and element 0 ends it. */
  lemma TwoInOneBucket<K, V>(hash: K -> Hash32, es: seq<Element<K, V>>, table: seq<int>,
                             chains: seq<seq<nat>>)
    requires Linked(hash, es, table, chains, |es|, -1)
    requires |es| == 2 && table == [1]
    ensures es[1].next == 0 && es[0].next == -1
  {
    assert Bucket(hash(es[0].key), 1) == 0;
    var c := chains[0];
    assert c[0] == 1;
    ChainEntry(hash, es, table, chains, 2, -1, 0, 0);
    assert 0 in c;
    var t :| 0 <= t < |c| && c[t] == 0;
    ChainEntry(hash, es, table, chains, 2, -1, 0, 1);
    if |c| > 2 {
      ChainEntry(hash, es, table, chains, 2, -1, 0, 2);
      assert false;
    }
  }

  /** The map of AppendFastPathLosesLinks, built with the map's own
      operations: a default map whose keys all hash to 0 and whose table
      never exceeds one bucket, into which key 1 and then key 2 are added. */
  method SharedBucketMap() returns (m: VoxelMap<int, int>)
    ensures m.Valid()
    ensures m.elements == [Element(1, 10, -1), Element(2, 20, 0)] && m.hashTable == [1]
  {
    var policy := SizePolicy(_ => 1, 0);
    assert IsPowerOfTwo(1);
    m := new VoxelMap((k: int) => 0 as Hash32, policy, 0);
    var first := m.AddHashed_CheckNew(0, 1, 10);
    var second := m.AddHashed_CheckNew(0, 2, 20);
    assert Bucket(0, 1) == 0;
    assert m.hashTable == [1];
    TwoInOneBucket(m.hash, m.elements, m.hashTable, m.chains);
    assert Pairs(m.elements)[0] == (1, 10) && Pairs(m.elements)[1] == (2, 20);
  }

  /** Append's fast path as written loses the chains. A valid map whose two
      keys share its only bucket is copied into an empty map: the copied
      table still starts the bucket at element 1, whose link now reads -16,
      so the walk for key 1 leaves the array although key 1 is present. On
      the original elements the same walk finds it. */
  lemma AppendFastPathLosesLinks()
    ensures var hash := (k: int) => 0 as Hash32;
            var es := [Element(1, 10, -1), Element(2, 20, 0)];
            var table := [1];
            && Linked(hash, es, table, [[1, 0]], |es|, -1)
            && UniqueKeys(Pairs(es))
            && ChainLookup(es, table[0], 1, 2) == Found(0)
            && 1 in MapOf(Pairs(CopiedWithoutLinks(es)))
            && ChainLookup(CopiedWithoutLinks(es), table[0], 1, 2) == OutOfRange(-16)
  {
    SharedBucketIsLinked();
    var es := [Element(1, 10, -1), Element(2, 20, 0)];
    var copied := CopiedWithoutLinks(es);
    assert copied[1].key == 2 && copied[1].next == -16;
    MapOfKeys(Pairs(copied));
    assert Pairs(copied)[0] == (1, 10);
  }
}
