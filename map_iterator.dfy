// TVoxelMap's iterator: an index into the element array plus the element
// it currently designates. RemoveCurrent removes that element and steps
// the index back, so the element moved into the freed slot is visited next.
module MapIterators {
  import opened MapElements
  import opened VoxelMaps

  class MapIterator<K(==, !new), V(!new)> {
    /** MapPtr: the map iterated over. */
    const owner: VoxelMap<K, V>
    /** Index: the position in the element array. */
    var index: int
    /** Whether ElementPtr is set; when it is, it designates
        owner.elements[index]. */
    var hasElement: bool

    /** The map is valid, the index has not run below -1 (one RemoveCurrent
        at the start), and a set element pointer lies inside the array. */
    ghost predicate Valid()
      reads this, owner
    {
      && owner.Valid()
      && -1 <= index
      && (hasElement ==> 0 <= index < |owner.elements|)
    }

    /** An iterator at index 0, pointing at the first element if there is
        one. */
    constructor (m: VoxelMap<K, V>)
      requires m.Valid()
      ensures Valid()
      ensures owner == m && index == 0
      ensures hasElement <==> |m.elements| > 0
    {
      owner := m;
      index := 0;
      hasElement := |m.elements| > 0;
    }

    /** operator++: the next index, with an element pointer exactly while
        the index is inside the array. */
    method Next()
      requires Valid()
      modifies this
      ensures Valid()
      ensures index == old(index) + 1
      ensures hasElement <==> index < |owner.elements|
    {
      index := index + 1;
      hasElement := index < |owner.elements|;
    }

    /** Key: the key of the current element, which the map contains. */
    method Key() returns (k: K)
      requires Valid() && hasElement
      ensures k == owner.elements[index].key
      ensures k in owner.Contents()
    {
      k := owner.elements[index].key;
      MapOfKeys(Pairs(owner.elements));
    }

    /** Value: the value of the current element, the one the map holds for
        its key. */
    method Value() returns (v: V)
      requires Valid() && hasElement
      ensures owner.elements[index].key in owner.Contents()
      ensures v == owner.Contents()[owner.elements[index].key]
    {
      v := owner.elements[index].value;
      MapOfValues(Pairs(owner.elements));
    }

    /** RemoveCurrent: the current key is removed from the map (the last
        element moves into its slot), the element pointer is cleared and the
        index steps back one. The visited prefix is untouched, the elements
        not yet visited are the same ones as before, and the element moved
        in is the one the next ++ lands on. */
    method RemoveCurrent()
      requires Valid() && hasElement
      modifies this, owner
      ensures Valid()
      ensures !hasElement && index == old(index) - 1
      ensures owner.Contents() == old(owner.Contents()) - {old(owner.elements[index].key)}
      ensures Pairs(owner.elements) == SwapRemove(old(Pairs(owner.elements)), old(index))
      ensures Pairs(owner.elements)[..old(index)] == old(Pairs(owner.elements))[..old(index)]
      ensures multiset(Pairs(owner.elements)[old(index)..]) == multiset(old(Pairs(owner.elements))[old(index) + 1..])
      ensures old(index) < |owner.elements| ==>
                Pairs(owner.elements)[old(index)] == old(Pairs(owner.elements))[|owner.elements|]
    {
      var k := Key();
      ghost var ps := Pairs(owner.elements);
      ghost var i: nat := index;
      assert ps[i].0 == k;
      assert IndexOfKey(ps, k) == i;
      SwapRemoveKeepsUnvisited(ps, i);
      owner.RemoveChecked(k);
      assert Pairs(owner.elements) == SwapRemove(ps, i);
      hasElement := false;
      index := index - 1;
    }
  }
}
