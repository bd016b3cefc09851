// The comparisons TVoxelMap offers between two maps: by contents, by
// element order, and by key set alone.
module MapComparisons {
  import opened MapElements
  import opened VoxelMaps

  /** OrderIndependentEqual: the maps have the same number of elements and
      every key of Other is found here with an equal value. With unique keys
      on both sides this is equality of contents, whatever the order. */
  method OrderIndependentEqual<K(==, !new), V(==, !new)>(m: VoxelMap<K, V>, other: VoxelMap<K, V>)
    returns (equal: bool)
    requires m.Valid() && other.Valid()
    ensures equal <==> && m.Num() == other.Num()
                       && forall k :: k in other.Contents() ==> k in m.Contents() && m.Contents()[k] == other.Contents()[k]
    ensures equal <==> m.Contents() == other.Contents()
  {
    var os := other.elements;
    MapOfValues(Pairs(os));
    if |m.elements| != |os| {
      return false;
    }
    var i := 0;
    while i < |os|
      invariant 0 <= i <= |os|
      invariant forall t :: 0 <= t < i ==> os[t].key in m.Contents() && m.Contents()[os[t].key] == os[t].value
    {
      var index := m.Find(os[i].key);
      if index == -1 || m.elements[index].value != os[i].value {
        assert Pairs(os)[i] == (os[i].key, os[i].value);
        return false;
      }
      i := i + 1;
    }
    assert m.Num() == |os|;
    CoveredSameSize(os, m.Contents());
    return true;
  }

  /** OrderDependentEqual: the same number of elements, and at each index
      the same key and an equal value. */
  method OrderDependentEqual<K(==, !new), V(==, !new)>(m: VoxelMap<K, V>, other: VoxelMap<K, V>)
    returns (equal: bool)
    ensures equal <==> Pairs(m.elements) == Pairs(other.elements)
    ensures equal ==> m.Contents() == other.Contents()
  {
    if |m.elements| != |other.elements| {
      return false;
    }
    var i := 0;
    while i < |m.elements|
      invariant 0 <= i <= |m.elements|
      invariant forall t :: 0 <= t < i ==> Pairs(m.elements)[t] == Pairs(other.elements)[t]
    {
      if m.elements[i].key != other.elements[i].key || m.elements[i].value != other.elements[i].value {
        assert Pairs(m.elements)[i] != Pairs(other.elements)[i];
        return false;
      }
      i := i + 1;
    }
    return true;
  }

  /** HasSameKeys: the same number of elements and every key of Other
      present here, whatever the value types; with unique keys, the same key
      set. */
  method HasSameKeys<K(==, !new), V(!new), W(!new)>(m: VoxelMap<K, V>, other: VoxelMap<K, W>)
    returns (same: bool)
    requires m.Valid() && other.Valid()
    ensures same <==> m.Num() == other.Num() && forall k :: k in other.Contents() ==> k in m.Contents()
    ensures same <==> m.Contents().Keys == other.Contents().Keys
  {
    var os := other.elements;
    MapOfKeys(Pairs(os));
    if |m.elements| != |os| {
      return false;
    }
    var i := 0;
    while i < |os|
      invariant 0 <= i <= |os|
      invariant forall t :: 0 <= t < i ==> os[t].key in m.Contents()
    {
      var found := m.Contains(os[i].key);
      if !found {
        assert Pairs(os)[i].0 == os[i].key;
        return false;
      }
      i := i + 1;
    }
    assert m.Num() == |os|;
    KeysCoveredSameSize(os, m.Contents().Keys);
    return true;
  }
}
