/** The flyweight constant cache: a memo table from an integer key to the
    big-integer value of that key. A miss builds the value and stores it for
    good; a hit hands back what is stored. Entries are never removed or
    redefined. */
module FlyweightCache {

  datatype Option<T> = None | Some(value: T)

  class Cache {
    /** The stored entries, keyed by the integer they represent. */
    var entries: map<int, int>

    /** Every entry holds the value of its own key. */
    ghost predicate Valid()
      reads this
    {
      forall k :: k in entries ==> entries[k] == k
    }

    constructor ()
      ensures Valid() && entries == map[]
    {
      entries := map[];
    }

    /** Reading the property `cache[k]` without calling the cache: the stored
        value, or nothing (`undefined`) on a miss. */
    function Lookup(k: int): (r: Option<int>)
      reads this
      requires Valid()
      ensures r.Some? <==> k in entries
      ensures r.Some? ==> r.value == k
    {
      if k in entries then Some(entries[k]) else None
    }

    /** Calling the cache with `k`: returns the value of `k`, creating and
        storing it on a miss. */
    method Get(k: int) returns (v: int)
      requires Valid()
      modifies this
      ensures Valid() && v == k
      ensures entries == old(entries)[k := k]
      ensures k in old(entries) ==> entries == old(entries) && v == old(entries)[k]
    {
      if k in entries {
        return entries[k];
      }
      v := k;
      entries := entries[k := v];
    }

    /** `keys.forEach(cache)`: calls the cache once per key, in order. */
    method WarmUp(keys: seq<int>)
      requires Valid()
      modifies this
      ensures Valid()
      ensures entries.Keys == old(entries).Keys + (set k | k in keys)
      ensures forall j :: j in old(entries) ==> j in entries && entries[j] == old(entries)[j]
    {
      for i := 0 to |keys|
        invariant Valid()
        invariant entries.Keys == old(entries).Keys + (set k | k in keys[..i])
        invariant forall j :: j in old(entries) ==> j in entries && entries[j] == old(entries)[j]
      {
        var _ := Get(keys[i]);
        assert keys[..i + 1] == keys[..i] + [keys[i]];
      }
      assert keys[..|keys|] == keys;
    }
  }
}
