/**
 * The simpler cache design: the same array of per-slot buckets and global
 * key-to-entry map `data` as the segmented LRU map, without touch times and
 * without eviction. A bucket here is a plain key-to-entry map with no hash
 * guard, so every held key can be found again. A bucket is only reachable
 * through its slot, so it is modelled as a map value stored in the array;
 * the entries are objects, shared between `data` and the buckets.
 */
module LruCache {
  import opened Wrappers
  import opened JavaInt
  import Sizing
  import LruMap

  /**
   * `hashIndex(Object)`: 0 for the null key; otherwise `Math.abs(h) % length`
   * with `Integer.MIN_VALUE` replaced by 0 first.
   */
  function HashIndex<K>(key: Option<K>, hash: K -> int32, length: int): (i: int)
    requires length > 0
    ensures 0 <= i < length
    ensures key.None? ==> i == 0
    ensures key.Some? && hash(key.value) == MIN_VALUE ==> i == 0
    ensures key.Some? && hash(key.value) != MIN_VALUE ==>
      i == (if hash(key.value) < 0 then -hash(key.value) else hash(key.value)) % length
  {
    match key
    case None => 0
    case Some(k) =>
      var hashCode := if hash(k) == MIN_VALUE then 0 else hash(k);
      Rem(Abs(hashCode), length)
  }

  /** Both designs put a key in the same slot of an array of the same length. */
  lemma SameSlotAsMap<K>(key: Option<K>, hash: K -> int32, length: int)
    requires length > 0
    ensures HashIndex(key, hash, length) == LruMap.KeyIndex(key, hash, length)
  {
  }

  /** `HashEntry`: a key, its hash and its current value. */
  class HashEntry<K, V> {
    const hashCode: int32
    const key: K
    var value: V

    constructor (key: K, value: V, hash: K -> int32)
      ensures this.key == key && this.value == value && hashCode == hash(key)
    {
      this.hashCode := hash(key);
      this.value := value;
      this.key := key;
    }

    /** `setValue`: replaces the value and hands back the previous one. */
    method SetValue(newValue: V) returns (previous: V)
      modifies this
      ensures value == newValue && previous == old(value)
    {
      previous := value;
      value := newValue;
    }
  }

  /** `SLRUCache`: the array of buckets and the global map. */
  class SLRUCache<K(==), V> {
    const capacity: int
    const hash: K -> int32
    const hashLookup: array<Option<map<K, HashEntry<K, V>>>>
    var data: map<K, HashEntry<K, V>>

    /** The objects the cache is made of. */
    ghost var Repr: set<object>

    /** The slot of a (non-null) key. */
    function Slot(k: K): int
      requires hashLookup.Length > 0
    {
      HashIndex(Some(k), hash, hashLookup.Length)
    }

    /**
     * Slot `i` is empty or holds a non-empty bucket whose keys all belong
     * to slot `i` and map to their `data` entries.
     */
    ghost predicate SlotOk(i: int)
      requires 0 <= i < hashLookup.Length
      reads this, hashLookup
    {
      hashLookup[i].Some? ==>
        && hashLookup[i].value != map[]
        && forall k :: k in hashLookup[i].value ==>
             k in data && data[k] == hashLookup[i].value[k] && Slot(k) == i
    }

    /** Held key `k` sits in the bucket of its slot, and its entry knows its key. */
    ghost predicate KeyOk(k: K)
      requires hashLookup.Length > 0 && k in data
      reads this, hashLookup
    {
      && data[k] in Repr && data[k].key == k
      && hashLookup[Slot(k)].Some? && k in hashLookup[Slot(k)].value
    }

    ghost predicate Valid()
      reads this, hashLookup
    {
      && this in Repr && hashLookup in Repr
      && hashLookup.Length > 0
      && (forall i :: 0 <= i < hashLookup.Length ==> SlotOk(i))
      && (forall k {:trigger KeyOk(k)} :: k in data ==> KeyOk(k))
    }

    /** The cache as a caller sees it: each key with its value. */
    ghost function Model(): map<K, V>
      reads this, data.Values
    {
      map k | k in data :: data[k].value
    }

    /**
     * A key is held exactly when it is in the bucket of its slot, and no
     * slot holds an empty bucket.
     */
    lemma HeldIffInSlot(k: K)
      requires Valid()
      ensures k in data <==> hashLookup[Slot(k)].Some? && k in hashLookup[Slot(k)].value
      ensures forall i :: 0 <= i < hashLookup.Length && hashLookup[i].Some? ==> hashLookup[i].value != map[]
    {
      if k in data {
        assert KeyOk(k);
      }
      if hashLookup[Slot(k)].Some? && k in hashLookup[Slot(k)].value {
        assert SlotOk(Slot(k));
      }
      forall i | 0 <= i < hashLookup.Length && hashLookup[i].Some?
        ensures hashLookup[i].value != map[]
      {
        assert SlotOk(i);
      }
    }

    /**
     * The constructor: `(int)(capacity * loadFactor)` slots, all empty. The
     * backing `HashMap` rejects a negative capacity and a load factor that
     * is not positive. A length of 0 (capacity one with the default load
     * factor, say) makes every `put`, `get` and `remove` throw, so it is
     * excluded here.
     */
    constructor (capacity: int, loadFactor: real, hash: K -> int32)
      requires capacity >= 0 && loadFactor > 0.0
      requires Sizing.MultipliedTableLength(capacity, loadFactor) >= 1
      ensures Valid() && fresh(Repr)
      ensures this.capacity == capacity && this.hash == hash
      ensures hashLookup.Length == Sizing.MultipliedTableLength(capacity, loadFactor)
      ensures forall i :: 0 <= i < hashLookup.Length ==> hashLookup[i] == None
      ensures Model() == map[]
    {
      this.capacity := capacity;
      this.hash := hash;
      hashLookup := new Option<map<K, HashEntry<K, V>>>[Sizing.MultipliedTableLength(capacity, loadFactor)](_ => None);
      data := map[];
      new;
      Repr := {this, hashLookup};
    }

    /** `size`: the number of keys held. */
    function Size(): (n: nat)
      reads this, data.Values
      ensures n == |Model()|
    {
      assert Model().Keys == data.Keys;
      |data|
    }

    /** `isEmpty` */
    function IsEmpty(): (e: bool)
      reads this, data.Values
      ensures e <==> Model() == map[]
    {
      assert Model().Keys == data.Keys;
      data == map[]
    }

    /** `findHashEntry`: the entry of `key` in the bucket of its slot, if any. */
    method FindHashEntry(key: Option<K>) returns (e: HashEntry?<K, V>)
      requires Valid()
      ensures e != null <==> key.Some? && key.value in data
      ensures e != null ==> e == data[key.value]
    {
      var index := HashIndex(key, hash, hashLookup.Length);
      var sameHashValueMap := hashLookup[index];
      if key.Some? && key.value in data {
        assert KeyOk(key.value);
      }
      if sameHashValueMap.Some? {
        assert SlotOk(index);
        if key.Some? && key.value in sameHashValueMap.value {
          return sameHashValueMap.value[key.value];
        }
      }
      return null;
    }

    /** `get`: the value held for `key`, if any; nothing changes. */
    method Get(key: Option<K>) returns (r: Option<V>)
      requires Valid()
      ensures key.Some? && key.value in Model() ==> r == Some(Model()[key.value])
      ensures !(key.Some? && key.value in Model()) ==> r == None
    {
      var hashEntry := FindHashEntry(key);
      if hashEntry == null {
        return None;
      }
      return Some(hashEntry.value);
    }

    /**
     * `put`: an absent key gets a new entry in its slot's bucket (a new
     * bucket if the slot is empty) and in `data`; a held key has its value
     * replaced. No other key is affected: there is no eviction.
     */
    method Put(key: K, value: V) returns (r: Option<V>)
      requires Valid()
      modifies Repr
      ensures Valid() && fresh(Repr - old(Repr))
      ensures Model() == old(Model())[key := value]
      ensures key in old(Model()) ==> r == Some(old(Model())[key]) && Size() == old(Size())
      ensures key !in old(Model()) ==> r == None && Size() == old(Size()) + 1
    {
      var index := HashIndex(Some(key), hash, hashLookup.Length);
      var sameHashValueMap := hashLookup[index];
      assert key in data ==> KeyOk(key);
      if sameHashValueMap.None? {
        var hashEntry := PutInNewBucket(key, value, index);
        return None;
      }
      assert SlotOk(index);
      if key !in sameHashValueMap.value {
        var hashEntry := PutInBucket(key, value, index);
        return None;
      }
      var hashEntry := sameHashValueMap.value[key];
      var oldValue := hashEntry.value;
      var _ := hashEntry.SetValue(value);
      ValueSet(key);
      return Some(oldValue);
    }

    /** The branch of `put` for an empty slot: a one-entry bucket goes into it. */
    method PutInNewBucket(key: K, value: V, index: int) returns (hashEntry: HashEntry<K, V>)
      requires Valid() && index == Slot(key) && hashLookup[index].None?
      modifies this, hashLookup
      ensures Valid() && fresh(Repr - old(Repr))
      ensures Model() == old(Model())[key := value] && key !in old(Model())
    {
      assert key in data ==> KeyOk(key);
      var sameHashValueMap: map<K, HashEntry<K, V>> := map[];
      hashEntry := new HashEntry(key, value, hash);
      sameHashValueMap := sameHashValueMap[key := hashEntry];
      data := data[key := hashEntry];
      hashLookup[index] := Some(sameHashValueMap);
      Repr := Repr + {hashEntry};
      Inserted(key, index);
    }

    /** The branch of `put` for a bucket that lacks the key: the entry joins it. */
    method PutInBucket(key: K, value: V, index: int) returns (hashEntry: HashEntry<K, V>)
      requires Valid() && index == Slot(key) && hashLookup[index].Some?
      requires key !in hashLookup[index].value
      modifies this, hashLookup
      ensures Valid() && fresh(Repr - old(Repr))
      ensures Model() == old(Model())[key := value] && key !in old(Model())
    {
      assert key in data ==> KeyOk(key);
      var sameHashValueMap := hashLookup[index].value;
      hashEntry := new HashEntry(key, value, hash);
      sameHashValueMap := sameHashValueMap[key := hashEntry];
      data := data[key := hashEntry];
      hashLookup[index] := Some(sameHashValueMap);
      Repr := Repr + {hashEntry};
      Inserted(key, index);
    }

    /**
     * After a fresh entry for absent `key` went into `data` and into the
     * bucket of slot `index`, the cache is well formed again and holds one
     * more key.
     */
    twostate lemma Inserted(new key: K, index: int)
      requires old(Valid()) && index == Slot(key) && key !in old(data)
      requires key in data && data == old(data)[key := data[key]] && data[key].key == key
      requires Repr == old(Repr) + {data[key]}
      requires hashLookup[..] == old(hashLookup[..])[index := Some(
        (if old(hashLookup[index]).Some? then old(hashLookup[index]).value else map[])[key := data[key]])]
      requires forall o :: o in old(Repr) && o != this && o != hashLookup ==> unchanged(o)
      ensures Valid()
      ensures Model() == old(Model())[key := data[key].value]
    {
      assert old(SlotOk(index));
      forall i | 0 <= i < hashLookup.Length
        ensures SlotOk(i)
      {
        assert old(SlotOk(i));
        if i == index {
          assert key in hashLookup[i].value;
        }
      }
      forall k | k in data
        ensures KeyOk(k)
      {
        if k != key {
          assert old(KeyOk(k));
        }
      }
      forall k | k in old(data)
        ensures data[k].value == old(data[k].value)
      {
        assert old(KeyOk(k));
      }
      assert Model().Keys == old(Model()).Keys + {key};
      LruMap.Updated(old(Model()), Model(), key, data[key].value);
    }

    /** After `setValue` on the entry of held `key`, only that key's value changed. */
    twostate lemma ValueSet(new key: K)
      requires old(Valid()) && key in data && unchanged(this) && unchanged(hashLookup)
      requires forall o :: o in old(Repr) && o != data[key] ==> unchanged(o)
      ensures Valid()
      ensures Model() == old(Model())[key := data[key].value]
    {
      forall j | j in data && j != key
        ensures data[j].value == old(data[j].value)
      {
        assert old(KeyOk(j)) && old(KeyOk(key));
      }
      assert Model().Keys == old(Model()).Keys;
      LruMap.Updated(old(Model()), Model(), key, data[key].value);
    }

    /**
     * `remove`: a held key leaves its bucket and `data`, and a bucket left
     * empty leaves its slot; a key not held changes nothing.
     */
    method Remove(key: Option<K>) returns (r: Option<V>)
      requires Valid()
      modifies this, hashLookup
      ensures Valid() && Repr == old(Repr)
      ensures key.Some? && key.value in old(Model()) ==>
        && r == Some(old(Model())[key.value])
        && Model() == old(Model()) - {key.value}
        && Size() == old(Size()) - 1
      ensures !(key.Some? && key.value in old(Model())) ==>
        r == None && unchanged(this) && unchanged(hashLookup)
    {
      var index := HashIndex(key, hash, hashLookup.Length);
      var sameHashValueMap := hashLookup[index];
      if key.Some? && key.value in data {
        assert KeyOk(key.value);
      }
      if sameHashValueMap.None? {
        return None;
      }
      assert SlotOk(index);
      if key.None? || key.value !in sameHashValueMap.value {
        return None;
      }
      var k := key.value;
      var hashEntry := sameHashValueMap.value[k];
      var bucket := sameHashValueMap.value - {k};
      data := data - {k};
      if bucket == map[] {
        hashLookup[index] := None;
      } else {
        hashLookup[index] := Some(bucket);
      }
      Removed(k, index);
      return Some(hashEntry.value);
    }

    /**
     * After held `key` left `data` and the bucket of its slot (and the slot,
     * if the bucket became empty), the cache is well formed and holds one
     * key fewer.
     */
    twostate lemma Removed(new key: K, index: int)
      requires old(Valid()) && index == Slot(key) && key in old(data)
      requires Repr == old(Repr)
      requires data == old(data) - {key}
      requires old(hashLookup[index]).Some?
      requires hashLookup[..] == old(hashLookup[..])[index :=
        if old(hashLookup[index]).value - {key} == map[] then None
        else Some(old(hashLookup[index]).value - {key})]
      requires forall o :: o in old(Repr) && o != this && o != hashLookup ==> unchanged(o)
      ensures Valid()
      ensures Model() == old(Model()) - {key}
    {
      RemovedSlots(key, index);
      forall k | k in data
        ensures KeyOk(k)
      {
        assert old(KeyOk(k));
        if Slot(k) == index {
          assert k in old(hashLookup[index]).value - {key};
        }
      }
      forall k | k in data
        ensures data[k].value == old(data[k].value)
      {
        assert old(KeyOk(k));
      }
      assert Model().Keys == old(Model()).Keys - {key};
    }

    /** After the removal `Removed` describes, every slot is well formed. */
    twostate lemma RemovedSlots(new key: K, index: int)
      requires old(Valid()) && index == Slot(key)
      requires data == old(data) - {key}
      requires old(hashLookup[index]).Some?
      requires hashLookup[..] == old(hashLookup[..])[index :=
        if old(hashLookup[index]).value - {key} == map[] then None
        else Some(old(hashLookup[index]).value - {key})]
      ensures forall i :: 0 <= i < hashLookup.Length ==> SlotOk(i)
    {
      assert old(SlotOk(index));
      forall i | 0 <= i < hashLookup.Length
        ensures SlotOk(i)
      {
        assert old(SlotOk(i));
      }
    }

    /** `clear`: empties `data` and every slot. */
    method Clear()
      requires Valid()
      modifies this, hashLookup
      ensures Valid() && Repr == old(Repr)
      ensures Model() == map[] && Size() == 0
      ensures forall i :: 0 <= i < hashLookup.Length ==> hashLookup[i] == None
    {
      data := map[];
      forall i | 0 <= i < hashLookup.Length {
        hashLookup[i] := None;
      }
    }
  }

  /**
   * The first half of the basic map test, on a fresh cache of capacity 100
   * and any two distinct keys: the cache starts empty, and a `get` returns
   * what was put, repeatedly, also after a second key was put.
   */
  method PutGetScenario<K(==), V>(hash: K -> int32, k1: K, k2: K, v1: V, v2: V)
    returns (emptyAtStart: bool, get1: Option<V>, get1Again: Option<V>, get1After2: Option<V>, get2: Option<V>)
    requires k1 != k2
    ensures emptyAtStart
    ensures get1 == Some(v1) && get1Again == Some(v1)
    ensures get1After2 == Some(v1) && get2 == Some(v2)
  {
    assert Sizing.MultipliedTableLength(100, Sizing.DEFAULT_LOAD_FACTOR) == 75;
    var cache := new SLRUCache<K, V>(100, Sizing.DEFAULT_LOAD_FACTOR, hash);
    emptyAtStart := cache.IsEmpty();
    var _ := cache.Put(k1, v1);
    get1 := cache.Get(Some(k1));
    assert get1 == Some(v1);
    get1Again := cache.Get(Some(k1));
    assert get1Again == Some(v1);
    var _ := cache.Put(k2, v2);
    get1After2 := cache.Get(Some(k1));
    assert get1After2 == Some(v1);
    get2 := cache.Get(Some(k2));
  }

  /**
   * The removal of the first key in the basic map test, from the state the
   * puts leave (two keys held): `remove` returns the value once and null the
   * second time, `get` no longer finds the key, and the other key is kept.
   */
  method RemoveFirstScenario<K(==), V>(cache: SLRUCache<K, V>, k1: K, k2: K, v1: V, v2: V)
    returns (remove1: Option<V>, get1Removed: Option<V>, remove1Again: Option<V>, emptyWithOne: bool)
    requires cache.Valid() && k1 != k2 && cache.Model() == map[k1 := v1, k2 := v2]
    modifies cache, cache.hashLookup
    ensures cache.Valid() && cache.Model() == map[k2 := v2]
    ensures remove1 == Some(v1) && get1Removed == None && remove1Again == None && !emptyWithOne
  {
    remove1 := cache.Remove(Some(k1));
    assert remove1 == Some(v1) && cache.Model() == map[k2 := v2];
    get1Removed := cache.Get(Some(k1));
    remove1Again := cache.Remove(Some(k1));
    assert remove1Again == None;
    emptyWithOne := cache.IsEmpty();
  }

  /**
   * The removal of the second key in the basic map test: `remove` returns
   * the value once and null the second time, `get` no longer finds the key,
   * and the cache is then empty.
   */
  method RemoveSecondScenario<K(==), V>(cache: SLRUCache<K, V>, k2: K, v2: V)
    returns (remove2: Option<V>, get2Removed: Option<V>, remove2Again: Option<V>, emptyAtEnd: bool)
    requires cache.Valid() && cache.Model() == map[k2 := v2]
    modifies cache, cache.hashLookup
    ensures cache.Valid() && cache.Model() == map[]
    ensures remove2 == Some(v2) && get2Removed == None && remove2Again == None && emptyAtEnd
  {
    remove2 := cache.Remove(Some(k2));
    assert remove2 == Some(v2) && cache.Model() == map[];
    get2Removed := cache.Get(Some(k2));
    remove2Again := cache.Remove(Some(k2));
    emptyAtEnd := cache.IsEmpty();
  }
}
