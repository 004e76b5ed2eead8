/**
 * The segmented LRU map: a fixed array of buckets ("same hash value maps"),
 * each a small key-to-entry map created by the first key that lands in its
 * slot, plus one global key-to-entry map `data` that holds the same entry
 * objects. Every entry carries its last touch time; every bucket caches the
 * oldest touch time of its entries, and eviction removes, pass by pass, the
 * entries of the bucket with the oldest cached time that carry exactly that
 * time.
 *
 * Keys are any type with equality plus a `hash` function into Java's `int`
 * (`hashCode`); a Java `null` key is `None`. The clock `System.nanoTime()`
 * becomes a `now` parameter that grows strictly from call to call.
 */
module LruMap {
  import opened Wrappers
  import opened JavaInt
  import Sizing

  /** `cleanHashCode`: the hash of a key, 0 for the null key. */
  function CleanHashCode<K>(key: Option<K>, hash: K -> int32): (h: int32)
    ensures key.None? ==> h == 0
  {
    match key
    case None => 0
    case Some(k) => hash(k)
  }

  /**
   * `hashIndex(int)`: `Math.abs(h) % length`, with `Integer.MIN_VALUE`
   * replaced by 0 first so that the absolute value cannot overflow.
   */
  function HashIndex(hashCode: int32, length: int): (i: int)
    requires length > 0
    ensures 0 <= i < length
    ensures hashCode == MIN_VALUE ==> i == 0
    ensures hashCode != MIN_VALUE ==> i == (if hashCode < 0 then -hashCode else hashCode) % length
  {
    var h := if hashCode == MIN_VALUE then 0 else hashCode;
    Rem(Abs(h), length)
  }

  /** `hashIndex(Object)`: the slot of a key; the null key lives in slot 0. */
  function KeyIndex<K>(key: Option<K>, hash: K -> int32, length: int): (i: int)
    requires length > 0
    ensures 0 <= i < length
    ensures key.None? ==> i == 0
  {
    HashIndex(CleanHashCode(key, hash), length)
  }

  /**
   * Without the remapping of `Integer.MIN_VALUE`, `Math.abs` would return
   * `Integer.MIN_VALUE` itself and `%` a negative slot, for exactly those
   * lengths that do not divide 2^31.
   */
  lemma UnguardedIndexNegative(length: int)
    requires length > 0
    ensures Rem(Abs(MIN_VALUE), length) < 0 <==> 0x8000_0000 % length != 0
  {
    assert Abs(MIN_VALUE) == MIN_VALUE;
    assert Rem(MIN_VALUE, length) == -(0x8000_0000 % length);
  }

  /** What the map holds for one key: the value and the last touch time. */
  datatype Cell<V> = Cell(value: V, stamp: int)

  /** A map that agrees with `m0` off `key` and holds `c` at `key` is `m0[key := c]`. */
  lemma Updated<K, C>(m0: map<K, C>, m1: map<K, C>, key: K, c: C)
    requires m1.Keys == m0.Keys + {key} && m1[key] == c
    requires forall j :: j in m1 && j != key ==> j in m0 && m1[j] == m0[j]
    ensures m1 == m0[key := c]
  {
  }

  /** The keys of `m` touched at time `t` or later. */
  ghost function Recent<K, V>(m: map<K, Cell<V>>, t: int): set<K>
  {
    set k | k in m && m[k].stamp >= t
  }

  /**
   * `after` is what an LRU flush to `capacity` may leave of `before`: a
   * sub-map; nothing removed when `before` already fits, and at most
   * `capacity` entries otherwise; no evicted entry was touched later than a
   * surviving one; and an entry is evicted only if more than `capacity`
   * entries (itself included) were touched no earlier than it.
   */
  ghost predicate LruFlushed<K, V>(before: map<K, Cell<V>>, after: map<K, Cell<V>>, capacity: int)
  {
    && (forall k :: k in after ==> k in before && after[k] == before[k])
    && (if |before| <= capacity then after == before else |after| <= capacity)
    && (forall k, s :: k in before && k !in after && s in after ==> before[k].stamp <= before[s].stamp)
    && (forall k :: k in before && k !in after ==> |Recent(before, before[k].stamp)| > capacity)
  }

  lemma {:induction false} SubsetCard<T>(a: set<T>, b: set<T>)
    requires a <= b
    ensures |a| <= |b|
  {
    if a != {} {
      var x :| x in a;
      SubsetCard(a - {x}, b - {x});
    }
  }

  /** Dropping a non-empty set of held keys makes a map smaller; dropping none leaves it as it was. */
  lemma {:induction false} Shrinks<K, E>(d0: map<K, E>, d1: map<K, E>, victims: set<K>)
    requires victims <= d0.Keys && d1 == d0 - victims
    ensures victims == {} ==> d1 == d0
    ensures victims != {} ==> |d1| < |d0|
  {
    if victims != {} {
      var v :| v in victims;
      SubsetCard(d1.Keys, d0.Keys - {v});
      assert |d1| == |d1.Keys|;
    }
  }

  /**
   * The ordering conditions of `LruFlushed` for a flush of `m0` in progress
   * that has kept the keys `kept` so far.
   */
  ghost predicate FlushedSoFar<K, V>(m0: map<K, Cell<V>>, kept: set<K>, capacity: int)
  {
    && kept <= m0.Keys
    && (forall k, s :: k in m0 && k !in kept && s in kept ==> m0[k].stamp <= m0[s].stamp)
    && (forall k :: k in m0 && k !in kept ==> |Recent(m0, m0[k].stamp)| > capacity)
  }

  /**
   * One eviction pass keeps the conditions: with more than `capacity` keys
   * kept, it drops some kept keys touched no later than any kept key.
   */
  lemma {:induction false} FlushStep<K, V>(m0: map<K, Cell<V>>, kept: set<K>, victims: set<K>, capacity: int)
    requires FlushedSoFar(m0, kept, capacity) && |kept| > capacity
    requires victims <= kept
    requires forall v, s :: v in victims && s in kept ==> m0[v].stamp <= m0[s].stamp
    ensures FlushedSoFar(m0, kept - victims, capacity)
  {
    forall v | v in victims
      ensures |Recent(m0, m0[v].stamp)| > capacity
    {
      SubsetCard(kept, Recent(m0, m0[v].stamp));
    }
  }

  /**
   * With room for at least one entry, a flush never evicts the entry
   * touched strictly after all others, such as the one just inserted.
   */
  lemma NewestSurvives<K, V>(before: map<K, Cell<V>>, after: map<K, Cell<V>>, capacity: int, k: K)
    requires LruFlushed(before, after, capacity) && capacity >= 1
    requires k in before
    requires forall j :: j in before && j != k ==> before[j].stamp < before[k].stamp
    ensures k in after && after[k] == before[k]
  {
    assert Recent(before, before[k].stamp) == {k};
  }

  /** `HashEntry`: one key with its value and last touch time. */
  class HashEntry<K(==), V> {
    const key: K
    var value: V
    var lastTouchTimestamp: int
    /** The bucket the entry was created in. */
    const parent: SameHashValueMap<K, V>

    /** Puts itself into `parent` under `key`, then touches itself. */
    constructor (parent: SameHashValueMap<K, V>, key: K, value: V, now: int)
      modifies parent
      ensures this.parent == parent && this.key == key && this.value == value
      ensures lastTouchTimestamp == now
      ensures parent.entries == old(parent.entries)[key := this]
      ensures parent.Exact()
    {
      this.parent := parent;
      this.key := key;
      this.value := value;
      new;
      parent.Put(key, this);
      Touch(now);
    }

    /** `touch`: stamps the entry and lets the bucket recompute its oldest time. */
    method Touch(now: int)
      modifies this, parent
      ensures lastTouchTimestamp == now && value == old(value)
      ensures parent.entries == old(parent.entries)
      ensures parent.Exact()
    {
      lastTouchTimestamp := now;
      parent.Touch();
    }

    /** `setValue`: replaces the value, returns the previous one, keeps the time. */
    method SetValue(newValue: V) returns (previous: V)
      modifies this
      ensures value == newValue && previous == old(value)
      ensures lastTouchTimestamp == old(lastTouchTimestamp)
    {
      previous := value;
      value := newValue;
    }
  }

  /**
   * `SameHashValueMap`: a bucket, keyed like a `HashMap`, remembering the
   * hash of the key that created it and the oldest touch time of its entries.
   */
  class SameHashValueMap<K(==), V> {
    const hashCode: int32
    var entries: map<K, HashEntry<K, V>>
    var oldestTouchTimestamp: int

    constructor (hashCode: int32)
      ensures this.hashCode == hashCode && entries == map[] && oldestTouchTimestamp == 0
    {
      this.hashCode := hashCode;
      entries := map[];
      oldestTouchTimestamp := 0;
    }

    /** The cached time is no later than any entry's touch time. */
    ghost predicate LowerBound()
      reads this, entries.Values
    {
      forall k :: k in entries ==> oldestTouchTimestamp <= entries[k].lastTouchTimestamp
    }

    /** The cached time is the oldest touch time of the entries, 0 when there are none. */
    ghost predicate Exact()
      reads this, entries.Values
    {
      && LowerBound()
      && (entries == map[] ==> oldestTouchTimestamp == 0)
      && (entries != map[] ==> exists k :: k in entries && entries[k].lastTouchTimestamp == oldestTouchTimestamp)
    }

    /** `get`: a key whose hash differs from the creating key's hash is never found. */
    function Get(key: Option<K>, hash: K -> int32): (e: HashEntry?<K, V>)
      reads this
      ensures e != null <==> CleanHashCode(key, hash) == hashCode && key.Some? && key.value in entries
      ensures e != null ==> e == entries[key.value]
    {
      if hashCode != CleanHashCode(key, hash) then null
      else if key.Some? && key.value in entries then entries[key.value]
      else null
    }

    /** `put` of the underlying `HashMap`. */
    method Put(key: K, e: HashEntry<K, V>)
      modifies this
      ensures entries == old(entries)[key := e]
      ensures oldestTouchTimestamp == old(oldestTouchTimestamp)
    {
      entries := entries[key := e];
    }

    /** `remove` of the underlying `HashMap`: no hash check, no recomputation. */
    method Remove(key: K)
      modifies this
      ensures entries == old(entries) - {key}
      ensures oldestTouchTimestamp == old(oldestTouchTimestamp)
    {
      entries := entries - {key};
    }

    /** `touch`: recomputes the oldest touch time (the stream's `min`, or 0). */
    method Touch()
      modifies this
      ensures entries == old(entries)
      ensures Exact()
    {
      var oldest := 0;
      var rest := entries.Keys;
      while rest != {}
        invariant rest <= entries.Keys
        invariant rest == entries.Keys ==> oldest == 0
        invariant rest != entries.Keys ==>
          && (exists k :: k in entries && k !in rest && entries[k].lastTouchTimestamp == oldest)
          && (forall k :: k in entries && k !in rest ==> oldest <= entries[k].lastTouchTimestamp)
        decreases rest
      {
        var k :| k in rest;
        var t := entries[k].lastTouchTimestamp;
        if rest == entries.Keys || t < oldest {
          oldest := t;
        }
        rest := rest - {k};
      }
      oldestTouchTimestamp := oldest;
    }
  }


  /** `SLRUMap`: the array of buckets, the global map and the eviction loop. */
  class SLRUMap<K(==), V> {
    const capacity: int
    const hash: K -> int32
    const hashLookup: array<SameHashValueMap?<K, V>>
    var data: map<K, HashEntry<K, V>>

    /** The objects the map is made of. */
    ghost var Repr: set<object>

    /** The slot of a (non-null) key. */
    function Slot(k: K): int
      requires hashLookup.Length > 0
    {
      KeyIndex(Some(k), hash, hashLookup.Length)
    }

    /**
     * Bucket `b` in slot `i`: it was created for a key of this slot, it is
     * not empty, it holds exactly the `data` entries of its keys, all of
     * which belong to slot `i`, and its cached time is a lower bound.
     */
    ghost predicate BucketAt(b: SameHashValueMap<K, V>, i: int)
      requires hashLookup.Length > 0
      reads this, b, b.entries.Values
    {
      && HashIndex(b.hashCode, hashLookup.Length) == i
      && b.entries != map[]
      && (forall k :: k in b.entries ==> k in data && data[k] == b.entries[k] && Slot(k) == i)
      && b.LowerBound()
    }

    /** Slot `i` is empty or holds a well-formed bucket. */
    ghost predicate SlotOk(i: int)
      requires 0 <= i < hashLookup.Length
      reads this, hashLookup, Repr
    {
      hashLookup[i] != null ==>
        hashLookup[i] in Repr && hashLookup[i].entries.Values <= Repr && BucketAt(hashLookup[i], i)
    }

    /** The entry of held key `k` sits in the bucket of the key's slot. */
    ghost predicate KeyOk(k: K)
      requires hashLookup.Length > 0 && k in data
      reads this, hashLookup, Repr
    {
      && data[k] in Repr && data[k].key == k
      && data[k].parent == hashLookup[Slot(k)] && data[k].parent in Repr
      && k in data[k].parent.entries
    }

    ghost predicate Valid()
      reads this, Repr
    {
      && this in Repr && hashLookup in Repr
      && hashLookup.Length > 0 && capacity >= 1
      && (forall i :: 0 <= i < hashLookup.Length ==> SlotOk(i))
      && (forall k {:trigger KeyOk(k)} :: k in data ==> KeyOk(k))
    }

    /** The map as a caller sees it: each key with its value and touch time. */
    ghost function Model(): map<K, Cell<V>>
      reads this, data.Values
    {
      map k | k in data :: Cell(data[k].value, data[k].lastTouchTimestamp)
    }

    /** Every held entry was touched before `now`: the clock only moves forward. */
    ghost predicate Before(now: int)
      reads this, data.Values
    {
      forall k :: k in data ==> data[k].lastTouchTimestamp < now
    }

    /** `get` can reach `k`: the key is held and its bucket was created for its hash. */
    ghost predicate Findable(k: K)
      reads this
    {
      k in data && data[k].parent.hashCode == hash(k)
    }

    /** The slots whose cached oldest time is stale (only `remove` leaves one). */
    ghost function StaleSlots(): set<int>
      requires Valid()
      reads this, Repr
    {
      set i | 0 <= i < hashLookup.Length && SlotOk(i) && hashLookup[i] != null && !hashLookup[i].Exact()
    }

    ghost function Buckets(): set<SameHashValueMap<K, V>>
      reads hashLookup
    {
      set i | 0 <= i < hashLookup.Length && hashLookup[i] != null :: hashLookup[i]
    }

    /**
     * A change confined to slot `index` (its bucket, the entries that bucket
     * held and the keys of that slot) leaves every other slot and every other
     * key well-formed.
     */
    twostate lemma OtherSlotsKept(index: int)
      requires old(Valid()) && hashLookup.Length > 0 && 0 <= index < hashLookup.Length
      requires old(Repr) <= Repr
      requires forall i :: 0 <= i < hashLookup.Length && i != index ==> hashLookup[i] == old(hashLookup[i])
      requires forall k :: Slot(k) != index ==> (k in data <==> k in old(data))
      requires forall k :: k in data && Slot(k) != index ==> data[k] == old(data[k])
      requires forall o :: o in old(Repr) ==>
                 || o == this || o == hashLookup || o == old(hashLookup[index])
                 || (old(hashLookup[index]) != null && o in old(hashLookup[index].entries.Values))
                 || unchanged(o)
      ensures forall i :: 0 <= i < hashLookup.Length && i != index ==> SlotOk(i)
      ensures forall k :: k in data && Slot(k) != index ==> KeyOk(k)
    {
      var b := old(hashLookup[index]);
      if b != null {
        assert old(SlotOk(index));
        forall e | e in old(b.entries.Values)
          ensures Slot(e.key) == index
        {
          var j :| j in old(b.entries) && old(b.entries[j]) == e;
          assert old(KeyOk(j));
        }
      }
      forall i | 0 <= i < hashLookup.Length && i != index
        ensures SlotOk(i)
      {
        assert old(SlotOk(i));
        var c := hashLookup[i];
        if c != null {
          assert old(BucketAt(c, i));
          assert c != b by {
            if b != null {
              assert old(SlotOk(index));
            }
          }
          forall j | j in c.entries
            ensures j in data && data[j] == c.entries[j] && unchanged(c.entries[j])
          {
            assert old(KeyOk(j));
          }
        }
      }
      forall k | k in data && Slot(k) != index
        ensures KeyOk(k)
      {
        assert old(KeyOk(k));
        assert old(SlotOk(Slot(k)));
        assert old(SlotOk(index));
      }
    }

    /**
     * Every cell the model keeps under the same entry object is unchanged
     * when nothing but the map itself, its array and one bucket changed.
     */
    twostate lemma KeptCells(index: int)
      requires old(Valid()) && 0 <= index < hashLookup.Length
      requires forall o :: o in old(Repr) ==> o == this || o == hashLookup || o == old(hashLookup[index]) || unchanged(o)
      ensures forall j :: j in data && j in old(data) && data[j] == old(data[j]) ==> j in Model() && Model()[j] == old(Model())[j]
    {
      forall j | j in data && j in old(data) && data[j] == old(data[j])
        ensures j in Model() && Model()[j] == old(Model())[j]
      {
        assert old(KeyOk(j));
      }
    }

    /** Slots other than `index` keep whether their cached time is stale. */
    twostate lemma StaleKept(index: int)
      requires old(Valid()) && Valid() && 0 <= index < hashLookup.Length
      requires forall i :: 0 <= i < hashLookup.Length && i != index ==> hashLookup[i] == old(hashLookup[i])
      requires forall o :: o in old(Repr) ==> o == this || o == hashLookup || o == old(hashLookup[index]) || unchanged(o)
      ensures forall i :: 0 <= i < hashLookup.Length && i != index ==> (i in StaleSlots() <==> i in old(StaleSlots()))
    {
      forall i | 0 <= i < hashLookup.Length && i != index
        ensures i in StaleSlots() <==> i in old(StaleSlots())
      {
        assert old(SlotOk(i)) && SlotOk(i);
        var c := hashLookup[i];
        if c != null {
          assert old(BucketAt(c, i));
          if old(hashLookup[index]) != null {
            assert old(SlotOk(index));
          }
          forall j | j in c.entries
            ensures unchanged(c.entries[j])
          {
            assert c.entries[j] in old(c.entries.Values);
          }
        }
      }
    }

    /**
     * Keys leave slot `index` only (from its bucket and from `data` alike),
     * the bucket is dropped from the slot exactly when it became empty, and
     * its cached time is either kept or made exact: slot `index` and its keys
     * stay well-formed.
     */
    twostate lemma ShrunkSlot(index: int)
      requires old(Valid()) && 0 <= index < hashLookup.Length
      requires Repr == old(Repr)
      requires forall o :: o in old(Repr) ==> o == this || o == hashLookup || o == old(hashLookup[index]) || unchanged(o)
      requires old(hashLookup[index]) != null
      requires data.Keys <= old(data).Keys && (forall j :: j in data ==> data[j] == old(data[j]))
      requires old(hashLookup[index]).entries == old(hashLookup[index].entries) - (old(data).Keys - data.Keys)
      requires hashLookup[index] == (if old(hashLookup[index]).entries == map[] then null else old(hashLookup[index]))
      requires || old(hashLookup[index]).oldestTouchTimestamp == old(hashLookup[index].oldestTouchTimestamp)
               || old(hashLookup[index]).Exact()
      ensures SlotOk(index)
      ensures forall j :: j in data && Slot(j) == index ==> KeyOk(j)
    {
      var b := old(hashLookup[index]);
      assert old(SlotOk(index));
      if hashLookup[index] != null {
        forall j | j in b.entries
          ensures j in data && data[j] == b.entries[j] && Slot(j) == index
          ensures b.entries[j].lastTouchTimestamp == old(b.entries[j].lastTouchTimestamp)
        {
          var e := b.entries[j];
          assert e == old(b.entries[j]) && e in old(b.entries.Values);
        }
      }
      forall j | j in data && Slot(j) == index
        ensures KeyOk(j)
      {
        assert old(KeyOk(j));
        assert j in b.entries;
      }
    }

    /**
     * Keys leave slot `index` only, as `ShrunkSlot` describes: the map stays
     * valid and the model loses just those keys.
     */
    twostate lemma Shrunk(index: int)
      requires old(Valid()) && 0 <= index < hashLookup.Length
      requires Repr == old(Repr)
      requires forall i :: 0 <= i < hashLookup.Length && i != index ==> hashLookup[i] == old(hashLookup[i])
      requires forall o :: o in old(Repr) ==> o == this || o == hashLookup || o == old(hashLookup[index]) || unchanged(o)
      requires old(hashLookup[index]) != null
      requires data.Keys <= old(data).Keys && (forall j :: j in data ==> data[j] == old(data[j]))
      requires forall j :: j in old(data) && j !in data ==> Slot(j) == index
      requires old(hashLookup[index]).entries == old(hashLookup[index].entries) - (old(data).Keys - data.Keys)
      requires hashLookup[index] == (if old(hashLookup[index]).entries == map[] then null else old(hashLookup[index]))
      requires || old(hashLookup[index]).oldestTouchTimestamp == old(hashLookup[index].oldestTouchTimestamp)
               || old(hashLookup[index]).Exact()
      ensures Valid()
      ensures Model() == old(Model()) - (old(data).Keys - data.Keys)
    {
      OtherSlotsKept(index);
      ShrunkSlot(index);
      ShrunkModel(index);
    }

    /**
     * An eviction pass, as `Shrunk` describes it, that leaves the bucket of
     * slot `index` dropped or with an exact cached time: besides what `Shrunk`
     * states, no bucket is added and slot `index` is no longer stale.
     */
    twostate lemma Evicted(index: int, new remove: set<K>)
      requires old(Valid()) && 0 <= index < hashLookup.Length
      requires Repr == old(Repr)
      requires forall i :: 0 <= i < hashLookup.Length && i != index ==> hashLookup[i] == old(hashLookup[i])
      requires forall o :: o in old(Repr) ==> o == this || o == hashLookup || o == old(hashLookup[index]) || unchanged(o)
      requires old(hashLookup[index]) != null
      requires remove <= old(hashLookup[index].entries).Keys
      requires data == old(data) - remove
      requires old(hashLookup[index]).entries == old(hashLookup[index].entries) - remove
      requires hashLookup[index] == (if old(hashLookup[index]).entries == map[] then null else old(hashLookup[index]))
      requires hashLookup[index] != null ==> hashLookup[index].Exact()
      requires hashLookup[index] == null ==>
        old(hashLookup[index]).oldestTouchTimestamp == old(hashLookup[index].oldestTouchTimestamp)
      ensures Valid() && Buckets() <= old(Buckets())
      ensures Model() == old(Model()) - remove
      ensures StaleSlots() == old(StaleSlots()) - {index}
    {
      assert old(SlotOk(index));
      assert old(data).Keys - data.Keys == remove;
      Shrunk(index);
      StaleKept(index);
      BucketsKept(index);
      assert index !in StaleSlots() by {
        assert SlotOk(index);
      }
    }

    /** Keys that leave `data` leave the model; every other key keeps its cell. */
    twostate lemma ShrunkModel(index: int)
      requires old(Valid()) && 0 <= index < hashLookup.Length
      requires forall o :: o in old(Repr) ==> o == this || o == hashLookup || o == old(hashLookup[index]) || unchanged(o)
      requires data.Keys <= old(data).Keys && (forall j :: j in data ==> data[j] == old(data[j]))
      ensures Model() == old(Model()) - (old(data).Keys - data.Keys)
    {
      KeptCells(index);
      assert Model().Keys == data.Keys;
    }

    /** Emptying slot `index` or keeping its bucket adds no bucket. */
    twostate lemma BucketsKept(index: int)
      requires 0 <= index < hashLookup.Length
      requires forall i :: 0 <= i < hashLookup.Length && i != index ==> hashLookup[i] == old(hashLookup[i])
      requires hashLookup[index] == null || hashLookup[index] == old(hashLookup[index])
      ensures Buckets() <= old(Buckets())
    {
    }

    /** Adding `key` to `data` changes the model only at `key`. */
    twostate lemma Inserted(new key: K)
      requires old(Valid()) && key in data
      requires forall j :: j in data && j != key ==> j in old(data) && j in Model() && Model()[j] == old(Model())[j]
      requires data.Keys == old(data).Keys + {key}
      ensures Model() == old(Model())[key := Cell(data[key].value, data[key].lastTouchTimestamp)]
    {
      assert old(Model()).Keys == old(data).Keys;
      assert Model().Keys == data.Keys;
      Updated(old(Model()), Model(), key, Cell(data[key].value, data[key].lastTouchTimestamp));
    }

    /** When only the entry of `k` and its bucket changed, the model changes only at `k`. */
    twostate lemma Touched(new k: K)
      requires old(Valid()) && data == old(data) && k in data
      requires forall o :: o in old(Repr) ==> o == data[k] || o == data[k].parent || unchanged(o)
      ensures Model() == old(Model())[k := Cell(data[k].value, data[k].lastTouchTimestamp)]
    {
      forall j | j in data && j != k
        ensures j in old(Model()) && Model()[j] == old(Model())[j]
      {
        assert old(KeyOk(j)) && old(KeyOk(k));
      }
      assert Model().Keys == data.Keys && old(Model()).Keys == old(data).Keys;
      Updated(old(Model()), Model(), k, Cell(data[k].value, data[k].lastTouchTimestamp));
    }

    /**
     * A new entry for `key`, touched last and put into the existing bucket of
     * slot `index` and into `data`, keeps the map valid and changes the model
     * only at `key`.
     */
    twostate lemma AddedToBucket(new key: K, index: int)
      requires old(Valid()) && 0 <= index < hashLookup.Length && index == Slot(key)
      requires old(hashLookup[index]) != null && unchanged(hashLookup)
      requires key in data && data == old(data)[key := data[key]] && Repr == old(Repr) + {data[key]}
      requires data[key] !in old(Repr) && data[key].key == key && data[key].parent == hashLookup[index]
      requires hashLookup[index].entries == old(hashLookup[index].entries)[key := data[key]]
      requires hashLookup[index].Exact()
      requires forall o :: o in old(Repr) ==> o == this || o == hashLookup[index] || unchanged(o)
      ensures Valid()
      ensures Model() == old(Model())[key := Cell(data[key].value, data[key].lastTouchTimestamp)]
    {
      assert old(SlotOk(index));
      assert NewAt(index, key);
      Grown(index);
      Inserted(key);
    }

    /** Entry `data[j]` is the new entry of `j`, held by the bucket of slot `index`. */
    ghost predicate NewAt(index: int, j: K)
      requires 0 <= index < hashLookup.Length
      reads this, hashLookup, hashLookup[index]
    {
      && hashLookup[index] != null
      && j in data && j in hashLookup[index].entries && hashLookup[index].entries[j] == data[j]
      && data[j] in Repr && data[j].key == j && data[j].parent == hashLookup[index]
      && Slot(j) == index
    }

    /**
     * Slot `index` gets (or keeps) a bucket created for a key of that slot,
     * whose cached time is exact; it keeps its old entries and may gain or
     * replace entries that `data` gains or replaces alike. The map stays
     * valid and every untouched key keeps its cell.
     */
    twostate lemma Grown(index: int)
      requires old(Valid()) && 0 <= index < hashLookup.Length
      requires old(Repr) <= Repr
      requires forall i :: 0 <= i < hashLookup.Length && i != index ==> hashLookup[i] == old(hashLookup[i])
      requires forall o :: o in old(Repr) ==> o == this || o == hashLookup || o == old(hashLookup[index]) || unchanged(o)
      requires hashLookup[index] != null && (old(hashLookup[index]) == null || old(hashLookup[index]) == hashLookup[index])
      requires hashLookup[index] in Repr && hashLookup[index].entries.Values <= Repr
      requires HashIndex(hashLookup[index].hashCode, hashLookup.Length) == index
      requires hashLookup[index].entries != map[] && hashLookup[index].Exact()
      requires old(data).Keys <= data.Keys
      requires forall j :: j in data ==> (j in old(data) && data[j] == old(data[j])) || NewAt(index, j)
      requires old(hashLookup[index]) != null ==> old(hashLookup[index].entries).Keys <= hashLookup[index].entries.Keys
      requires forall j :: j in hashLookup[index].entries ==>
        || NewAt(index, j)
        || (old(hashLookup[index]) != null && j in old(hashLookup[index].entries) &&
            hashLookup[index].entries[j] == old(hashLookup[index].entries[j]))
      ensures Valid()
      ensures forall j :: j in data && j in old(data) && data[j] == old(data[j]) ==> j in Model() && Model()[j] == old(Model())[j]
    {
      OtherSlotsKept(index);
      GrownSlot(index);
      KeptCells(index);
    }

    /** Slot `index` and its keys stay well-formed under the change `Grown` describes. */
    twostate lemma GrownSlot(index: int)
      requires old(Valid()) && 0 <= index < hashLookup.Length
      requires old(Repr) <= Repr
      requires hashLookup[index] != null && (old(hashLookup[index]) == null || old(hashLookup[index]) == hashLookup[index])
      requires hashLookup[index] in Repr && hashLookup[index].entries.Values <= Repr
      requires HashIndex(hashLookup[index].hashCode, hashLookup.Length) == index
      requires hashLookup[index].entries != map[] && hashLookup[index].Exact()
      requires old(data).Keys <= data.Keys
      requires forall j :: j in data ==> (j in old(data) && data[j] == old(data[j])) || NewAt(index, j)
      requires old(hashLookup[index]) != null ==> old(hashLookup[index].entries).Keys <= hashLookup[index].entries.Keys
      requires forall j :: j in hashLookup[index].entries ==>
        || NewAt(index, j)
        || (old(hashLookup[index]) != null && j in old(hashLookup[index].entries) &&
            hashLookup[index].entries[j] == old(hashLookup[index].entries[j]))
      ensures SlotOk(index)
      ensures forall j :: j in data && Slot(j) == index ==> KeyOk(j)
    {
      var b := hashLookup[index];
      var created := old(hashLookup[index]) == null;
      forall j | j in old(data)
        ensures created ==> Slot(j) != index
      {
        assert old(KeyOk(j));
      }
      if !created {
        assert old(SlotOk(index));
      }
      forall j | j in b.entries
        ensures j in data && data[j] == b.entries[j] && Slot(j) == index
      {
        if !created && !NewAt(index, j) {
          assert old(BucketAt(b, index));
        }
      }
      forall j | j in data && Slot(j) == index
        ensures KeyOk(j)
      {
        if !created && !NewAt(index, j) {
          assert old(KeyOk(j));
        }
      }
    }

    /**
     * Only entries of the bucket in slot `index` changed, its key map did not,
     * and its cached time is exact or no touch time moved: the map stays
     * valid, every key still names its own entry, and an unchanged entry
     * keeps its cell.
     */
    twostate lemma EntryChanged(index: int)
      requires old(Valid()) && 0 <= index < hashLookup.Length
      requires unchanged(this) && unchanged(hashLookup)
      requires old(hashLookup[index]) != null
      requires hashLookup[index].entries == old(hashLookup[index].entries)
      requires || hashLookup[index].Exact()
               || (&& hashLookup[index].oldestTouchTimestamp == old(hashLookup[index].oldestTouchTimestamp)
                   && forall e :: e in old(hashLookup[index].entries.Values) ==> e.lastTouchTimestamp == old(e.lastTouchTimestamp))
      requires forall o :: o in old(Repr) ==> o == old(hashLookup[index]) || o in old(hashLookup[index].entries.Values) || unchanged(o)
      ensures Valid()
      ensures forall j :: j in data ==> j in Model() && data[j].key == j
      ensures forall j :: j in data && unchanged(data[j]) ==> Model()[j] == old(Model())[j]
    {
      OtherSlotsKept(index);
      assert old(SlotOk(index));
      assert SlotOk(index);
      forall j | j in data
        ensures data[j].key == j
      {
        assert old(KeyOk(j));
      }
      forall j | j in data && Slot(j) == index
        ensures KeyOk(j)
      {
        assert old(KeyOk(j));
      }
    }

    /** `SLRUMap(capacity, loadFactor)`: an empty map over an array of empty slots. */
    constructor (capacity: int, loadFactor: real, hash: K -> int32)
      requires loadFactor > 0.0 && Sizing.DividedTableLength(capacity, loadFactor) >= 1
      ensures Valid() && fresh(Repr)
      ensures this.capacity == capacity && this.hash == hash
      ensures hashLookup.Length == Sizing.DividedTableLength(capacity, loadFactor)
      ensures forall i :: 0 <= i < hashLookup.Length ==> hashLookup[i] == null
      ensures Model() == map[]
    {
      Sizing.UsableTableNeedsCapacity(capacity, loadFactor);
      this.capacity := capacity;
      this.hash := hash;
      hashLookup := new SameHashValueMap?<K, V>[Sizing.DividedTableLength(capacity, loadFactor)](_ => null);
      data := map[];
      new;
      Repr := {this, hashLookup};
    }

    /** `size`: the number of keys held, findable or not. */
    function Size(): (n: nat)
      reads this, data.Values
      ensures n == |Model()|
    {
      assert Model().Keys == data.Keys;
      |data|
    }

    /** `isEmpty` */
    function IsEmpty(): (e: bool)
      reads this, data.Values
      ensures e <==> Model() == map[]
    {
      assert Model().Keys == data.Keys;
      |data| == 0
    }

    /** `containsKey`: asks `data`, so a held but unfindable key is reported present. */
    function ContainsKey(key: Option<K>): (b: bool)
      reads this, data.Values
      ensures b <==> key.Some? && key.value in Model()
    {
      key.Some? && key.value in data
    }

    /** `findHashEntry`: the entry `get` reaches for `key`, if any. */
    method FindHashEntry(key: Option<K>) returns (e: HashEntry?<K, V>)
      requires Valid()
      ensures e != null <==> key.Some? && Findable(key.value)
      ensures e != null ==> e == data[key.value]
    {
      var index := KeyIndex(key, hash, hashLookup.Length);
      var sameHashValueMap := hashLookup[index];
      if key.Some? && key.value in data {
        assert KeyOk(key.value);
      }
      if sameHashValueMap != null {
        assert SlotOk(index);
        return sameHashValueMap.Get(key, hash);
      }
      return null;
    }

    /**
     * `get`: a hit touches the entry (so it becomes the most recently touched
     * one and its bucket's oldest time is recomputed) and returns its value;
     * a miss changes nothing.
     */
    method Get(key: Option<K>, now: int) returns (r: Option<V>)
      requires Valid() && Before(now)
      modifies Repr
      ensures Valid() && Repr == old(Repr) && data == old(data)
      ensures key.Some? && old(Findable(key.value)) ==>
        && r == Some(old(Model())[key.value].value)
        && Model() == old(Model())[key.value := Cell(r.value, now)]
        && (forall j :: j in Model() && j != key.value ==> Model()[j].stamp < now)
        && data[key.value].parent.Exact()
      ensures !(key.Some? && old(Findable(key.value))) ==> r == None && unchanged(Repr)
    {
      var hashEntry := FindHashEntry(key);
      if hashEntry == null {
        return None;
      }
      ghost var k := key.value;
      ghost var index := Slot(k);
      assert KeyOk(k) && SlotOk(index);
      hashEntry.Touch(now);
      EntryChanged(index);
      Touched(k);
      return Some(hashEntry.value);
    }

    /** Every bucket in the array belongs to the map's objects. */
    lemma BucketsInRepr()
      requires Valid()
      ensures Buckets() <= Repr
    {
      forall c | c in Buckets()
        ensures c in Repr
      {
        var i :| 0 <= i < hashLookup.Length && hashLookup[i] == c;
        assert SlotOk(i);
      }
    }

    /**
     * `put`: a key `get` can reach gets its value replaced, keeping its touch
     * time; any other key gets a fresh entry touched at `now` (in a new bucket
     * when the slot is empty, else in the slot's bucket, whatever hash created
     * it), then the map is flushed to its capacity, which never evicts the
     * new entry.
     */
    method Put(key: K, value: V, now: int) returns (r: Option<V>)
      requires Valid() && Before(now)
      modifies Repr
      ensures Valid()
      ensures fresh(Repr - old(Repr))
      ensures Before(now + 1)
      ensures old(Findable(key)) ==> r == Some(old(Model())[key].value)
      ensures old(Findable(key)) ==> Model() == old(Model())[key := Cell(value, old(Model())[key].stamp)]
      ensures old(Findable(key)) ==> Findable(key)
      ensures !old(Findable(key)) ==> r == None
      ensures !old(Findable(key)) ==> LruFlushed(old(Model())[key := Cell(value, now)], Model(), capacity)
      ensures !old(Findable(key)) ==> key in Model() && Model()[key] == Cell(value, now)
      ensures !old(Findable(key)) ==>
        (Findable(key) <==> old(hashLookup[Slot(key)]) == null || old(hashLookup[Slot(key)]).hashCode == hash(key))
      ensures forall j :: j in data && j != key ==> j in old(data) && data[j] == old(data[j])
    {
      var index := KeyIndex(Some(key), hash, hashLookup.Length);
      var sameHashValueMap := hashLookup[index];
      assert key in data ==> KeyOk(key);
      if sameHashValueMap == null {
        var hashEntry := PutInNewBucket(key, value, now, index);
        BucketsInRepr();
        Flushed(key, value, now);
        return None;
      }
      assert SlotOk(index);
      var hashEntry := sameHashValueMap.Get(Some(key), hash);
      if hashEntry == null {
        hashEntry := PutInBucket(key, value, now, index);
        BucketsInRepr();
        Flushed(key, value, now);
        return None;
      }
      var oldValue := hashEntry.value;
      var _ := hashEntry.SetValue(value);
      EntryChanged(index);
      Touched(key);
      return Some(oldValue);
    }

    /**
     * The branch of `put` for an empty slot: a bucket created for the key's
     * hash, holding a new entry touched at `now`, goes into the slot.
     */
    method PutInNewBucket(key: K, value: V, now: int, index: int) returns (hashEntry: HashEntry<K, V>)
      requires Valid() && index == Slot(key) && hashLookup[index] == null
      modifies this, hashLookup
      ensures Valid() && old(Repr) <= Repr && fresh(Repr - old(Repr))
      ensures fresh(hashEntry) && data == old(data)[key := hashEntry]
      ensures hashEntry.value == value && hashEntry.lastTouchTimestamp == now
      ensures hashEntry.parent.hashCode == hash(key)
      ensures Model() == old(Model())[key := Cell(value, now)]
    {
      var sameHashValueMap := new SameHashValueMap(hash(key));
      hashEntry := new HashEntry(sameHashValueMap, key, value, now);
      assert sameHashValueMap.entries == map[key := hashEntry];
      assert sameHashValueMap.entries.Values == {hashEntry} by {
        assert key in sameHashValueMap.entries;
      }
      data := data[key := hashEntry];
      hashLookup[index] := sameHashValueMap;
      Repr := Repr + {sameHashValueMap, hashEntry};
      assert fresh(Repr - old(Repr));
      Grown(index);
      Inserted(key);
    }

    /**
     * The branch of `put` for a slot whose bucket does not find the key: a
     * new entry touched at `now` goes into that bucket, under the key, even
     * if the bucket was created for another hash.
     */
    method PutInBucket(key: K, value: V, now: int, index: int) returns (hashEntry: HashEntry<K, V>)
      requires Valid() && index == Slot(key) && hashLookup[index] != null
      modifies this, hashLookup[index]
      ensures Valid() && old(Repr) <= Repr && fresh(Repr - old(Repr))
      ensures fresh(hashEntry) && data == old(data)[key := hashEntry]
      ensures hashEntry.value == value && hashEntry.lastTouchTimestamp == now
      ensures hashEntry.parent == hashLookup[index] == old(hashLookup[index])
      ensures Model() == old(Model())[key := Cell(value, now)]
    {
      var sameHashValueMap := hashLookup[index];
      assert SlotOk(index);
      hashEntry := new HashEntry(sameHashValueMap, key, value, now);
      assert data == old(data) && Repr == old(Repr);
      data, Repr := data[key := hashEntry], Repr + {hashEntry};
      assert data == old(data)[key := hashEntry];
      assert fresh(Repr - old(Repr));
      AddedToBucket(key, index);
    }

    /**
     * The tail of an inserting `put`: with the new entry for `key` in place
     * and touched at `now`, flush and show the new entry survives.
     */
    method Flushed(key: K, value: V, now: int)
      requires Valid() && key in data
      requires data[key].value == value && data[key].lastTouchTimestamp == now
      requires forall j :: j in data && j != key ==> data[j].lastTouchTimestamp < now
      modifies this, hashLookup, Buckets()
      ensures Valid() && Repr == old(Repr)
      ensures LruFlushed(old(Model()), Model(), capacity)
      ensures key in data && data[key] == old(data[key]) && Model()[key] == Cell(value, now)
      ensures forall j :: j in data ==> data[j].lastTouchTimestamp <= now
      ensures forall j :: j in data ==> j in old(data) && data[j] == old(data[j])
    {
      ghost var m1 := Model();
      var _ := FlushLRU();
      NewestSurvives(m1, Model(), capacity, key);
    }

    /**
     * `remove`: only a key `get` can reach is removed, from its bucket and
     * from `data`; a bucket left empty is dropped from its slot. The bucket's
     * cached oldest time is not recomputed.
     */
    method Remove(key: Option<K>) returns (r: Option<V>)
      requires Valid()
      modifies Repr
      ensures Valid() && Repr == old(Repr)
      ensures key.Some? && old(Findable(key.value)) ==>
        && r == Some(old(Model())[key.value].value)
        && Model() == old(Model()) - {key.value}
      ensures !(key.Some? && old(Findable(key.value))) ==> r == None && unchanged(Repr)
      ensures forall j :: j in data ==> j in old(data) && data[j] == old(data[j])
      ensures forall i :: 0 <= i < hashLookup.Length && hashLookup[i] != null ==>
        hashLookup[i] == old(hashLookup[i]) && hashLookup[i].oldestTouchTimestamp == old(hashLookup[i].oldestTouchTimestamp)
    {
      var index := KeyIndex(key, hash, hashLookup.Length);
      var sameHashValueMap := hashLookup[index];
      if key.Some? && key.value in data {
        assert KeyOk(key.value);
      }
      if sameHashValueMap == null {
        return None;
      }
      assert SlotOk(index);
      var hashEntry := sameHashValueMap.Get(key, hash);
      if hashEntry == null {
        return None;
      }
      RemoveFound(index, key.value);
      return Some(hashEntry.value);
    }

    /** The hit branch of `remove`: the key leaves its bucket and `data`; an emptied bucket leaves its slot. */
    method RemoveFound(index: int, k: K)
      requires Valid() && 0 <= index < hashLookup.Length && hashLookup[index] != null
      requires k in hashLookup[index].entries
      modifies this, hashLookup, hashLookup[index]
      ensures Valid() && Repr == old(Repr)
      ensures data == old(data) - {k} && Model() == old(Model()) - {k}
      ensures forall i :: 0 <= i < hashLookup.Length && hashLookup[i] != null ==>
        hashLookup[i] == old(hashLookup[i]) && hashLookup[i].oldestTouchTimestamp == old(hashLookup[i].oldestTouchTimestamp)
    {
      var sameHashValueMap := hashLookup[index];
      assert SlotOk(index);
      assert old(data).Keys - (data - {k}).Keys == {k};
      sameHashValueMap.Remove(k);
      data := data - {k};
      if sameHashValueMap.entries == map[] {
        hashLookup[index] := null;
      }
      Shrunk(index);
    }

    /** `clear`: empties `data` and every slot. */
    method Clear()
      requires Valid()
      modifies this, hashLookup
      ensures Valid() && fresh(Repr - old(Repr))
      ensures Model() == map[]
      ensures forall i :: 0 <= i < hashLookup.Length ==> hashLookup[i] == null
    {
      data := map[];
      forall i | 0 <= i < hashLookup.Length {
        hashLookup[i] := null;
      }
      Repr := {this, hashLookup};
    }

    /**
     * The bucket with the smallest cached time caches a time no later than
     * any held entry's; if none of its entries carries that time, the cached
     * time is stale.
     */
    lemma OldestFirst(at: int)
      requires Valid() && 0 <= at < hashLookup.Length && hashLookup[at] != null
      requires forall i :: 0 <= i < hashLookup.Length && hashLookup[i] != null ==>
        hashLookup[at].oldestTouchTimestamp <= hashLookup[i].oldestTouchTimestamp
      ensures forall k :: k in hashLookup[at].entries ==> k in data && data[k] == hashLookup[at].entries[k] && Slot(k) == at
      ensures forall s :: s in data ==> hashLookup[at].oldestTouchTimestamp <= data[s].lastTouchTimestamp
      ensures (forall k :: k in hashLookup[at].entries ==>
                 hashLookup[at].entries[k].lastTouchTimestamp != hashLookup[at].oldestTouchTimestamp)
              ==> at in StaleSlots()
    {
      assert SlotOk(at);
      forall s | s in data
        ensures hashLookup[at].oldestTouchTimestamp <= data[s].lastTouchTimestamp
      {
        assert KeyOk(s);
        assert SlotOk(Slot(s));
      }
    }

    /**
     * One eviction pass of `flushLRU` on the bucket with the smallest cached
     * time: removes its entries touched exactly at that time, then drops the
     * bucket if empty or recomputes its cached time. The removed entries are
     * the oldest of the whole map; when none matched, the cached time was
     * stale and is now exact.
     */
    method EvictOldest(oldest: SameHashValueMap<K, V>, ghost at: int, ghost m0: map<K, Cell<V>>) returns (ghost victims: set<K>)
      requires Valid() && 0 <= at < hashLookup.Length && hashLookup[at] == oldest
      requires forall i :: 0 <= i < hashLookup.Length && hashLookup[i] != null ==>
        oldest.oldestTouchTimestamp <= hashLookup[i].oldestTouchTimestamp
      requires forall k :: k in data ==> k in m0 && m0[k].stamp == data[k].lastTouchTimestamp
      modifies this, hashLookup, oldest
      ensures Valid() && Repr == old(Repr)
      ensures Buckets() <= old(Buckets())
      ensures victims <= old(data).Keys && data == old(data) - victims
      ensures victims == set k | k in old(oldest.entries) && old(oldest.entries[k].lastTouchTimestamp) == old(oldest.oldestTouchTimestamp)
      ensures forall v, s :: v in victims && s in old(data) ==> m0[v].stamp <= m0[s].stamp
      ensures victims == {} ==> at in old(StaleSlots()) && StaleSlots() == old(StaleSlots()) - {at}
    {
      assert SlotOk(at);
      OldestFirst(at);
      var oldestTouchTimestamp := oldest.oldestTouchTimestamp;
      var remove := set k | k in oldest.entries && oldest.entries[k].lastTouchTimestamp == oldestTouchTimestamp;
      forall v, s | v in remove && s in data
        ensures m0[v].stamp <= m0[s].stamp
      {
      }
      if remove == {} {
        forall k | k in oldest.entries
          ensures oldest.entries[k].lastTouchTimestamp != oldestTouchTimestamp
        {
          assert k !in remove;
        }
      }
      victims := remove;
      DropStamped(oldest, at, remove);
    }

    /**
     * The removal part of an eviction pass: the chosen keys leave the bucket
     * and `data`, then the bucket is dropped from its slot if empty, or
     * recomputes its cached time.
     */
    method DropStamped(oldest: SameHashValueMap<K, V>, ghost at: int, remove: set<K>)
      requires Valid() && 0 <= at < hashLookup.Length && hashLookup[at] == oldest
      requires remove <= oldest.entries.Keys
      modifies this, hashLookup, oldest
      ensures Valid() && Repr == old(Repr) && Buckets() <= old(Buckets())
      ensures data == old(data) - remove
      ensures StaleSlots() == old(StaleSlots()) - {at}
    {
      assert SlotOk(at);
      RemoveEntries(oldest, remove);
      assert data == old(data) - remove && Repr == old(Repr);
      if oldest.entries == map[] {
        assert HashIndex(oldest.hashCode, hashLookup.Length) == at;
        hashLookup[HashIndex(oldest.hashCode, hashLookup.Length)] := null;
        assert hashLookup[..] == old(hashLookup[..])[at := null];
      } else {
        oldest.Touch();
        assert hashLookup[..] == old(hashLookup[..]);
      }
      assert data == old(data) - remove && Repr == old(Repr);
      assert oldest.entries == old(oldest.entries) - remove;
      Evicted(at, remove);
    }

    /**
     * What a flush that started from entries `d0` holding cells `m0` keeps
     * true: `data` is what is left of `d0`, with the cells of `m0`, and no
     * key was evicted out of LRU order.
     */
    ghost predicate FlushProgress(m0: map<K, Cell<V>>, d0: map<K, HashEntry<K, V>>)
      reads this, data.Values
    {
      && (forall k :: k in data ==> k in d0 && data[k] == d0[k])
      && (forall k :: k in data ==> k in m0 && m0[k] == Cell(data[k].value, data[k].lastTouchTimestamp))
      && FlushedSoFar(m0, data.Keys, capacity)
    }

    /**
     * The body of the `flushLRU` loop: the scan for the first bucket, in slot
     * order, whose cached oldest time is the smallest, then one eviction pass
     * on it. A held key means some slot is not empty.
     */
    method FlushPass(ghost m0: map<K, Cell<V>>, ghost d0: map<K, HashEntry<K, V>>)
      requires Valid() && |data| > capacity && FlushProgress(m0, d0)
      modifies this, hashLookup, Buckets()
      ensures Valid() && Repr == old(Repr) && FlushProgress(m0, d0)
      ensures Buckets() <= old(Buckets())
      ensures |data| < old(|data|) || (data == old(data) && StaleSlots() < old(StaleSlots()))
    {
      ghost var k0 :| k0 in data;
      assert KeyOk(k0);
      var oldestSameHashValueMap: SameHashValueMap?<K, V> := null;
      ghost var at := 0;
      for i := 0 to hashLookup.Length
        invariant oldestSameHashValueMap == null <==> forall j :: 0 <= j < i ==> hashLookup[j] == null
        invariant oldestSameHashValueMap != null ==>
          && 0 <= at < i && hashLookup[at] == oldestSameHashValueMap
          && (forall j :: 0 <= j < i && hashLookup[j] != null ==>
                oldestSameHashValueMap.oldestTouchTimestamp <= hashLookup[j].oldestTouchTimestamp)
      {
        var sameHashValueMap := hashLookup[i];
        if sameHashValueMap == null {
          continue;
        }
        if oldestSameHashValueMap == null {
          oldestSameHashValueMap, at := sameHashValueMap, i;
        }
        if oldestSameHashValueMap.oldestTouchTimestamp > sameHashValueMap.oldestTouchTimestamp {
          oldestSameHashValueMap, at := sameHashValueMap, i;
        }
      }
      assert hashLookup[Slot(k0)] != null;
      EvictInOrder(oldestSameHashValueMap, at, m0, d0);
    }

    /**
     * The eviction pass of `flushLRU` seen against the whole flush: the keys
     * it drops were touched no later than any key left, so the flush stays in
     * LRU order, and it either drops a key or repairs a stale slot.
     */
    method EvictInOrder(oldest: SameHashValueMap<K, V>, ghost at: int, ghost m0: map<K, Cell<V>>, ghost d0: map<K, HashEntry<K, V>>)
      requires Valid() && |data| > capacity && FlushProgress(m0, d0)
      requires 0 <= at < hashLookup.Length && hashLookup[at] == oldest
      requires forall i :: 0 <= i < hashLookup.Length && hashLookup[i] != null ==>
        oldest.oldestTouchTimestamp <= hashLookup[i].oldestTouchTimestamp
      modifies this, hashLookup, oldest
      ensures Valid() && Repr == old(Repr) && FlushProgress(m0, d0)
      ensures Buckets() <= old(Buckets())
      ensures |data| < old(|data|) || (data == old(data) && StaleSlots() < old(StaleSlots()))
    {
      ghost var victims := EvictOldest(oldest, at, m0);
      FlushStep(m0, old(data).Keys, victims, capacity);
      assert data.Keys == old(data).Keys - victims;
      forall k | k in data
        ensures k in d0 && data[k] == d0[k]
        ensures k in m0 && m0[k] == Cell(data[k].value, data[k].lastTouchTimestamp)
      {
        assert k in old(data) && data[k] == old(data[k]);
        assert unchanged(data[k]);
      }
      Shrinks(old(data), data, victims);
      if victims == {} {
        assert StaleSlots() < old(StaleSlots());
      }
    }

    /** The removal loop of `flushLRU`: each key goes from the bucket and from `data`. */
    method RemoveEntries(oldest: SameHashValueMap<K, V>, remove: set<K>)
      modifies this, oldest
      ensures oldest.entries == old(oldest.entries) - remove
      ensures oldest.oldestTouchTimestamp == old(oldest.oldestTouchTimestamp)
      ensures data == old(data) - remove
      ensures Repr == old(Repr)
    {
      var rest := remove;
      while rest != {}
        invariant rest <= remove
        invariant oldest.entries == old(oldest.entries) - (remove - rest)
        invariant oldest.oldestTouchTimestamp == old(oldest.oldestTouchTimestamp)
        invariant data == old(data) - (remove - rest)
        invariant Repr == old(Repr)
        decreases rest
      {
        var k :| k in rest;
        oldest.Remove(k);
        data := data - {k};
        rest := rest - {k};
      }
    }

    /**
     * `flushLRU`: eviction passes until at most `capacity` keys are held; the
     * result counts the passes. What is left is an LRU flush of what was there.
     */
    method FlushLRU() returns (removed: int)
      requires Valid()
      modifies this, hashLookup, Buckets()
      ensures Valid() && Repr == old(Repr)
      ensures LruFlushed(old(Model()), Model(), capacity)
      ensures forall k :: k in data ==> k in old(data) && data[k] == old(data[k])
      ensures removed >= 0 && (removed == 0 <==> |old(data)| <= capacity)
    {
      ghost var m0 := Model();
      assert m0.Keys == data.Keys;
      removed := 0;
      while |data| > capacity
        invariant Valid() && Repr == old(Repr)
        invariant Buckets() <= old(Buckets())
        invariant FlushProgress(m0, old(data))
        invariant removed >= 0 && (removed == 0 ==> data == old(data))
        invariant removed > 0 ==> |old(data)| > capacity
        decreases |data|, StaleSlots()
      {
        FlushPass(m0, old(data));
        removed := removed + 1;
      }
      assert Model().Keys == data.Keys;
      if removed == 0 {
        assert Model() == m0;
      }
    }
  }
}
