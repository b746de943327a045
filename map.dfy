/**
 * The constructor of the hash map `Map<K, V>` of map/Map.h: an array of
 * MAP_INITIAL_CAPACITY pointers to freshly allocated buckets, each bucket an
 * empty array of key-value pairs with room for two.  The map has no insertion,
 * lookup or rehash; the model covers what its constructors do.
 */
module Maps {
  import opened DynamicArray

  const MAP_INITIAL_CAPACITY: nat := 10
  const BUCKET_DEFAULT_CAPACITY: nat := 2

  datatype MapPair<K, V> = MapPair(key: K, value: V)

  class MapBucket<K(0,==), V(0,==)> {
    const bucket: Array<MapPair<K, V>>

    /** An empty pair array that already has room for BUCKET_DEFAULT_CAPACITY pairs. */
    ghost predicate Ready()
      reads this, bucket, bucket.Repr
    {
      bucket.Valid() && bucket.Elements() == [] && bucket.capacity == BUCKET_DEFAULT_CAPACITY
    }

    /** map_bucket(): a default pair array, then Reserve(BUCKET_DEFAULT_CAPACITY). */
    constructor ()
      ensures Ready() && fresh(bucket.Repr)
      ensures bucket.capacityInc == CapacityIncrease
    {
      CapacityIncreaseGrows();
      var pairs := new Array<MapPair<K, V>>(CapacityIncrease);
      pairs.Reserve(BUCKET_DEFAULT_CAPACITY);
      bucket := pairs;
    }
  }

  /**
   * The bucket pointers are all set and distinct, each bucket is ready, and
   * each bucket's storage lies in `owned`.
   */
  ghost predicate BucketsReady<K(0), V(0)>(buckets: seq<MapBucket?<K, V>>, owned: set<object>)
    reads owned
  {
    (forall k :: 0 <= k < |buckets| ==>
       buckets[k] != null && buckets[k] in owned && buckets[k].bucket in owned &&
       buckets[k].bucket.Repr <= owned && buckets[k].Ready()) &&
    (forall k, l :: 0 <= k < l < |buckets| ==> buckets[k] != buckets[l])
  }

  /** The objects a bucket is made of: the bucket and its pair array. */
  ghost function BucketStorage<K(0), V(0)>(b: MapBucket<K, V>): set<object>
    reads b.bucket
  {
    {b} + b.bucket.Repr
  }

  class Map<K(0,==), V(0,==)> {
    /** Array of buckets. */
    const data: Array<MapBucket?<K, V>>
    /** Amount of key-value pairs held; the constructor leaves it unset. */
    var count: nat
    /** Amount of buckets the map can hold; the constructor leaves it unset. */
    var capacity: nat
    /** The buckets and their pair arrays. */
    ghost const Owned: set<object>

    /**
     * Map(): Reserve(MAP_INITIAL_CAPACITY) on the bucket array, then one
     * freshly allocated bucket appended per slot.  The appends never find the
     * array full, so its capacity stays MAP_INITIAL_CAPACITY.
     */
    constructor ()
      ensures data.Valid() && fresh(data.Repr) && fresh(Owned) && Owned !! data.Repr
      ensures data.Size() == MAP_INITIAL_CAPACITY && data.Capacity() == MAP_INITIAL_CAPACITY
      ensures BucketsReady(data.Elements(), Owned)
    {
      CapacityIncreaseGrows();
      var buckets := new Array<MapBucket?<K, V>>(CapacityIncrease);
      buckets.Reserve(MAP_INITIAL_CAPACITY);
      ghost var owned: set<object> := {};
      var i := 0;
      while i < MAP_INITIAL_CAPACITY
        invariant 0 <= i <= MAP_INITIAL_CAPACITY
        invariant buckets.Valid() && fresh(buckets.Repr) && fresh(owned) && owned !! buckets.Repr
        invariant |buckets.Elements()| == i && buckets.capacity == MAP_INITIAL_CAPACITY
        invariant BucketsReady(buckets.Elements(), owned)
      {
        var b := new MapBucket<K, V>();
        AddBucket(buckets, b, owned);
        owned := owned + BucketStorage(b);
        i := i + 1;
      }
      data := buckets;
      Owned := owned;
    }
  }

  /**
   * One step of the constructor loop: a bucket whose storage is apart from
   * everything built so far is appended, and the buckets already there are
   * untouched.
   */
  method AddBucket<K(0,==), V(0,==)>(buckets: Array<MapBucket?<K, V>>, b: MapBucket<K, V>, ghost owned: set<object>)
    requires buckets.Valid() && |buckets.Elements()| < buckets.capacity
    requires BucketsReady(buckets.Elements(), owned) && owned !! buckets.Repr
    requires b.Ready() && BucketStorage(b) !! buckets.Repr && BucketStorage(b) !! owned
    modifies buckets.Repr
    ensures buckets.Valid() && buckets.capacity == old(buckets.capacity)
    ensures fresh(buckets.Repr - old(buckets.Repr))
    ensures buckets.Elements() == old(buckets.Elements()) + [b]
    ensures BucketsReady(buckets.Elements(), owned + BucketStorage(b))
    ensures owned + BucketStorage(b) !! buckets.Repr
  {
    buckets.Add(b);
  }
}
