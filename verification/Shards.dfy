/** The sharded map as a value: a sequence of buckets, each key only in its own, and the flat map it
    stands for. */
module Shards {

  /** `session_id % shard_count_`: the id is converted to a 64-bit unsigned value first. */
  function GetShard(id: int, shardCount: nat): (shard: nat)
    requires shardCount > 0
    ensures shard < shardCount
    ensures 0 <= id < 0x1_0000_0000_0000_0000 ==> shard == id % shardCount
    ensures -0x1_0000_0000_0000_0000 <= id < 0 ==> shard == (0x1_0000_0000_0000_0000 + id) % shardCount
  {
    id % 0x1_0000_0000_0000_0000 % shardCount
  }

  ghost predicate Sharded<V>(buckets: seq<map<int, V>>) {
    && |buckets| > 0
    && forall k, id :: 0 <= k < |buckets| && id in buckets[k] ==> k == GetShard(id, |buckets|)
  }

  function IdsBelow<V>(buckets: seq<map<int, V>>, shard: nat): set<int>
    requires shard <= |buckets|
  {
    if shard == 0 then {} else IdsBelow(buckets, shard - 1) + buckets[shard - 1].Keys
  }

  lemma {:induction false} IdsBelowExactly<V>(buckets: seq<map<int, V>>, shard: nat)
    requires Sharded(buckets) && shard <= |buckets|
    ensures forall id :: id in IdsBelow(buckets, shard) <==>
              GetShard(id, |buckets|) < shard && id in buckets[GetShard(id, |buckets|)]
  {
    if shard > 0 {
      IdsBelowExactly(buckets, shard - 1);
    }
  }

  ghost function Flat<V>(buckets: seq<map<int, V>>): (flat: map<int, V>)
    requires Sharded(buckets)
    ensures forall id :: id in flat <==> id in buckets[GetShard(id, |buckets|)]
    ensures forall id :: id in flat ==> flat[id] == buckets[GetShard(id, |buckets|)][id]
  {
    IdsBelowExactly(buckets, |buckets|);
    map id | id in IdsBelow(buckets, |buckets|) :: buckets[GetShard(id, |buckets|)][id]
  }

  lemma PutInShard<V>(buckets: seq<map<int, V>>, id: int, v: V)
    requires Sharded(buckets)
    ensures var k := GetShard(id, |buckets|);
            var after := buckets[k := buckets[k][id := v]];
            Sharded(after) && Flat(after) == Flat(buckets)[id := v]
  {
    var k := GetShard(id, |buckets|);
    var after := buckets[k := buckets[k][id := v]];
    assert Sharded(after);
    assert Flat(after).Keys == Flat(buckets).Keys + {id};
  }

  lemma RemoveFromShard<V>(buckets: seq<map<int, V>>, id: int)
    requires Sharded(buckets)
    ensures var k := GetShard(id, |buckets|);
            var after := buckets[k := buckets[k] - {id}];
            Sharded(after) && Flat(after) == Flat(buckets) - {id}
  {
    var k := GetShard(id, |buckets|);
    var after := buckets[k := buckets[k] - {id}];
    assert Sharded(after);
    assert Flat(after).Keys == Flat(buckets).Keys - {id};
  }

  lemma BucketIsFlat<V>(buckets: seq<map<int, V>>, shard: nat, id: int)
    requires Sharded(buckets) && shard < |buckets| && id in buckets[shard]
    ensures id in Flat(buckets) && Flat(buckets)[id] == buckets[shard][id]
  {
  }

  lemma NextShard<V>(buckets: seq<map<int, V>>, shard: nat)
    requires Sharded(buckets) && shard < |buckets|
    ensures IdsBelow(buckets, shard + 1) == IdsBelow(buckets, shard) + buckets[shard].Keys
    ensures IdsBelow(buckets, shard) !! buckets[shard].Keys
  {
    IdsBelowExactly(buckets, shard);
    forall id | id in IdsBelow(buckets, shard) ensures id !in buckets[shard] {
      assert GetShard(id, |buckets|) < shard;
    }
  }

  lemma AllShards<V>(buckets: seq<map<int, V>>)
    requires Sharded(buckets)
    ensures IdsBelow(buckets, 0) == {}
    ensures IdsBelow(buckets, |buckets|) == Flat(buckets).Keys
  {
    IdsBelowExactly(buckets, |buckets|);
  }

  function BucketSizes<V>(buckets: seq<map<int, V>>): nat {
    if buckets == [] then 0 else |buckets[0]| + BucketSizes(buckets[1..])
  }

  /** Every key lives in exactly one shard, so the bucket sizes add up to the size of the flat map. */
  lemma {:induction false} SizesFrom<V>(buckets: seq<map<int, V>>, shard: nat)
    requires Sharded(buckets) && shard <= |buckets|
    ensures |IdsBelow(buckets, shard)| + BucketSizes(buckets[shard..]) == |Flat(buckets)|
    decreases |buckets| - shard
  {
    hide GetShard, Sharded, IdsBelow;
    AllShards(buckets);
    if shard < |buckets| {
      NextShard(buckets, shard);
      SizesFrom(buckets, shard + 1);
      assert buckets[shard..][1..] == buckets[shard + 1..];
    } else {
      assert |Flat(buckets).Keys| == |Flat(buckets)|;
    }
  }

  lemma SizesAddUp<V>(buckets: seq<map<int, V>>)
    requires Sharded(buckets)
    ensures BucketSizes(buckets) == |Flat(buckets)|
  {
    SizesFrom(buckets, 0);
    AllShards(buckets);
    assert buckets[0..] == buckets;
  }
}
