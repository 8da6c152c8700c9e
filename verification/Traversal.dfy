/** Traversal and counting of the registry while other threads add and remove sessions.

    `history[t]` are the shards after t atomic steps of anybody. A scan reads shard k under its mutex at
    time `at[k]`, one shard after the other; between two reads anything may happen. */
module Traversal {
  import opened Shards

  // The identity of a session object.
  type Handle = nat

  type History = seq<seq<map<int, Handle>>>

  datatype Visit = Visit(id: int, session: Handle)

  ghost predicate Scan(history: History, at: seq<nat>) {
    && |at| > 0
    && (forall t :: 0 <= t < |history| ==> |history[t]| == |at| && Sharded(history[t]))
    && (forall k :: 0 <= k < |at| ==> at[k] < |history|)
    && (forall j, k :: 0 <= j <= k < |at| ==> at[j] <= at[k])
  }

  // The moments between the first and the last shard read.
  ghost predicate During(history: History, at: seq<nat>, t: nat)
    requires Scan(history, at)
  {
    at[0] <= t <= at[|at| - 1]
  }

  ghost predicate Present(history: History, at: seq<nat>, t: nat, v: Visit)
    requires Scan(history, at) && During(history, at, t)
  {
    v.id in Flat(history[t]) && Flat(history[t])[v.id] == v.session
  }

  ghost predicate Throughout(history: History, at: seq<nat>, v: Visit)
    requires Scan(history, at)
  {
    forall t: nat :: During(history, at, t) ==> Present(history, at, t, v)
  }

  ghost predicate Sometime(history: History, at: seq<nat>, v: Visit)
    requires Scan(history, at)
  {
    exists t: nat :: During(history, at, t) && Present(history, at, t, v)
  }

  ghost predicate DistinctIds(visits: seq<Visit>) {
    forall i, j :: 0 <= i < j < |visits| ==> visits[i].id != visits[j].id
  }

  // Present in its shard when that shard was read.
  ghost predicate Read(history: History, at: seq<nat>, v: Visit)
    requires Scan(history, at)
  {
    var k := GetShard(v.id, |at|);
    v.id in history[at[k]][k] && history[at[k]][k][v.id] == v.session
  }

  // Where the scan has got to once shard `k` is being read and the keys in `left` remain.
  predicate Passed(shards: nat, k: nat, left: set<int>, id: int)
    requires shards > 0
  {
    GetShard(id, shards) < k || (GetShard(id, shards) == k && id !in left)
  }

  ghost predicate Visited(history: History, at: seq<nat>, k: nat, left: set<int>, visits: seq<Visit>)
    requires Scan(history, at)
  {
    && DistinctIds(visits)
    && forall v :: v in visits <==> Read(history, at, v) && Passed(|at|, k, left, v.id)
  }

  lemma ReadIsPresent(history: History, at: seq<nat>, v: Visit)
    requires Scan(history, at)
    ensures Throughout(history, at, v) ==> Read(history, at, v)
    ensures Read(history, at, v) ==> Sometime(history, at, v)
  {
    var k := GetShard(v.id, |at|);
    assert During(history, at, at[k]);
    assert Read(history, at, v) <==> Present(history, at, at[k], v);
  }

  /** The copying loop of `for_each_session`: no session is visited twice, every session present
      throughout the scan is visited, and every session visited was present at some moment of it. */
  method Traverse(history: History, at: seq<nat>) returns (visits: seq<Visit>)
    requires Scan(history, at)
    ensures DistinctIds(visits)
    ensures forall v :: Throughout(history, at, v) ==> v in visits
    ensures forall v :: v in visits ==> Sometime(history, at, v)
  {
    visits := [];
    for k := 0 to |at|
      invariant Visited(history, at, k, if k < |at| then history[at[k]][k].Keys else {}, visits)
    {
      var bucket := history[at[k]][k];
      var left := bucket.Keys;
      while exists id :: id in left
        invariant left <= bucket.Keys
        invariant Visited(history, at, k, left, visits)
        decreases left
      {
        var id :| id in left;
        visits := visits + [Visit(id, bucket[id])];
        left := left - {id};
      }
    }
    forall v ensures Throughout(history, at, v) ==> v in visits {
      ReadIsPresent(history, at, v);
    }
    forall v | v in visits ensures Sometime(history, at, v) {
      ReadIsPresent(history, at, v);
    }
  }

  // --- Counting ---------------------------------------------------------------------------

  function SeenIds(history: History, at: seq<nat>, k: nat): set<int>
    requires k <= |at|
    requires forall j :: 0 <= j < k ==> at[j] < |history| && j < |history[at[j]]|
  {
    if k == 0 then {} else SeenIds(history, at, k - 1) + history[at[k - 1]][k - 1].Keys
  }

  lemma {:induction false} SeenIdsExactly(history: History, at: seq<nat>, k: nat)
    requires Scan(history, at) && k <= |at|
    ensures forall id :: id in SeenIds(history, at, k) <==>
              (var j := GetShard(id, |at|); j < k && id in history[at[j]][j])
  {
    if k > 0 {
      SeenIdsExactly(history, at, k - 1);
    }
  }

  lemma SeenOnce(history: History, at: seq<nat>, k: nat)
    requires Scan(history, at) && k < |at|
    ensures |SeenIds(history, at, k + 1)| == |SeenIds(history, at, k)| + |history[at[k]][k]|
  {
    SeenIdsExactly(history, at, k);
    var seen, keys := SeenIds(history, at, k), history[at[k]][k].Keys;
    forall id | id in seen ensures id !in keys {
      assert GetShard(id, |at|) < k;
    }
    assert |keys| == |history[at[k]][k]|;
    assert |seen + keys| == |seen| + |keys|;
  }

  // The ids present at every moment from one time to another, and at some moment.
  function AlwaysIds(history: History, since: nat, until: nat): set<int>
    requires since <= until < |history| && forall t :: since <= t <= until ==> Sharded(history[t])
    decreases until
  {
    if since == until then
      IdsBelow(history[until], |history[until]|)
    else
      AlwaysIds(history, since, until - 1) * IdsBelow(history[until], |history[until]|)
  }

  function EverIds(history: History, since: nat, until: nat): set<int>
    requires since <= until < |history| && forall t :: since <= t <= until ==> Sharded(history[t])
    decreases until
  {
    if since == until then
      IdsBelow(history[until], |history[until]|)
    else
      EverIds(history, since, until - 1) + IdsBelow(history[until], |history[until]|)
  }

  ghost predicate RegisteredAt(history: History, t: nat, id: int)
    requires t < |history| && Sharded(history[t])
  {
    id in Flat(history[t])
  }

  lemma AllIds(history: History, t: nat, id: int)
    requires t < |history| && Sharded(history[t])
    ensures id in IdsBelow(history[t], |history[t]|) <==> RegisteredAt(history, t, id)
  {
    AllShards(history[t]);
  }

  /** The two sets are exactly what their names say. */
  lemma {:induction false} IdsOverTime(history: History, since: nat, until: nat, id: int)
    requires since <= until < |history| && forall t :: since <= t <= until ==> Sharded(history[t])
    ensures id in AlwaysIds(history, since, until) <==> forall t :: since <= t <= until ==> RegisteredAt(history, t, id)
    ensures id in EverIds(history, since, until) <==> exists t :: since <= t <= until && RegisteredAt(history, t, id)
    decreases until
  {
    hide Sharded, IdsBelow, RegisteredAt;
    AllIds(history, until, id);
    if since < until {
      IdsOverTime(history, since, until - 1, id);
    }
  }

  lemma SubsetSize(a: set<int>, b: set<int>)
    requires a <= b
    ensures |a| <= |b|
  {
    assert b == a + (b - a);
  }

  /** The count lies between the number of sessions registered throughout the scan and the number
      registered at some moment of it. */
  method CountScan(history: History, at: seq<nat>) returns (total: nat)
    requires Scan(history, at)
    ensures |AlwaysIds(history, at[0], at[|at| - 1])| <= total <= |EverIds(history, at[0], at[|at| - 1])|
  {
    total := 0;
    for k := 0 to |at|
      invariant total == |SeenIds(history, at, k)|
    {
      SeenOnce(history, at, k);
      total := total + |history[at[k]][k]|;
    }
    CountBounds(history, at);
  }

  lemma CountBounds(history: History, at: seq<nat>)
    requires Scan(history, at)
    ensures var seen, last := SeenIds(history, at, |at|), at[|at| - 1];
            |AlwaysIds(history, at[0], last)| <= |seen| <= |EverIds(history, at[0], last)|
  {
    var n := |at|;
    var always, ever := AlwaysIds(history, at[0], at[n - 1]), EverIds(history, at[0], at[n - 1]);
    var seen := SeenIds(history, at, n);
    SeenIdsExactly(history, at, n);
    forall id ensures (id in always ==> id in seen) && (id in seen ==> id in ever) {
      var k := GetShard(id, n);
      IdsOverTime(history, at[0], at[n - 1], id);
      assert RegisteredAt(history, at[k], id) <==> id in history[at[k]][k];
    }
    SubsetSize(always, seen);
    SubsetSize(seen, ever);
  }
}
