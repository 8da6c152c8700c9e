/** The sharded session registry with its nickname index and its cleanups, run by one thread.

    `Flat` is the plain map from ids to sessions that the shards implement. What other threads may do
    between the critical sections is the subject of `Ownership` and `Traversal`. */
module Registry {
  import opened Utils
  import opened Sessions
  import opened Outbound
  import opened Shards

  ghost predicate Distinct(s: seq<Session>) {
    forall i, j :: 0 <= i < j < |s| ==> s[i] != s[j]
  }

  ghost function Elements(s: seq<Session>): set<Session> {
    set x | x in s
  }

  lemma {:induction false} DistinctSize(s: seq<Session>)
    requires Distinct(s)
    ensures |Elements(s)| == |s|
  {
    if s != [] {
      DistinctSize(Before(s));
      assert Elements(s) == Elements(Before(s)) + {Last(s)};
    }
  }

  ghost function IdsAmong(sessions: seq<Session>, open: set<Session>): set<int> {
    if sessions == [] then {}
    else IdsAmong(Before(sessions), open) + if Last(sessions) in open then {Last(sessions).id} else {}
  }

  lemma {:induction false} IdsAmongAll(sessions: seq<Session>, open: set<Session>)
    ensures IdsAmong(sessions, open) == set s | s in sessions && s in open :: s.id
  {
    if sessions != [] {
      IdsAmongAll(Before(sessions), open);
      assert forall s :: s in sessions <==> s in Before(sessions) || s == Last(sessions);
    }
  }

  class SessionManager {
    const shardCount: nat
    var buckets: seq<map<int, Session>>
    var nicknameIndex: map<string, Session>
    var expired: set<Session>  // sessions whose object is gone: their weak references are dead

    ghost predicate Valid()
      reads `buckets
    {
      && |buckets| == shardCount && Sharded(buckets)
      && forall id :: id in Shards.Flat(buckets) ==> Shards.Flat(buckets)[id].id == id
    }

    ghost function Flat(): map<int, Session>
      requires Valid()
      reads `buckets
    {
      Shards.Flat(buckets)
    }

    constructor (shardCount: nat)
      requires shardCount > 0
      ensures Valid() && Flat() == map[] && nicknameIndex == map[] && this.shardCount == shardCount
    {
      this.shardCount := shardCount;
      buckets := seq(shardCount, _ => map[]);
      nicknameIndex, expired := map[], {};
    }

    // --- Sessions ---------------------------------------------------------------------------

    method FindSession(id: int) returns (found: Option<Session>)
      requires Valid()
      ensures found == if id in Flat() then Some(Flat()[id]) else None
    {
      var bucket := buckets[GetShard(id, shardCount)];
      if id in bucket {
        return Some(bucket[id]);
      }
      return None;
    }

    method RemoveSession(id: int) returns (removed: Option<Session>)
      requires Valid()
      modifies `buckets
      ensures Valid() && Flat() == old(Flat()) - {id}
      ensures removed == if id in old(Flat()) then Some(old(Flat())[id]) else None
    {
      var shard := GetShard(id, shardCount);
      removed := None;
      if id in buckets[shard] {
        removed := Some(buckets[shard][id]);
        RemoveFromShard(buckets, id);
        buckets := buckets[shard := buckets[shard] - {id}];
      }
    }

    /** `close_session` with its last act, the removal of the session by id. */
    method CloseSession(s: Session)
      requires Valid()
      modifies `buckets, s`closed, s`state
      ensures Valid() && s.closed
      ensures s.state == if old(s.closed) then old(s.state) else Closed
      ensures Flat() == if old(s.closed) then old(Flat()) else old(Flat()) - {s.id}
    {
      var won := s.CloseSession();
      if won {
        var _ := RemoveSession(s.id);
      }
    }

    ghost function Holder(id: int): set<Session>
      requires Valid()
      reads `buckets
    {
      if id in Flat() then {Flat()[id]} else {}
    }

    /** Under a fresh id, or one whose holder is already closed, this registers the session. But if an
        open session is replaced, its close removes the new entry by id, and the new session is lost. */
    method AddSession(s: Session)
      requires Valid()
      modifies `buckets, Holder(s.id)`closed, Holder(s.id)`state
      ensures Valid()
      ensures var replaced := if s.id in old(Flat()) then Some(old(Flat())[s.id]) else None;
              && (Flat() == if replaced.Some? && !old(replaced.value.closed) then old(Flat()) - {s.id}
                            else old(Flat())[s.id := s])
              && (replaced.Some? ==> replaced.value.closed)
              && (replaced.Some? ==>
                    replaced.value.state == if old(replaced.value.closed) then old(replaced.value.state) else Closed)
    {
      var shard := GetShard(s.id, shardCount);
      var bucket := buckets[shard];
      PutInShard(buckets, s.id, s);
      buckets := buckets[shard := bucket[s.id := s]];
      if s.id in bucket {
        var replaced := bucket[s.id];
        if !replaced.closed {
          CloseSession(replaced);
        }
      }
    }

    ghost predicate Registered(sessions: seq<Session>)
      requires Valid()
      reads `buckets
    {
      Distinct(sessions) && forall s | s in sessions :: s.id in Flat() && Flat()[s.id] == s
    }

    // --- Nicknames --------------------------------------------------------------------------

    ghost function Rivals(n: string, s: Session): set<Session>
      reads `nicknameIndex, `expired
    {
      if n in nicknameIndex && nicknameIndex[n] !in expired && nicknameIndex[n] != s then {nicknameIndex[n]} else {}
    }

    method FindSessionByNickname(n: string) returns (found: Option<Session>)
      ensures found == if n in nicknameIndex && nicknameIndex[n] !in expired then Some(nicknameIndex[n]) else None
    {
      if n in nicknameIndex {
        if nicknameIndex[n] !in expired {
          return Some(nicknameIndex[n]);
        }
      }
      return None;
    }

    /** Takes the nickname over: another live session found under it is told so, is closed and, if it was
        open, leaves the registry; then the entry is overwritten in any case. The notice to `told` is
        posted to that session's own strand. */
    method RegisterNickname(n: string, s: Session) returns (told: Option<Session>)
      requires Valid()
      modifies `buckets, `nicknameIndex, Rivals(n, s)`closed, Rivals(n, s)`state
      ensures Valid() && nicknameIndex == old(nicknameIndex)[n := s]
      ensures told.Some? <==> n in old(nicknameIndex) && old(nicknameIndex)[n] !in expired && old(nicknameIndex)[n] != s
      ensures told.Some? ==>
                var prev := old(nicknameIndex)[n];
                && told.value == prev && prev.closed
                && prev.state == (if old(prev.closed) then old(prev.state) else Closed)
                && Flat() == if old(prev.closed) then old(Flat()) else old(Flat()) - {prev.id}
      ensures told.None? ==> Flat() == old(Flat())
    {
      hide Sharded, GetShard, Shards.Flat;
      told := None;
      if n in nicknameIndex {
        if nicknameIndex[n] !in expired && nicknameIndex[n] != s {
          told := Some(nicknameIndex[n]);
          CloseSession(nicknameIndex[n]);
        }
      }
      nicknameIndex := nicknameIndex[n := s];
    }

    /** The sweep removes exactly the entries whose session is gone. */
    method CleanupExpiredNicknames()
      modifies `nicknameIndex
      ensures forall n :: n in nicknameIndex <==> n in old(nicknameIndex) && old(nicknameIndex)[n] !in expired
      ensures forall n :: n in nicknameIndex ==> nicknameIndex[n] == old(nicknameIndex)[n]
    {
      var todo := nicknameIndex.Keys;
      while exists n :: n in todo
        invariant todo <= old(nicknameIndex).Keys
        invariant forall n :: n in nicknameIndex <==>
                    n in old(nicknameIndex) && (n in todo || old(nicknameIndex)[n] !in expired)
        invariant forall n :: n in nicknameIndex ==> nicknameIndex[n] == old(nicknameIndex)[n]
        decreases todo
      {
        var n :| n in todo;
        if nicknameIndex[n] in expired {
          nicknameIndex := nicknameIndex - {n};
        }
        todo := todo - {n};
      }
    }

    // --- Counting and traversal -------------------------------------------------------------

    /** The sum of the bucket sizes is the size of the flat map. */
    method SessionCount() returns (total: nat)
      requires Valid()
      ensures total == |Flat()|
    {
      hide GetShard, IdsBelow, Sharded;
      total := 0;
      AllShards(buckets);
      for shard := 0 to shardCount
        invariant total == |IdsBelow(buckets, shard)|
      {
        NextShard(buckets, shard);
        total := total + |buckets[shard]|;
      }
      assert |Flat().Keys| == |Flat()|;
    }

    // The sessions copied once the shards below one, and all but `left` of it, have been copied.
    ghost predicate Copied(sessions: seq<Session>, ids: set<int>)
      requires Valid()
      reads `buckets
    {
      && Distinct(sessions)
      && (forall s | s in sessions :: s.id in ids && s.id in Flat() && Flat()[s.id] == s)
      && (forall id | id in ids :: id in Flat() && Flat()[id] in sessions)
    }

    lemma CopyOne(sessions: seq<Session>, ids: set<int>, id: int)
      requires Valid() && Copied(sessions, ids) && id in Flat() && id !in ids
      ensures Copied(sessions + [Flat()[id]], ids + {id})
    {
    }

    method CopyBucket(shard: nat, sessions: seq<Session>, ghost done: set<int>) returns (more: seq<Session>)
      requires Valid() && shard < shardCount && Copied(sessions, done) && done !! buckets[shard].Keys
      ensures Copied(more, done + buckets[shard].Keys)
    {
      more := sessions;
      var bucket := buckets[shard];
      var keys := bucket.Keys;
      while exists id :: id in keys
        invariant keys <= bucket.Keys
        invariant Copied(more, done + (bucket.Keys - keys))
        decreases keys
      {
        var id :| id in keys;
        BucketIsFlat(buckets, shard, id);
        CopyOne(more, done + (bucket.Keys - keys), id);
        assert done + (bucket.Keys - keys) + {id} == done + (bucket.Keys - (keys - {id}));
        more := more + [bucket[id]];
        keys := keys - {id};
      }
      assert done + (bucket.Keys - keys) == done + bucket.Keys;
    }

    /** The copy that `for_each_session` iterates over: every registered session exactly once. */
    method Snapshot() returns (sessions: seq<Session>)
      requires Valid()
      ensures Registered(sessions) && Elements(sessions) == Flat().Values
    {
      hide GetShard, IdsBelow, Sharded;
      sessions := [];
      AllShards(buckets);
      for shard := 0 to shardCount
        invariant Copied(sessions, IdsBelow(buckets, shard))
      {
        NextShard(buckets, shard);
        sessions := CopyBucket(shard, sessions, IdsBelow(buckets, shard));
      }
      assert forall s :: s in Flat().Values ==> s.id in Flat() && Flat()[s.id] == s;
    }

    // --- Closing many sessions --------------------------------------------------------------

    ghost function Open(): set<Session>
      requires Valid()
      reads `buckets, Flat().Values`closed
    {
      set s | s in Flat().Values && !s.closed
    }

    /** Closing while walking a copy disturbs nothing: each session is closed, and those that were open
        leave the registry. One whose `closed_` was already set stays. */
    method CloseAll(sessions: seq<Session>, ghost open: set<Session>)
      requires Valid() && Registered(sessions)
      requires forall s :: s in sessions ==> (s in open <==> !s.closed)
      modifies `buckets, Elements(sessions)`closed, Elements(sessions)`state
      ensures Valid() && Flat() == old(Flat()) - IdsAmong(sessions, open)
      ensures forall s :: s in sessions ==> s.closed && s.state == if old(s.closed) then old(s.state) else Closed
    {
      hide Sharded, GetShard, Shards.Flat;
      for i := 0 to |sessions|
        invariant Valid() && Flat() == old(Flat()) - IdsAmong(sessions[..i], open)
        invariant forall j :: 0 <= j < |sessions| ==>
                    sessions[j].closed == (j < i || sessions[j] !in open)
                    && sessions[j].state == if j < i && sessions[j] in open then Closed else old(sessions[j].state)
      {
        assert Before(sessions[..i + 1]) == sessions[..i];
        CloseSession(sessions[i]);
      }
      assert sessions[..|sessions|] == sessions;
    }

    predicate Idle(s: Session, now: int, maxIdle: int)
      reads s`lastAlive
    {
      now - s.lastAlive > maxIdle
    }

    method CollectIdle(now: int, maxIdle: int) returns (found: seq<Session>)
      requires Valid()
      ensures Registered(found) && buckets == old(buckets)
      ensures Elements(found) == old(set s | s in Flat().Values && Idle(s, now, maxIdle))
    {
      hide Sharded, GetShard, Shards.Flat;
      var all := Snapshot();
      found := [];
      for i := 0 to |all|
        invariant Distinct(found)
        invariant forall s :: s in found <==> s in all[..i] && Idle(s, now, maxIdle)
      {
        if Idle(all[i], now, maxIdle) {
          found := found + [all[i]];
        }
      }
      assert all[..|all|] == all;
      assert forall s :: s in found ==> s in Elements(all);
    }

    /** Exactly the sessions idle for too long are closed, and of these exactly the open ones leave the
        registry. */
    method CleanupInactive(now: int, maxIdle: int)
      requires Valid()
      modifies `buckets, Flat().Values`closed, Flat().Values`state
      ensures Valid()
      ensures forall id :: id in old(Flat()) ==>
                var s := old(Flat())[id];
                var idle := now - s.lastAlive > maxIdle;
                && s.closed == (old(s.closed) || idle)
                && s.state == if idle && !old(s.closed) then Closed else old(s.state)
      ensures Flat() == old(Flat()) -
                old(set s | s in Flat().Values && !s.closed && now - s.lastAlive > maxIdle :: s.id)
    {
      hide Sharded, GetShard, Shards.Flat;
      ghost var open := Open();
      var toClose := CollectIdle(now, maxIdle);
      IdsAmongAll(toClose, open);
      assert IdsAmong(toClose, open) == old(set s | s in Flat().Values && !s.closed && Idle(s, now, maxIdle) :: s.id) by {
        assert forall s :: s in toClose <==> s in Elements(toClose);
      }
      CloseAll(toClose, open);
    }

    predicate Unauthenticated(s: Session)
      reads s`state
    {
      s.state == Handshaking || s.state == LoginWait
    }

    ghost function Unauth(): set<Session>
      requires Valid()
      reads `buckets, Flat().Values`state
    {
      set s | s in Flat().Values && (s.state == Handshaking || s.state == LoginWait)
    }

    // The unauthenticated sessions of a traversal, each once.
    method CollectUnauthenticated() returns (found: seq<Session>)
      requires Valid()
      ensures Registered(found)
      ensures Elements(found) == old(Unauth()) && buckets == old(buckets)
    {
      hide Sharded, GetShard, Shards.Flat;
      var all := Snapshot();
      found := [];
      for i := 0 to |all|
        invariant Distinct(found)
        invariant forall s :: s in found <==> s in all[..i] && Unauthenticated(s)
      {
        if Unauthenticated(all[i]) {
          found := found + [all[i]];
        }
      }
      assert all[..|all|] == all;
      assert forall s :: s in found ==> s in Elements(all);
    }

    method ChooseExcess(maxUnauth: nat) returns (found: seq<Session>, asked: seq<Session>)
      requires Valid()
      ensures buckets == old(buckets) && Registered(asked)
      ensures Distinct(found) && Elements(found) == old(Unauth())
      ensures |asked| == if |found| > maxUnauth then |found| - maxUnauth else 0
      ensures forall s :: s in asked ==> s in found
      ensures forall s, t :: s in asked && t in found && t !in asked ==> s.lastAlive <= t.lastAlive
    {
      hide Sharded, GetShard, Shards.Flat;
      found := CollectUnauthenticated();
      asked := Oldest(found, if |found| > maxUnauth then |found| - maxUnauth else 0);
      assert forall s :: s in asked ==> s in Elements(found);
    }

    /** Of the unauthenticated sessions found, exactly the excess over `maxUnauth` is asked to close; every
        one asked is no newer than every one spared; and exactly those that were open when asked leave
        the registry. */
    method CleanupUnauthSessions(maxUnauth: nat) returns (found: seq<Session>, asked: seq<Session>)
      requires Valid()
      modifies `buckets, Flat().Values`closed, Flat().Values`state
      ensures Valid()
      ensures Distinct(found) && Elements(found) == old(Unauth())
      ensures Distinct(asked) && |asked| == if |found| > maxUnauth then |found| - maxUnauth else 0
      ensures forall s :: s in asked ==> s in found && s.closed
      ensures forall s, t :: s in asked && t in found && t !in asked ==> s.lastAlive <= t.lastAlive
      ensures forall id :: id in old(Flat()) && old(Flat()[id]) !in asked ==>
                old(Flat())[id].closed == old(Flat()[id].closed) && old(Flat())[id].state == old(Flat()[id].state)
      ensures Flat() == old(Flat()) - IdsAmong(asked, old(Open()))
    {
      hide Sharded, GetShard, Shards.Flat;
      ghost var open := Open();
      found, asked := ChooseExcess(maxUnauth);
      CloseAll(asked, open);
    }
  }

  ghost predicate Sorted(s: seq<Session>)
    reads Elements(s)`lastAlive
  {
    forall i, j :: 0 <= i < j < |s| ==> s[i].lastAlive <= s[j].lastAlive
  }

  /** The `count` sessions with the oldest sign of life. */
  method Oldest(s: seq<Session>, count: nat) returns (oldest: seq<Session>)
    requires Distinct(s) && count <= |s|
    ensures Distinct(oldest) && |oldest| == count
    ensures forall x :: x in oldest ==> x in s
    ensures forall x, y :: x in oldest && y in s && y !in oldest ==> x.lastAlive <= y.lastAlive
  {
    var sorted := SortByAge(s);
    oldest := sorted[..count];
    forall x | x in oldest ensures x in s {
      assert x in Elements(sorted);
    }
    forall y | y in s && y !in oldest ensures y in sorted[count..] {
      assert y in Elements(sorted);
    }
  }

  // std::sort by last sign of life; only its contract matters, so any order among equals would do.
  method SortByAge(s: seq<Session>) returns (sorted: seq<Session>)
    requires Distinct(s)
    ensures Distinct(sorted) && Elements(sorted) == Elements(s) && |sorted| == |s| && Sorted(sorted)
  {
    sorted := [];
    for i := 0 to |s|
      invariant |sorted| == i && Distinct(sorted) && Sorted(sorted)
      invariant Elements(sorted) == Elements(s[..i])
    {
      assert s[..i + 1] == s[..i] + [s[i]];
      assert s[i] !in Elements(s[..i]);
      sorted := Insert(sorted, s[i]);
    }
    assert s[..|s|] == s;
  }

  function InsertAt(s: seq<Session>, k: nat, x: Session): (longer: seq<Session>)
    requires k <= |s|
    ensures |longer| == |s| + 1
    ensures forall i :: 0 <= i < |longer| ==> longer[i] == if i < k then s[i] else if i == k then x else s[i - 1]
  {
    s[..k] + [x] + s[k..]
  }

  lemma InsertedElements(s: seq<Session>, k: nat, x: Session)
    requires k <= |s|
    ensures Elements(InsertAt(s, k, x)) == Elements(s) + {x}
  {
    var longer := InsertAt(s, k, x);
    forall y ensures y in longer <==> y in s || y == x {
      if y in s {
        var i :| 0 <= i < |s| && s[i] == y;
        assert longer[if i < k then i else i + 1] == y;
      } else if y == x {
        assert longer[k] == y;
      }
    }
  }

  lemma InsertedDistinct(s: seq<Session>, k: nat, x: Session)
    requires Distinct(s) && x !in s && k <= |s|
    ensures Distinct(InsertAt(s, k, x))
  {
  }

  lemma InsertedSorted(s: seq<Session>, k: nat, x: Session)
    requires Sorted(s) && k <= |s|
    requires k < |s| ==> x.lastAlive <= s[k].lastAlive
    requires k > 0 ==> s[k - 1].lastAlive <= x.lastAlive
    ensures Sorted(InsertAt(s, k, x))
  {
  }

  method Insert(s: seq<Session>, x: Session) returns (longer: seq<Session>)
    requires Distinct(s) && Sorted(s) && x !in s
    ensures Distinct(longer) && Sorted(longer) && |longer| == |s| + 1 && Elements(longer) == Elements(s) + {x}
  {
    var k := |s|;
    while k > 0 && s[k - 1].lastAlive > x.lastAlive
      invariant 0 <= k <= |s|
      invariant k < |s| ==> x.lastAlive < s[k].lastAlive
    {
      k := k - 1;
    }
    InsertedElements(s, k, x);
    InsertedDistinct(s, k, x);
    InsertedSorted(s, k, x);
    longer := InsertAt(s, k, x);
  }
}
