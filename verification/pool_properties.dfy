/**
  Properties of the session pool that relate several calls: the capacity
  bound over whole runs, exclusive lending, Release's idempotence, the exact
  expiry boundary, and worked scenarios.
 */
module PoolProperties {
  import opened Types
  import opened Pool

  /** One call a caller makes on the pool. */
  datatype Op =
    | AcquireOp(now: Time, order: seq<string>, backend: Backend)
    | ReleaseOp(name: string, now: Time)

  /** The pool after `ops`, or `None` once a step leaves the caller
      discipline: an Acquire whose iteration order is not a permutation of
      the pool's keys (which Go's `range` never produces), or a Release of a
      session the pool does not track (a programmer error that the code
      accepts silently, see `ReleaseUntrackedOverflows`). */
  function Run(c: Client, ops: seq<Op>): Option<Client>
    decreases |ops|
  {
    if ops == [] then Some(c)
    else match ops[0]
      case AcquireOp(now, order, b) =>
        if IsRangeOrder(order, c.sessions) then Run(Acquire(c, now, order, b).pool, ops[1..])
        else None
      case ReleaseOp(name, now) =>
        if name in c.sessions then Run(Release(c, name, now), ops[1..])
        else None
  }

  /** The capacity bound survives any disciplined run. */
  lemma {:induction false} RunKeepsCapacity(c: Client, ops: seq<Op>)
    requires WithinCapacity(c)
    requires Run(c, ops).Some?
    ensures WithinCapacity(Run(c, ops).value)
    ensures Run(c, ops).value.maxSessions == c.maxSessions
    decreases |ops|
  {
    if ops != [] {
      match ops[0]
      case AcquireOp(now, order, b) =>
        RunKeepsCapacity(Acquire(c, now, order, b).pool, ops[1..]);
      case ReleaseOp(name, now) =>
        RunKeepsCapacity(Release(c, name, now), ops[1..]);
    }
  }

  /** A client fresh from `NewClient` never holds more sessions than
      `maxSessions` allows, whatever disciplined calls follow. */
  lemma NewClientStaysWithinCapacity(project: string, instances: string, database: string,
                                     maxSessions: int, ops: seq<Op>)
    requires Run(NewClient(project, instances, database, maxSessions), ops).Some?
    ensures |Run(NewClient(project, instances, database, maxSessions), ops).value.sessions|
            <= if maxSessions < 0 then 0 else maxSessions
  {
    RunKeepsCapacity(NewClient(project, instances, database, maxSessions), ops);
  }

  /** The names of the records marked in use. */
  function InUse(m: map<string, Info>): set<string> {
    set k | k in m && m[k].inUse
  }

  /** If every session a caller currently holds is marked in use, and the
      backend never hands back a name the pool already tracks, Acquire hands
      out a session nobody holds, and everything held stays marked in use. */
  lemma AcquireLendsExclusively(c: Client, now: Time, order: seq<string>, b: Backend,
                                held: set<string>)
    requires IsRangeOrder(order, c.sessions)
    requires held <= InUse(c.sessions)
    requires b.create.Named? ==> b.create.name !in c.sessions
    ensures var s := Acquire(c, now, order, b);
            && (s.result.Ok? ==> s.result.value !in held)
            && held + (if s.result.Ok? then {s.result.value} else {}) <= InUse(s.pool.sessions)
  {
  }

  /** Releasing a held session keeps the rest of the held sessions marked in use. */
  lemma ReleaseKeepsOthersLent(c: Client, name: string, now: Time, held: set<string>)
    requires held <= InUse(c.sessions)
    ensures held - {name} <= InUse(Release(c, name, now).sessions)
  {
  }

  /** Releasing twice is releasing once with the later timestamp. */
  lemma ReleaseTwice(c: Client, name: string, t1: Time, t2: Time)
    ensures Release(Release(c, name, t1), name, t2) == Release(c, name, t2)
    ensures Release(Release(c, name, t1), name, t2).sessions.Keys == Release(c, name, t1).sessions.Keys
  {
  }

  /** Releasing a tracked session keeps the capacity bound. */
  lemma ReleaseTrackedKeepsCapacity(c: Client, name: string, now: Time)
    requires WithinCapacity(c) && name in c.sessions
    ensures WithinCapacity(Release(c, name, now))
  {
  }

  /** Releasing a name the pool does not track inserts a record, and so
      pushes a full pool over its capacity. */
  lemma ReleaseUntrackedOverflows(c: Client, name: string, now: Time)
    requires |c.sessions| >= Capacity(c) && name !in c.sessions
    ensures !WithinCapacity(Release(c, name, now))
  {
  }

  /** A record released at `t0` is still reused exactly 45 minutes later and
      discarded one nanosecond after that. */
  lemma ExpiryIsStrict(t0: Time)
    ensures !Expired(t0 + IdleTimeout, Info(false, t0))
    ensures Expired(t0 + IdleTimeout + 1, Info(false, t0))
  {
  }

  /** Only the first free record in iteration order is examined: a full pool
      whose first free record has expired replaces it, although another
      free record is still fresh; visited in the other order, the fresh one
      is reused instead. */
  lemma OnlyFirstFreeRecordCounts()
    ensures var now := IdleTimeout + 1;
            var c := Client("db", 2, map["old" := Info(false, 0), "new" := Info(false, now)]);
            var b := Backend(Done, Named("fresh"));
            && Acquire(c, now, ["old", "new"], b).result == Ok("fresh")
            && Acquire(c, now, ["old", "new"], b).pool.sessions ==
                 map["new" := Info(false, now), "fresh" := Busy]
            && Acquire(c, now, ["new", "old"], b).result == Ok("new")
            && Acquire(c, now, ["new", "old"], b).pool.sessions ==
                 map["old" := Info(false, 0), "new" := Busy]
  {
    var now := IdleTimeout + 1;
    var m := map["old" := Info(false, 0), "new" := Info(false, now)];
    assert m.Keys == {"old", "new"};
    assert |m| == 2;
  }

  /** Capacity 2: two Acquires create "s1" and "s2", and a third fails,
      reporting the count 2 and leaving the pool as it was. */
  lemma TwoSessionsThenExhausted()
    ensures var c0 := NewClient("p", "i", "d", 2);
            var s1 := Acquire(c0, 0, [], Backend(Done, Named("s1")));
            var s2 := Acquire(s1.pool, 1, ["s1"], Backend(Done, Named("s2")));
            var s3 := Acquire(s2.pool, 2, ["s1", "s2"], Backend(Done, Named("s3")));
            && s1.result == Ok("s1") && |s1.pool.sessions| == 1
            && s2.result == Ok("s2") && s2.pool.sessions == map["s1" := Busy, "s2" := Busy]
            && s3.result == Err(AllInUse(2)) && s3.pool == s2.pool
  {
    var c0 := NewClient("p", "i", "d", 2);
    var s1 := Acquire(c0, 0, [], Backend(Done, Named("s1")));
    assert s1.pool.sessions == map["s1" := Busy];
    var s2 := Acquire(s1.pool, 1, ["s1"], Backend(Done, Named("s2")));
    assert s2.pool.sessions == map["s1" := Busy, "s2" := Busy];
    assert s2.pool.sessions.Keys == {"s1", "s2"};
    assert Pick(["s1", "s2"], s2.pool.sessions) == None;
  }

  /** Continuing from the full pool above: after "s1" is released, an
      Acquire within the timeout hands "s1" out again, issuing no Create, and
      the pool is back to both sessions in use. */
  lemma ReuseAfterRelease()
    ensures var full := Client(NewClient("p", "i", "d", 2).conn, 2, map["s1" := Busy, "s2" := Busy]);
            var c := Release(full, "s1", 3);
            var s := Acquire(c, 4, ["s2", "s1"], Backend(Done, Named("s4")));
            && s.result == Ok("s1") && s.calls == [InitService] && s.pool == full
  {
    var full := Client(NewClient("p", "i", "d", 2).conn, 2, map["s1" := Busy, "s2" := Busy]);
    var c := Release(full, "s1", 3);
    assert c.sessions == map["s1" := Info(false, 3), "s2" := Busy];
    assert c.sessions.Keys == {"s1", "s2"};
    assert FirstFree(["s2", "s1"], c.sessions) == Some(1);
  }
}
