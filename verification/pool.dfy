/**
  The session pool of `Client`: a map from session name to its record
  (`inUse`, `lastUsed`) bounded by `maxSessions`. Each operation is one atomic
  step (the mutex is read as "no interleaving"), the clock is the `now`
  parameter, Go's map iteration order is the `order` parameter, and the
  remote backend is an oracle whose answers are parameters as well.
 */
module Pool {
  import opened Types

  /** Bookkeeping for one tracked session (`sessionInfo`). */
  datatype Info = Info(inUse: bool, lastUsed: Time)

  /** The pool state of a `Client`. */
  datatype Client = Client(conn: string, maxSessions: int, sessions: map<string, Info>)

  /** The result of `newSession`, with the remote calls it issued. */
  datatype Attempt = Attempt(result: Outcome<string>, calls: seq<Call>)

  /** The result of `AcquireSession`: the pool afterwards, the session name
      handed out or the error, and the remote calls issued on the way. */
  datatype Step = Step(pool: Client, result: Outcome<string>, calls: seq<Call>)

  /** The record Acquire stores for a session it hands out
      (`&sessionInfo{inUse: true}`: the zero time as `lastUsed`). */
  const Busy: Info := Info(true, ZeroTime)

  /** The capacity, read as a size: a negative `maxSessions` admits nothing. */
  function Capacity(c: Client): nat {
    if c.maxSessions < 0 then 0 else c.maxSessions
  }

  /** The pool invariant: no more records than the capacity. */
  predicate WithinCapacity(c: Client) {
    |c.sessions| <= Capacity(c)
  }

  predicate IsFree(m: map<string, Info>, k: string) {
    k in m && !m[k].inUse
  }

  /** A free record is discarded when it has idled strictly longer than the timeout. */
  predicate Expired(now: Time, info: Info): (r: bool)
    ensures r <==> now - info.lastUsed > IdleTimeout
  {
    Sub(now, info.lastUsed) > IdleTimeout
  }

  /** `order` is an order in which `range` may visit the keys of `m`:
      every key exactly once. */
  predicate IsRangeOrder(order: seq<string>, m: map<string, Info>) {
    && (forall i | 0 <= i < |order| :: order[i] in m)
    && (forall k | k in m :: k in order)
    && (forall i, j | 0 <= i < j < |order| :: order[i] != order[j])
  }

  /** `NewClient`: the connection path of the database and an empty pool. */
  function NewClient(project: string, instances: string, database: string, maxSessions: int): (c: Client)
    ensures c.sessions == map[] && c.maxSessions == maxSessions
    ensures WithinCapacity(c)
    ensures |c.conn| > |"projects/"| && c.conn[..|"projects/"|] == "projects/"
  {
    Client("projects/" + project + "/instances/" + instances + "/databases/" + database,
           maxSessions, map[])
  }

  /** `newSession`: build the service, then ask the backend to create a
      session in the database; either step may fail. */
  function NewSession(conn: string, b: Backend): (a: Attempt)
    ensures a.result.Ok? <==> b.service.Done? && b.create.Named?
    ensures a.result.Ok? ==> a.result.value == b.create.name
    ensures b.service.Refused? ==> a.result == Err(ServiceInitFailed(b.service.cause))
    ensures b.service.Done? && b.create.CreateRefused? ==>
              a.result == Err(SessionCreateFailed(b.create.cause))
    ensures a.calls == [InitService] + (if b.service.Done? then [CreateSession(conn)] else [])
    ensures forall n :: DeleteSession(n) !in a.calls
  {
    match b.service
    case Refused(e) => Attempt(Err(ServiceInitFailed(e)), [InitService])
    case Done =>
      match b.create
      case CreateRefused(e) => Attempt(Err(SessionCreateFailed(e)), [InitService, CreateSession(conn)])
      case Named(n) => Attempt(Ok(n), [InitService, CreateSession(conn)])
  }

  /** The position in `order` of the first free record, if any. */
  function FirstFree(order: seq<string>, m: map<string, Info>): (r: Option<nat>)
    ensures r.Some? ==> r.value < |order| && IsFree(m, order[r.value])
    ensures r.Some? ==> forall j :: 0 <= j < r.value ==> !IsFree(m, order[j])
    ensures r.None? ==> forall j :: 0 <= j < |order| ==> !IsFree(m, order[j])
  {
    if |order| == 0 then None
    else if IsFree(m, order[0]) then Some(0)
    else match FirstFree(order[1..], m)
      case None => None
      case Some(i) => Some(i + 1)
  }

  /** The record a full pool looks at: the first free one in iteration order. */
  function Pick(order: seq<string>, m: map<string, Info>): (r: Option<string>)
    requires IsRangeOrder(order, m)
    ensures r.Some? ==> IsFree(m, r.value)
    ensures r.Some? ==> exists i :: 0 <= i < |order| && order[i] == r.value &&
                                    forall j :: 0 <= j < i ==> !IsFree(m, order[j])
    ensures r.None? <==> forall k :: k in m ==> m[k].inUse
  {
    match FirstFree(order, m)
    case None => None
    case Some(i) => Some(order[i])
  }

  /** `AcquireSession`. */
  function Acquire(c: Client, now: Time, order: seq<string>, b: Backend): (s: Step)
    requires IsRangeOrder(order, c.sessions)
    ensures s.pool.conn == c.conn && s.pool.maxSessions == c.maxSessions
    ensures WithinCapacity(c) ==> WithinCapacity(s.pool)
    ensures s.result.Ok? ==> s.result.value in s.pool.sessions && s.pool.sessions[s.result.value].inUse
    // records other than the one picked and the one handed out are untouched
    ensures forall k :: k in c.sessions && s.result != Ok(k) && Pick(order, c.sessions) != Some(k) ==>
              k in s.pool.sessions && s.pool.sessions[k] == c.sessions[k]
    ensures forall k :: k in s.pool.sessions && k !in c.sessions ==> s.result == Ok(k)
    // below capacity: always a new session, never a free record
    ensures |c.sessions| < c.maxSessions ==>
              && (s.result.Ok? <==> b.service.Done? && b.create.Named?)
              && (s.result.Ok? ==> s.result.value == b.create.name &&
                                   s.pool.sessions == c.sessions[b.create.name := Busy])
              && (s.result.Ok? && b.create.name !in c.sessions ==>
                                   |s.pool.sessions| == |c.sessions| + 1)
              && (s.result.Err? ==> s.pool == c && s.result == NewSession(c.conn, b).result)
              && s.calls == NewSession(c.conn, b).calls
    // full and nothing free: the error reports the count, nothing changes
    ensures s.result.Err? && s.result.error.AllInUse? <==>
              |c.sessions| >= c.maxSessions && forall k :: k in c.sessions ==> c.sessions[k].inUse
    ensures s.result.Err? && s.result.error.AllInUse? ==>
              s.result.error.count == |c.sessions| && s.pool == c && s.calls == []
    // full, first free record still fresh: reuse it, even if the service fails
    ensures |c.sessions| >= c.maxSessions && Pick(order, c.sessions).Some? &&
            !Expired(now, c.sessions[Pick(order, c.sessions).value]) ==>
              && s.pool.sessions == c.sessions[Pick(order, c.sessions).value := Busy]
              && (s.result.Ok? <==> b.service.Done?)
              && (s.result.Ok? ==> s.result.value == Pick(order, c.sessions).value)
              && (s.result.Err? ==> s.result == Err(ServiceInitFailed(b.service.cause)))
              && s.calls == [InitService]
    // full, first free record expired: drop it, create a replacement
    ensures |c.sessions| >= c.maxSessions && Pick(order, c.sessions).Some? &&
            Expired(now, c.sessions[Pick(order, c.sessions).value]) ==>
              var p := Pick(order, c.sessions).value;
              && (s.result.Ok? <==> b.service.Done? && b.create.Named?)
              && (s.result.Ok? ==> s.result.value == b.create.name &&
                                   s.pool.sessions == (c.sessions - {p})[b.create.name := Busy])
              && (s.result.Ok? && b.create.name !in c.sessions ==>
                                   |s.pool.sessions| == |c.sessions|)
              && (s.result.Err? ==> s.pool.sessions == c.sessions - {p} &&
                                    |s.pool.sessions| == |c.sessions| - 1 &&
                                    s.result == NewSession(c.conn, b).result)
              && s.calls == NewSession(c.conn, b).calls
              && DeleteSession(p) !in s.calls
  {
    if |c.sessions| < c.maxSessions then
      var a := NewSession(c.conn, b);
      match a.result
      case Err(e) => Step(c, a.result, a.calls)
      case Ok(n) => Step(c.(sessions := c.sessions[n := Busy]), a.result, a.calls)
    else
      match Pick(order, c.sessions)
      case None => Step(c, Err(AllInUse(|c.sessions|)), [])
      case Some(p) =>
        if Expired(now, c.sessions[p]) then
          var rest := c.sessions - {p};
          var a := NewSession(c.conn, b);
          match a.result
          case Err(e) => Step(c.(sessions := rest), a.result, a.calls)
          case Ok(n) => Step(c.(sessions := rest[n := Busy]), a.result, a.calls)
        else
          var marked := c.(sessions := c.sessions[p := Busy]);
          match b.service
          case Refused(e) => Step(marked, Err(ServiceInitFailed(e)), [InitService])
          case Done => Step(marked, Ok(p), [InitService])
  }

  /** `ReleaseSession`: overwrite the record as free, stamped with `now`. */
  function Release(c: Client, name: string, now: Time): (c': Client)
    ensures c'.conn == c.conn && c'.maxSessions == c.maxSessions
    ensures c'.sessions.Keys == c.sessions.Keys + {name}
    ensures IsFree(c'.sessions, name) && c'.sessions[name].lastUsed == now
    ensures forall k :: k in c.sessions && k != name ==> c'.sessions[k] == c.sessions[k]
    ensures name in c.sessions ==> |c'.sessions| == |c.sessions|
    ensures name !in c.sessions ==> |c'.sessions| == |c.sessions| + 1
  {
    c.(sessions := c.sessions[name := Info(false, now)])
  }

  /** `Close`: build the service, then delete every tracked session in
      iteration order, stopping at the first refusal. Returns the error (or
      `None` for nil) and the names a delete was issued for. The pool is not
      an output: Close leaves the map as it was. */
  method Close(c: Client, service: Ack, order: seq<string>, delete: string -> Ack)
    returns (err: Option<Error>, attempted: seq<string>)
    requires IsRangeOrder(order, c.sessions)
    ensures service.Refused? ==> err == Some(ServiceInitFailed(service.cause)) && attempted == []
    ensures |attempted| <= |order| && attempted == order[..|attempted|]
    ensures forall i :: 0 <= i < |attempted| - 1 ==> delete(attempted[i]) == Done
    ensures err.None? <==> service.Done? && forall k :: k in c.sessions ==> delete(k) == Done
    ensures err.None? ==> attempted == order
    ensures err.Some? && service.Done? ==>
              |attempted| > 0 && delete(attempted[|attempted| - 1]).Refused? &&
              err == Some(DeleteFailed(delete(attempted[|attempted| - 1]).cause))
  {
    if service.Refused? {
      return Some(ServiceInitFailed(service.cause)), [];
    }
    attempted := [];
    var i := 0;
    while i < |order|
      invariant 0 <= i <= |order|
      invariant attempted == order[..i]
      invariant forall j :: 0 <= j < i ==> delete(order[j]) == Done
    {
      attempted := attempted + [order[i]];
      if delete(order[i]).Refused? {
        return Some(DeleteFailed(delete(order[i]).cause)), attempted;
      }
      i := i + 1;
    }
    assert attempted == order;
    return None, attempted;
  }
}
