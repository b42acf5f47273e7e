# spannerr session pool, in Dafny

A model of the session pool of `spannerr`, a Go client for Cloud Spanner's REST
interface. A `Client` keeps a map from session name to a record
`{inUse, lastUsed}`. `maxSessions` bounds the map as long as only tracked sessions
are released, and a released session that has
idled for more than 45 minutes is discarded rather than reused. The model covers:

- `AcquireSession`. While the map is below capacity it always creates a session
  ("fill first"). Once full, it looks at the first free record in map iteration
  order. It reuses that record, or replaces it if expired. With no free record it
  fails with the count of sessions.
- `ReleaseSession`. It overwrites the record as free and stamps the release time.
- `Close`. It deletes every tracked session remotely and stops at the first error.
- The loop in `ExecuteSQL` that builds the parameter type and value maps.

Modules:

- `Types`: what the backend can answer (`Ack`, `Created`, `Backend`), the pool's
  `Error`s, the log of remote `Call`s, and the clock. Time is an integer count of
  nanoseconds from Go's zero `time.Time`. `Sub` is `time.Time.Sub`, saturated to
  the 64-bit `time.Duration` range.
- `Pool`: the `Client` state and its operations as pure transition functions.
  Each operation takes the clock (`now`) as a parameter. It also takes the order
  in which Go's `range` visits the map (`order`, any permutation of the keys). The
  backend's answers are parameters too. Each operation is one atomic step, which
  is what the mutex guarantees.
- `PoolProperties`: properties over several calls. The capacity bound holds over
  whole runs that start within capacity and release only sessions the pool
  tracks. A held session is never lent a second time, provided the backend
  never returns a name the pool already tracks and every held session is marked
  in use. Release is idempotent. The expiry boundary is exact. It also proves
  worked scenarios.
- `Params`: the `pTypes`/`pVals` construction in `ExecuteSQL`.

Two behaviours of the code are worth noting:

- The expiry path of Acquire never issues a remote delete for the discarded
  session. `Acquire` states that no `DeleteSession` call is made.
- Releasing an untracked name is not rejected. It inserts a free record, which can
  push the pool over capacity (`ReleaseUntrackedOverflows`).

## Model

| member | source | states |
|---|---|---|
| Types.Sub | spannerr.go:91 | `time.Time.Sub` yields a value within the 64-bit Duration range, and the exact difference whenever that difference is representable. |
| Types.SubKeepsComparison | spannerr.go:91 | Saturating the elapsed time to the Duration range never changes the outcome of comparing it against a bound below the maximum. |
| Pool.NewClient | spannerr.go:59-66 | A new client has an empty session map, keeps `maxSessions`, has a connection path starting with `projects/`, and satisfies the capacity bound. |
| Pool.NewSession | spannerr.go:114-125 | Session creation succeeds exactly when both the service init and the remote Create succeed, and then yields the backend's name. It issues exactly one service init, followed by exactly one Create when the init succeeds. A service failure is reported as a service-init error. A Create failure is reported as a session-create error. No delete is ever issued. |
| Pool.FirstFree | spannerr.go:85-89 | The scan returns the first position holding a free record, with every earlier position not free. When no position is free, it says so. |
| Pool.Pick | spannerr.go:86-99 | Over a permutation of the keys, the record examined is the first free one in that order: it is free and every record before it is in use. There is none exactly when every record is in use. |
| Pool.Expired | spannerr.go:68-91 | A record counts as expired exactly when more than 45 minutes of true elapsed time have passed since its `lastUsed`. |
| Pool.Acquire | spannerr.go:73-112 | Below capacity: a new backend session is inserted as in use, and the map grows by one for a fresh name. On failure nothing changes and the creation error is returned unchanged, with the calls creation issued. Full with all records in use: a count error with the current size, and nothing changes (if and only if). Full with a fresh first pick: that name is marked in use and returned. It stays marked even if service init fails, which is reported as a service-init error, and no session is created. Full with an expired first pick: the pick is removed and a replacement is inserted. On failure the map shrinks by one and the creation error is returned unchanged. No remote delete is issued. In every case, other records are untouched, the capacity bound is kept, and the only new key is the returned name. |
| Pool.Release | spannerr.go:127-133 | The named record becomes free with `lastUsed = now`, and no other record changes. A tracked name keeps the key set and size. An untracked name is inserted, growing the map by one. |
| Pool.Close | spannerr.go:135-156 | If service init fails, nothing is deleted. Deletes follow the iteration order, and every delete before the last attempted one succeeded. The result is nil exactly when service init and every tracked session's delete succeed. Otherwise the error returned is the failing delete's, and later names are not attempted. |
| PoolProperties.RunKeepsCapacity | spannerr.go:73-133 | Any sequence of Acquires and Releases of tracked names keeps the capacity bound and `maxSessions`. |
| PoolProperties.NewClientStaysWithinCapacity | spannerr.go:59-133 | Starting from `NewClient`, the pool never holds more than `maxSessions` sessions (none for a negative value). |
| PoolProperties.AcquireLendsExclusively | spannerr.go:76-109 | If held sessions are marked in use and the backend returns untracked names, a successful Acquire hands out a session nobody holds, and all held sessions stay marked in use. |
| PoolProperties.ReleaseKeepsOthersLent | spannerr.go:129-133 | After a Release, every other held session is still marked in use. |
| PoolProperties.ReleaseTwice | spannerr.go:129-133 | Releasing twice equals releasing once with the later time, and the second release does not change the key set. |
| PoolProperties.ReleaseTrackedKeepsCapacity | spannerr.go:129-133 | Releasing a tracked session keeps the capacity bound. |
| PoolProperties.ReleaseUntrackedOverflows | spannerr.go:129-133 | For every full pool, releasing a name it does not track breaks the capacity bound. |
| PoolProperties.ExpiryIsStrict | spannerr.go:68-91 | A record released at t0 is still fresh at exactly t0 + 45 min and expired one nanosecond later. |
| PoolProperties.OnlyFirstFreeRecordCounts | spannerr.go:85-101 | An expired first free record is replaced even when another free record is fresh. The outcome depends on iteration order. |
| PoolProperties.TwoSessionsThenExhausted | spannerr.go:73-112 | Capacity 2: two Acquires create "s1" and "s2". A third fails reporting 2 and leaves the pool unchanged. |
| PoolProperties.ReuseAfterRelease | spannerr.go:86-133 | From that full pool, after "s1" is released, an Acquire within the timeout hands "s1" back with no Create call, and both sessions are in use again. |
| Params.BuildParams | spannerr.go:169-181 | The type and value maps have exactly the parameters' names as keys. Each name maps to the last parameter with that name: its value, code `Type`, and an array element type present exactly when `ArrayElementType` is non-empty. |

## Left out

- `newSpanner`: constructing the HTTP client, OAuth and App Engine token sources, and the dev-server check are environment and credentials plumbing. Its success or failure is the `service` answer of the backend oracle.
- The remote `Create`, `Delete`, `Commit` and `ExecuteSql` REST calls. Create and Delete are oracles answering with a name, success, or an error. `Session.Commit` and the query call of `ExecuteSQL` are pass-throughs with no pool logic, so they are not modelled.
- The `*spanner.ProjectsInstancesDatabasesSessionsService` binding inside `Session`. A handle is modelled by its session name, and the re-bind on reuse is the `InitService` call.
- `json.Marshal` of the parameter values in `ExecuteSQL`, and its error. It encodes dynamically typed values through a foreign library. `BuildParams` stops at the value map it would encode.
- Params.BuildParams: the source takes `[]*Param`, and a nil element panics when its `ArrayElementType` is read. A sequence of values cannot hold nil, so nil parameters and that panic are not modelled.
- `sync.Mutex` and `context` cancellation. Each operation is one atomic step, and interleavings are not modelled.
- `time.Now()`. The clock is the `now` parameter.
- Go's randomised map iteration order. It is the `order` parameter, required to be a permutation of the keys, and every property holds for every such order.
- Go's `int` width for `maxSessions` and `len`. These are unbounded integers, since no wrap-around is reachable with a map held in memory.
