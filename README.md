# Object-reuse pool

A Dafny model of the object-reuse pool in `container/pool/pool.go`. The pool
keeps a FIFO list of idle items. Each item holds a value and an expiry
timestamp in milliseconds, where 0 means "never expires". The operations are:

- `Put` stamps the item from the pool's fixed TTL and appends it.
- `Get` pops from the front. It silently drops expired items and returns the first live one. When the list runs out it falls back to `NewFunc` or to a "pool is empty" error.
- `Clear` empties the list, through `ExpireFunc` when one is set.
- `Close` sets a one-way flag.
- `Size` reports the length of the list.
- `checkExpireItems` is the sweep that runs once a second. It destroys the due prefix of an open pool, and drains a closed one.

Files:

- `go_int.dfy` (module `GoInt`): Go's `int64` range and wrap-around, and `Duration.Nanoseconds()/1000000` with Go's truncating division.
- `pool.dfy` (module `ContainerPool`): the `Item` datatype, the pure checks `IsLive` (Get's `expire == 0 || expire > now`) and `IsDue` (the sweep's `expire <= now`), the functions `FirstLive` and `DuePrefix`, and the class `Pool` with one method per operation.
- `pool_properties.dfy` (module `PoolProperties`): lemmas linking the stamp that `Put` computes to what `Get` and the sweep do.
- `pool_scenarios.dfy` (module `PoolScenarios`): short runs of calls, and what their callers can conclude from the contracts.

How the outside world is modelled:

- The item list is a `seq` field. PushBack, PopFront, PushFront, RemoveAll and Len become sequence operations. Each list operation is atomic, so everything is modelled sequentially.
- The wall clock is a `now` parameter.
- `ExpireFunc(v)` appends `v` to the ghost log `destroyed`.
- `NewFunc()` is the parameter `made`, the outcome that one call to it produces. `hasNewFunc` and `hasExpireFunc` record whether each callback was given.
- The scheduler's `timer.Exit()` sets `sweepStopped`, and the sweep invocation ends there. The scheduler runs the sweep only while it is not stopped.

## Model

| member | source | states |
|---|---|---|
| GoInt.Wrap64 | container/pool/pool.go:81 | the `int64` addition in `Put` wraps modulo 2^64, and it is the identity on in-range sums |
| GoInt.Millis | container/pool/pool.go:81 | `TTL.Nanoseconds()/1000000` truncates toward zero: its bounds pin the result to the whole milliseconds in the TTL, rounded toward 0, for both signs |
| GoInt.MillisTruncatesTowardZero | container/pool/pool.go:79-81 | for every negative TTL, Go's quotient equals the Euclidean one when the TTL is a whole number of milliseconds, and is one more otherwise |
| ContainerPool.ExpireAt | container/pool/pool.go:76-82 | the stamp `Put` stores is 0 for a TTL of 0, and otherwise agrees with `now + Millis(TTL)` modulo 2^64, the `int64` sum |
| ContainerPool.IsLive | container/pool/pool.go:109 | Get's test: the stamp is 0 or lies after `now`; for a stamp other than 0 it is exactly the negation of the sweep's test |
| ContainerPool.IsDue | container/pool/pool.go:168 | the negation of the sweep's test `expire > now`; a stamp of 0 is due whenever the clock reads 0 or later, unlike in `Get` |
| ContainerPool.FirstLive | container/pool/pool.go:106-111 | the item `Get` hands out is live, every item ahead of it is expired, and `|s|` means that no item is live |
| ContainerPool.DuePrefix | container/pool/pool.go:160-177 | what one sweep removes is the longest prefix of due items, and the item after it is not due |
| ContainerPool.Pool.constructor | container/pool/pool.go:54-66 | `New` gives an empty open pool with the given TTL and callbacks, and a registered sweep |
| ContainerPool.Pool.Put | container/pool/pool.go:69-85 | a closed pool returns "pool is closed" and leaves the list as it was; an open pool appends exactly one item stamped `ExpireAt(ttl, now)` behind the unchanged earlier items; the TTL-0 invariant is kept |
| ContainerPool.Pool.Clear | container/pool/pool.go:88-101 | the list is empty afterwards; with ExpireFunc every item's value is destroyed once, front to back; without it nothing is destroyed |
| ContainerPool.Pool.Get | container/pool/pool.go:105-120 | an open pool returns the first live item and removes exactly it and the expired items ahead of it, without destroying them, and the rest stays; a closed or exhausted pool returns NewFunc's outcome verbatim without storing it, or "pool is empty"; a closed pool pops nothing; on an open pool with TTL 0 (every stamp 0, by the class invariant) a non-empty list gives up its front item |
| ContainerPool.Pool.Size | container/pool/pool.go:123-125 | `Size` is the length of the idle list |
| ContainerPool.Pool.Close | container/pool/pool.go:130-132 | the pool is closed afterwards; no other method writes the flag, so it stays closed |
| ContainerPool.Pool.CheckExpireItems | container/pool/pool.go:135-179 | closed pool: drains everything through ExpireFunc in order (or leaves the list if there is none) and stops the sweep; open pool with TTL 0 or a clock below -1: nothing changes; otherwise exactly the due prefix is removed and destroyed in order, and the remaining list is the untouched suffix |
| PoolProperties.ExpireAtNoWrap | container/pool/pool.go:76-82 | for a real clock reading the stamp is 0 when the TTL is 0 and is `now + Millis(TTL)` otherwise, with no wrap-around |
| PoolProperties.DueOnInsertion | container/pool/pool.go:50-53 | a negative TTL, or a positive TTL under 1 ms, stamps the item no later than its insertion time, so it is due for the sweep from then on and dropped by `Get` unless the stamp is 0 |
| PoolProperties.LiveUntilDeadline | container/pool/pool.go:53 | with a TTL of at least 1 ms the item is live for `Get` exactly before `now + Millis(TTL)` and due for the sweep exactly from that time on |
| PoolProperties.NeverExpiringFront | container/pool/pool.go:51 | items stamped 0, which are all items of a TTL-0 pool, are never dropped: `Get` takes the front |
| PoolProperties.FirstLiveAppend | container/pool/pool.go:83 | appending at the back does not change the item `Get` picks when it would already pick one; otherwise `Get` picks the new item if it is live |
| PoolProperties.GetDropsOnlyDue | container/pool/pool.go:109 | every item `Get` drops silently lies inside the prefix that a sweep at the same time would destroy |
| PoolProperties.SweepIdempotent | container/pool/pool.go:168-171 | a second sweep at the same time removes nothing more |
| PoolProperties.SweepMonotoneInTime | container/pool/pool.go:159-168 | a later sweep removes at least as many items as an earlier one |
| PoolProperties.SweptFrontIsLive | container/pool/pool.go:168-170 | after a sweep that leaves items, a `Get` at the same time takes the front item |
| PoolScenarios.RecycleWithoutTtl | container/pool/pool.go:76-77 | with TTL 0, `Put(x)` and then a `Get` at any later time returns `x` and leaves the pool empty |
| PoolScenarios.GetFromNewPool | container/pool/pool.go:116-119 | `Get` on a new pool returns NewFunc's outcome, or "pool is empty" when there is no NewFunc, and stores nothing |
| PoolScenarios.PutAfterClose | container/pool/pool.go:70-72 | after `Close`, every `Put` fails with "pool is closed" and the pool stays empty |
| PoolScenarios.SizeCountsPuts | container/pool/pool.go:123-125 | after n successful `Put`s, `Size` is n |
| PoolScenarios.ClearDestroysEach | container/pool/pool.go:89-96 | `Put(a); Put(b); Clear()` with ExpireFunc destroys `a` and then `b` and empties the pool |
| PoolScenarios.CloseDrainsThroughSweep | container/pool/pool.go:136-148 | after `Close`, the next sweep passes every stored value to ExpireFunc exactly once, in order, and stops itself |
| PoolScenarios.NegativeTtlSweptNext | container/pool/pool.go:52 | an item put with a negative TTL and not taken is destroyed by the next sweep |

## Left out

- Concurrency: the list's internal locking and the atomic `closed` flag are not modelled. Each list operation is treated as atomic and each pool operation runs to completion alone. Interleavings of `Get`, `Put` and the sweep are not covered.
- Scheduler: `timer.AddSingleton` is represented only by `sweepStopped` being false after construction. `timer.Exit` is modelled as ending the sweep invocation. Code after `timer.Exit()` is not modelled, because the scheduler package is not part of this model.
- ContainerPool.Pool.Get: reads the clock once per call. Go reads `vtime.TimestampMilli()` again for every popped item, so a clock that advances during one `Get` is not captured.
- Configuration: `TTL`, `NewFunc` and `ExpireFunc` are exported fields in Go that a caller may reassign after `New`. The model fixes all three at construction. It does not cover reassigning them later, such as setting `p.ExpireFunc = f` after `New(ttl, nil)`, or changing the TTL, which would break the TTL-0 invariant.
- Callbacks: `NewFunc` and `ExpireFunc` are abstract. Their side effects, panics, and a NewFunc that returns both a value and an error are not modelled.
- Clock: the wall clock `vtime.TimestampMilli` is a parameter. The lemmas take it to be a reading between 0 and `MaxInt64 / 1000000` ms.
- Other packages in the repository are outside the pool and are not modelled: HTTP signing, file-size formatting (floating point), the circuit breaker (locks and random floats), the database clients, and console input.
