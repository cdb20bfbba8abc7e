# Locking resource pool — Dafny model

This project models the resource pool of the `locking_pool` Go package: a
fixed, pre-populated set of interchangeable resources that clients check out
with `Get` or `TryGet` and hand back with `Return`. Beneath its mutex the pool
is a map from each resource to an "in use" flag (`objects map[T]bool`). The
model keeps exactly that state, as an immutable `map<T, bool>` inside the
datatype `Pool<T>`, and turns each operation into a pure transition function:

- `LockingPool.New` builds the map from a list of items, all free. It fails with
  `EmptyItems` on an empty list; the Go code panics there.
- `LockingPool.TryGet` checks out one free resource, or reports `None` and
  leaves the state alone. Go visits map keys in an unspecified order, so the
  model takes that order as a parameter `order`: a duplicate-free listing of
  the keys. `TryGet` picks the first free key in it (`LockingPool.FirstFree`).
  Its own contract says only that the result is *some* free key.
  `PoolProperties.AnyFreeMayBeChosen` shows that every free key is the choice
  under some order, and `PoolProperties.IterationOrderExists` that every key set
  has an order.
- `LockingPool.Get` is modelled on its non-blocking path only: when a
  resource is free, its first `TryGet` succeeds.
- `LockingPool.Return` fails with `UnownedObject` for a value that is not a key;
  the Go code panics there. Otherwise it marks the value free. Returning an
  already-free resource is accepted and changes nothing, as in the code.

Go's zero value `zeroT`, which `TryGet` returns on failure, is replaced by
`Option.None`. A panic becomes `Result.Err`. The caller keeps the state it had
before the failing call, just as a panic leaves the Go map untouched.

Module `PoolProperties` relates the operations:
- the in-use count goes up by one on a successful `TryGet`, down by one on a
  `Return` of a checked-out resource, and stays the same on a `Return` of a
  resource that is already free;
- `TryGet` followed by `Return` restores the pool;
- a checked-out resource is never handed out twice;
- any sequence of calls (`Run`) keeps the key set fixed by `New`, so no more
  resources are ever in use than distinct items were given;
- the single-resource scenario from the package's tests.

## Model

| member | source | states |
|---|---|---|
| LockingPool.New | pool.go:74-91 | fails with EmptyItems exactly when the item list is empty; otherwise the keys are exactly the distinct items and none is in use |
| LockingPool.Fill | pool.go:84-88 | storing `false` under each item in turn yields the old keys plus the items, every item free, and every other entry kept |
| LockingPool.FirstFree | pool.go:35-40 | the scan over the keys in iteration order yields a free key with every key before it in that order checked out, or nothing when every listed key is checked out |
| LockingPool.TryGet | pool.go:31-43 | succeeds exactly when some resource is free; the resource returned was free and is now in use; no other entry and no key changes; on failure the state is unchanged |
| LockingPool.Get | pool.go:45-50 | when a resource is free, Get returns a formerly free resource that is now in use, keeps every other entry, and is the result of its first TryGet |
| LockingPool.Return | pool.go:59-70 | fails with UnownedObject exactly when the value is not a key; otherwise the value is free, the keys and every other entry are unchanged, and returning an already-free value leaves the pool as it was |
| PoolProperties.Run | pool.go:31-70 | a sequence of TryGet and Return calls succeeds exactly when every returned value is owned, fails only with UnownedObject, and never changes the key set |
| PoolProperties.NewPoolSize | pool.go:84-88 | a pool built from n items tracks at most n resources, exactly n when the items are distinct |
| PoolProperties.InUseFreePartition | pool.go:27 | every tracked resource is either in use or free, never both, so the two counts add up to the pool size |
| PoolProperties.TryGetTakesOne | pool.go:35-39 | a successful TryGet adds exactly the returned resource to the in-use set: one more in use, one fewer free |
| PoolProperties.ReturnReleasesOne | pool.go:63-68 | a successful Return removes the value from the in-use set: one fewer in use if it was checked out, the same count if it was already free |
| PoolProperties.TryGetThenReturn | pool.go:35-38 | returning the resource a successful TryGet handed out restores the original pool exactly |
| PoolProperties.NoDoubleAcquire | pool.go:35-38 | a resource that is in use is never the one TryGet returns |
| PoolProperties.AnyFreeMayBeChosen | pool.go:35 | for every free resource there is an iteration order of the keys under which TryGet returns exactly that resource |
| PoolProperties.IterationOrderExists | pool.go:35 | every finite key set can be listed once each in some order, so a `range` over the map, and with it TryGet, is defined on every pool |
| PoolProperties.KeysFixedByNew | pool.go:86-88 | after New and any non-panicking calls, the keys are still exactly the distinct items, and returning a value that was never an item fails |
| PoolProperties.InUseBound | pool.go:86-88 | after New and any non-panicking calls, in-use resources number at most the distinct items, hence at most the items |
| PoolProperties.SingleItemScenario | pool_test.go:10-42 | for the pool {1}: Get returns 1 and marks it in use, TryGet then fails with no change, Return(1) frees it, and TryGet returns 1 again |

## Left out

- The mutex `mu`, the condition variable `cond` and its mutex `condMu` (pool.go:24-26). Each model operation is one atomic step, which is what holding `mu` provides.
- The blocking branch of `Get` (pool.go:52-55): waiting on `cond` and retrying. The possible lost wake-up, caused by waiting under `condMu` rather than `mu`, goes with it. Blocking and wake-up have no meaning in a sequential model.
- `cond.Signal()` in `Return` (pool.go:69): it wakes a waiter and does not touch the pool state.
- PoolProperties.Run: contains no `Get` calls. A `Get` with a free resource equals a successful `TryGet` (see `LockingPool.Get`); a `Get` with none would block.
- The goroutines, channels and timeouts of the tests (pool_test.go:21-30, pool_test.go:44-82). Only their sequential outcomes appear, in `SingleItemScenario`.
- Key equality is taken to be reflexive and every key hashable, as Dafny's `T(==)` equality is. Go's `comparable` also admits floating-point NaN, which never equals itself: there `New` makes one entry per NaN item and `Return` of a NaN handed out by `TryGet` panics, whereas the model collapses equal items and accepts the return (`LockingPool.New`, `LockingPool.Return`, `PoolProperties.TryGetThenReturn`). Interface-typed items holding unhashable values (a slice, say), on which the map insertion in `New` panics at run time, are not modelled either.
- Go's distinction between a nil and an empty slice: both have length 0 and fail the same way.
