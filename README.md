# Consume-once TTL key/value store

This project models `KVMemoryStore` from `store.go`. It is an in-memory key/value store. Each
value is evicted the first time a `Get` reads it, or when its time-to-live (TTL) runs out,
whichever comes first.

- `Put(key, value)` stores a fresh entry under the key, replacing any older one. It starts one
  expiry watcher (a `removeValueAfterTimeout` goroutine) for that entry.
- `Get(key)` loads the entry. If there is one, it calls `Remove(key)`, sends on the entry's
  `read` channel so that the watcher stops, and returns `(value, true)`. Otherwise it returns
  `(nil, false)`.
- `Remove(key)` deletes the key unconditionally. It tells no watcher.
- A watcher waits for the signal or for `ttl`. On the signal it returns. On timeout it calls
  `Remove(key)`. That deletes whatever entry is stored under the key at that moment, which may
  be a newer entry from a later `Put`.

The model is sequential and has three files:

- `store_spec.dfy`, module `StoreSpec`: the store as a value (`State`) with one transition
  function per operation (`Put`, `Get`, `Remove`, `Fire`, `Advance`). It also holds the store
  invariant `Inv` and the lemmas about all of these.
- `store.dfy`, module `Store`: class `KVMemoryStore`. Its fields are the entry map (the
  `sync.Map`), the pending watchers, a logical clock `now` and an identity counter. Each method's
  `ensures` equates the new `Model()` with the `StoreSpec` transition applied to the old one.
- `store_test.dfy`, module `StoreTest`: client methods that replay the scenarios of
  `store_test.go` against the class contracts.

Modelling choices:

- Time is an `int` count of nanoseconds, as `time.Duration` is. `Second` is 10^9 and
  `DefaultTtl` is 30 seconds. A store starts at time 0. `Advance(d)` moves the clock forward by
  `d` and then runs, one at a time, every watcher that may finish.
- Each entry gets an identity from a counter. The identity stands for the entry's private
  `read` channel. The watcher record `(key, deadline, consumed)` is filed under the same
  identity.
- A watcher may finish once it has been signalled or once `deadline <= now`. The context
  expires when its deadline is reached.
- The send in `Get` is modelled as setting the watcher's `consumed` flag. A signalled watcher
  stays in the collection until the next `Advance`, and is then dropped without touching the
  entries.
- `Get` requires the store invariant. The unbuffered send on `store.go:48` completes only when
  the entry's watcher, still waiting in its `select`, takes it. The invariant says that it is: every stored entry has its own
  pending, unsignalled watcher. `ReachableEntriesHaveReceivers` proves the invariant holds in
  every state a new store can reach.
- Removal on timeout is by key, exactly as `store.go:74` does it. A stale watcher from an
  overwritten `Put` therefore deletes the newer entry. The same happens after an explicit
  `Remove`, which tells no watcher. `StaleWatcherDeletesNewerEntry` and
  `StoreTest.StaleWatcherEvictsNewerPut` exhibit this. An identity-checked delete would avoid it.
  That is a different program and is not modelled.
- A value can survive until its TTL only if no older unsignalled watcher on the same key falls
  due first. `PresentBeforeTtl` and `PresentBeforeTtlRun` therefore carry that precondition. In a
  fresh store, the one `store_test.go` uses, it holds trivially.
- The expiry lemmas come in two forms. `GoneAfterTtl` and `PresentBeforeTtl` cover a `Put`
  followed by one wait. `GoneAfterTtlRun` and `PresentBeforeTtlRun` cover a `Put` followed by any
  sequence of operations (`Run`): time may pass in several steps, and other keys may be put, read
  and removed in between. `Elapsed(ops)` is the total time those steps let pass.

## Model

The transition functions `StoreSpec.Put`, `StoreSpec.Get`, `StoreSpec.Remove`, `StoreSpec.Fire`
and `StoreSpec.Advance` carry no contracts of their own. They are the specifications of the class
methods of the same names (`Fire` for `RemoveValueAfterTimeout`), and the class rows below stand
for them. The lemmas state what the transition functions mean.

| member | source | states |
|---|---|---|
| StoreSpec.NewIsEmpty | store.go:33-38 | a new store keeps the given TTL, has no entries and no watchers, and satisfies the invariant |
| StoreSpec.FirePreservesInv | store.go:66-76 | a finishing watcher keeps the invariant, whether it was signalled or timed out |
| StoreSpec.Apply | store.go:40-76 | any one of Put, Get, Remove or the passing of time with its due watchers, applied to a valid store, gives a valid store: every stored entry still has its own pending, unsignalled watcher and every identity is below the counter; the TTL is unchanged and the clock does not go back |
| StoreSpec.Run | store.go:40-76 | any sequence of operations on a valid store gives a valid store with the same TTL and a clock that has not gone back |
| StoreSpec.ReachableEntriesHaveReceivers | store.go:46-48 | in every state a new store can reach, each stored entry's watcher is pending and unsignalled, so the send in Get has a receiver |
| StoreSpec.GetAbsent | store.go:40-44 | Get on an absent key returns None and leaves entries and watchers unchanged |
| StoreSpec.GetPresent | store.go:40-50 | Get on a present key returns its value, deletes exactly that key, and marks exactly that entry's watcher signalled |
| StoreSpec.PutThenGet | store.go:52-57 | Put(k, v) then Get(k) returns v; afterwards k is absent and every other key is as before the Put |
| StoreSpec.GetConsumes | store.go:46 | right after a Get, a second Get on the same key returns None and changes nothing |
| StoreSpec.GetOtherKeys | store.go:46 | Get on one key leaves every other key's lookup unchanged |
| StoreSpec.PutReplaces | store.go:57 | Put stores v at k whatever was there, leaves every other key's entry unchanged, and adds only k to the key set |
| StoreSpec.RemoveDeletes | store.go:62-64 | Remove leaves no entry at k, changes no other key, is a no-op on an absent key, and signals no watcher |
| StoreSpec.PutRemoveGet | store_test.go:23-33 | Put(k, v), Remove(k), then Get(k) finds nothing |
| StoreSpec.ConsumedWatcherHasNoEffect | store.go:70-72 | a signalled watcher finishes without touching the entries and only leaves the watcher collection |
| StoreSpec.TimeoutDeletesByKey | store.go:73-74 | an unsignalled watcher that times out deletes its key, whatever entry is stored there now |
| StoreSpec.GoneAfterTtl | store.go:67-74 | a Put followed directly by one wait of at least ttl: the value is gone |
| StoreSpec.PresentBeforeTtl | store.go:67-74 | a Put followed directly by one wait shorter than ttl, with no older unsignalled watcher on the key falling due within it: the value is still there |
| StoreSpec.NonPositiveTtlExpiresAtNextAdvance | store.go:66-74 | with a TTL of zero or less the new watcher is due at once, the value is still readable right after the Put, and it is gone after the next Advance, even one of zero |
| StoreSpec.GoneByDeadline | store.go:67-74 | from a valid state, through any run with no Put on k and a final wait: if the entry at k has its watcher due by the end, k is absent afterwards |
| StoreSpec.GoneAfterTtlRun | store.go:67-74 | Put(k, v), then any operations with no Put on k, then a final wait, with at least ttl passed in all: k is absent |
| StoreSpec.PresentWhileNoWatcherDue | store.go:67-74 | from a valid state holding v at k, through any run that never puts, gets or removes k, during which no unsignalled watcher on k falls due: k still holds v |
| StoreSpec.PresentBeforeTtlRun | store.go:67-74 | Put(k, v), then any operations on other keys and waits totalling less than ttl, with no older unsignalled watcher on k falling due within them: k still holds v |
| StoreSpec.StaleWatcherDeletesNewerEntry | store.go:74 | Put(k, v1), wait d1, Put(k, v2), wait d2, with d1 < ttl <= d1 + d2 and d2 < ttl: v2 is gone, although its own watcher is still pending, unsignalled and due only at d1 + ttl |
| Store.KVMemoryStore.constructor | store.go:34-37 | the new store holds the given TTL, an empty map and no watchers, and is valid |
| Store.NewKVStoreWithTtl | store.go:33-38 | returns a fresh, valid, empty store with the given TTL |
| Store.NewKVStore | store.go:29-31 | returns a fresh, valid, empty store with the thirty-second default TTL |
| Store.KVMemoryStore.Get | store.go:40-50 | returns the lookup of the key in the old state; the new state is that of StoreSpec.Get: key removed and its watcher signalled; the invariant is kept |
| Store.KVMemoryStore.Put | store.go:52-60 | the new state is StoreSpec.Put of the old one: fresh entry stored, its watcher started with deadline now + ttl; the invariant is kept |
| Store.KVMemoryStore.Remove | store.go:62-64 | the new state is the old one without the key; watchers untouched; the invariant is kept |
| Store.KVMemoryStore.RemoveValueAfterTimeout | store.go:66-76 | watcher id leaves the collection, having removed its key if it was not signalled; the invariant is kept |
| Store.KVMemoryStore.Advance | store.go:67-74 | after running every due watcher one at a time, in any order, the state is StoreSpec.Advance of the old one: clock moved on, keys of unsignalled due watchers deleted, due watchers gone |
| StoreTest.PutAndGet | store_test.go:8-21 | Put("foo", "bar") then Get("foo") returns "bar" |
| StoreTest.RemoveThenGet | store_test.go:23-33 | Put, Remove, Get returns nothing |
| StoreTest.ValueRemovedAfterGet | store_test.go:35-49 | the first Get returns "bar" and the second returns nothing |
| StoreTest.PresentBeforeTimeout | store_test.go:51-61 | with a 4 s TTL, a Get 2 s after the Put returns "bar" |
| StoreTest.RemovedAfterTimeout | store_test.go:63-73 | with a 2 s TTL, a Get 4 s after the Put returns nothing |
| StoreTest.PutAndGetManyKeys | store_test.go:75-94 | with n distinct keys i put with value i + 1, each Get(i) one second later returns exactly i + 1 |
| StoreTest.ExpiryAcrossSteps | store.go:67-74 | with a 2 s TTL: Put k, wait 1 s, Put k2, wait 1 s; Get(k) finds nothing and Get(k2) returns its value |
| StoreTest.StaleWatcherEvictsNewerPut | store.go:74 | with a 2 s TTL: Put v1, wait 1.9 s, Put v2, wait 0.2 s; the Get finds nothing, because v1's watcher deleted v2 |

## Left out

- Goroutines and the thread-safety of `sync.Map` are not modelled. The model is sequential. The
  non-atomic load-then-delete in `Get` (`store.go:41`, `store.go:46`) therefore cannot race.
- The blocking of the unbuffered send on `store.go:48` is not modelled. `Get` hangs there if the
  entry's watcher has already timed out and left. In the model that cannot happen, because
  `Advance` runs every due watcher at the moment time passes. `ReachableEntriesHaveReceivers`
  shows that every stored entry's watcher is then still waiting.
- When the signal and the timeout are both ready, the `select` on `store.go:70-75` picks one case
  at random. The model always lets the signal win: the watcher is marked signalled and later
  returns without effect. The other outcome is not modelled. In it the watcher removes the key
  and exits, and the `Get` blocks forever at `store.go:48`.
- Real time and `context.WithTimeout` (`store.go:67`) are not modelled. A logical clock and
  `Advance` replace them. Watchers run only inside `Advance`. The model does not capture a
  watcher that runs late, after its deadline, while other operations go on. The one exception is
  a TTL of zero or less, on the next line.
- With a TTL of zero or less, the context on `store.go:67` has already expired when it is
  created. In Go, a `Get` right after the `Put` may then find nothing, because the watcher ran
  first. It may also win the load and then block at `store.go:48`. The model keeps the entry
  until the next `Advance`, so such a `Get` returns the value. That is a third outcome Go allows:
  the watcher has not run yet and its `select` takes the signal. The first two outcomes are not
  modelled. `NonPositiveTtlExpiresAtNextAdvance` states what the model does.
- `time.Duration` is 64 bits wide. The model's deadlines `now + ttl` are unbounded integers and
  do not saturate.
- The `KVStore` interface is not modelled as a separate type. Its three methods are those of the
  class.
- The `interface{}` keys and values and the type assertion on `store.go:47` are not modelled.
  Keys and values are type parameters.
- A signalled watcher has received the signal by the time `Get` returns, but may return a little
  later. The model drops it at the next `Advance`. The entries do not differ.
- StoreSpec.PresentBeforeTtl: requires that no older unsignalled watcher on the key falls due
  within the wait. Without that condition the property is false for this code, as
  StoreSpec.StaleWatcherDeletesNewerEntry shows.
- StoreSpec.PresentBeforeTtlRun: carries the same condition, over the whole run, for the same
  reason.
