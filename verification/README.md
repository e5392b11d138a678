# iodine's Ruby-object GC-protection registry, in Dafny

iodine's native code keeps Ruby objects alive while it holds them outside
Ruby's reachability graph. It does this by registering them in a process-wide
table, `ext/iodine/rb_store.c`. The table maps each object (a Ruby `VALUE`)
to a reference count. `storage_add` retains an object and `storage_remove`
releases it. The collector's mark callback `storage_mark` reports every
protected object as a root. `storage_clear` empties the table when the
wrapping Ruby object is freed. `storage_after_fork` reinitialises the spin
lock in a forked child.

This project models that registry as immutable data with pure functions.
It proves what retain, release, mark and clear mean.

- `values.dfy`, module `Values`: Ruby values, reduced to the three
  sentinels `Qnil`, `Qtrue` and `Qfalse` and an abstract object id.
- `fio_hash.dfy`, module `FioHash`: the behaviour the registry assumes of
  `fio_hash_insert`. The hash-map library is not part of this model. The
  assumption is that an insert replaces the value and returns the previous
  one, or NULL (0) if there was none. Inserting NULL leaves the key with no
  live entry.
- `store.dfy`, module `Store`: the table invariant. Every entry holds a
  count of at least 1, and no sentinel is a key. `Add` and `Remove` are
  built from `Insert` exactly as the C functions are, and `Mark` is a loop
  over the table. The module also holds `Clear` and the algebra of the
  operations: undo lemmas and commutation on distinct objects.
- `refcount.dfy`, module `Refcount`: the meaning of the counts. A valid
  table stands for a multiset of outstanding native references. Retain
  adds one copy and release removes one. Multiset difference never goes
  below zero, which matches the defensive release of an absent object.
  Sequences of calls, as the lock serialises them, are traces, and the
  module proves the counting laws for traces.
- `registry.dfy`, module `Registry`: the table together with the spin
  lock, reduced to free/held. This layer shows that the sentinel test runs
  before `spn_lock`, and that `storage_after_fork` unblocks a child whose
  lock was inherited held.

One might expect that equal numbers of retains and releases of an object,
in any order, leave it unprotected. The code does not meet that
expectation. `storage_remove` drops a release that finds no entry, so a
release that arrives before its retain is lost, and that retain is never
balanced. `Refcount.ReleaseBeforeRetainIsLost` exhibits this.
`Refcount.BalancedTraceCount` proves the counting law under the condition
the code actually needs: no prefix releases the object more often than it
was held.

## Model

| member | source | states |
|---|---|---|
| FioHash.Insert | ext/iodine/rb_store.c:18-20 | the assumed `fio_hash_insert` contract: returns the previous value (0 for NULL), leaves `k` holding `v` with a live entry exactly when `v` is not NULL, and leaves every other key as it was |
| FioHash.InsertLastWins | ext/iodine/rb_store.c:18-31 | a second insert under the same key replaces the first one's value and returns it; retain (lines 18-20) and release (lines 29-31) rely on this when they overwrite their first insert with the adjusted count |
| Store.Add | ext/iodine/rb_store.c:14-21 | retaining a sentinel changes nothing; otherwise the object ends with an entry whose count is its old count plus one (1 if it was absent); no other key's presence or count changes; the invariant is preserved |
| Store.Remove | ext/iodine/rb_store.c:25-32 | releasing a sentinel or an absent object leaves the whole table unchanged; a count above 1 drops by exactly one; a count of 1 removes the entry instead of storing 0; no other key changes; the invariant is preserved |
| Store.Clear | ext/iodine/rb_store.c:77-85 | after teardown nothing is protected: every count is 0, no key is live, and the empty table is valid |
| Store.Mark | ext/iodine/rb_store.c:61-73 | the mark callback reports each key with a non-NULL value, every such key, and no key twice |
| Store.LiveKeysOfValid | ext/iodine/rb_store.c:68-72 | on a valid table the `pos->obj` filter passes every entry: the marked keys are exactly the keys with count at least 1 |
| Store.AddThenRemove | ext/iodine/rb_store.c:18-32 | on any valid table, a release right after a retain of the same object restores the table exactly |
| Store.RemoveThenAdd | ext/iodine/rb_store.c:18-32 | on a valid table, a retain right after a release of an object that has an entry restores the table exactly |
| Store.AddsCommute | ext/iodine/rb_store.c:14-21 | retains of two different objects give the same table in either order |
| Store.RemovesCommute | ext/iodine/rb_store.c:25-32 | releases of two different objects give the same table in either order |
| Store.AddRemoveCommute | ext/iodine/rb_store.c:14-32 | a retain of one object and a release of another give the same table in either order |
| Refcount.EmptyAbstractsNothing | ext/iodine/rb_store.c:7 | the initial `FIO_HASH_INIT` table is valid and stands for no outstanding references |
| Refcount.AbstractionIsInjective | ext/iodine/rb_store.c:14-34 | two valid tables with the same reference multiset are equal, so the counts carry exactly the multiset and nothing else |
| Refcount.MarkedAreOutstanding | ext/iodine/rb_store.c:68-72 | the keys the mark callback reports are exactly the objects with at least one outstanding reference |
| Refcount.RunRefines | ext/iodine/rb_store.c:14-34 | any sequence of retains and releases keeps the table valid and tracks the reference multiset: a retain adds one copy, a release removes one (none if absent), and sentinels count for nothing |
| Refcount.RunPreservesValid | ext/iodine/rb_store.c:14-34 | any sequence of retains and releases keeps every count at least 1 and keeps sentinels out of the table |
| Refcount.SentinelTraceIsNoOp | ext/iodine/rb_store.c:15-27 | any number of retains and releases of `Qnil`, `Qtrue` or `Qfalse` leaves the table unchanged |
| Refcount.BalancedTraceCount | ext/iodine/rb_store.c:18-32 | in any interleaving with calls on other objects, if no prefix over-releases the object, its final count is its initial count plus its retains minus its releases |
| Refcount.ReleaseBeforeRetainIsLost | ext/iodine/rb_store.c:29-30 | one release then one retain of the same object, starting empty, leaves a count of 1: the early release is dropped |
| Refcount.OtherObjectsDoNotInterfere | ext/iodine/rb_store.c:14-34 | calls on other objects never change an object's presence or count |
| Refcount.RetainThenReleaseCount | ext/iodine/rb_store.c:18-32 | N retains then M releases of a non-sentinel object with M at most N raise its count by exactly N minus M; when N equals M the table is restored exactly, so an object that was absent is absent again |
| Registry.Retain | ext/iodine/rb_store.c:14-23 | a sentinel returns at once without touching the lock; any other object returns only when the lock is free, applying `Store.Add` and leaving the lock as it was |
| Registry.Release | ext/iodine/rb_store.c:25-34 | the same for release, applying `Store.Remove` |
| Registry.AfterFork | ext/iodine/rb_store.c:36 | the fork reset frees the lock and leaves the table as it was |
| Registry.Teardown | ext/iodine/rb_store.c:77-86 | clearing returns exactly when the lock is free, and then leaves a free lock and a valid table with nothing live |
| Registry.Mark | ext/iodine/rb_store.c:61-74 | the mark callback returns exactly when the lock is free, and then reports each live key exactly once |
| Registry.AfterForkUnblocks | ext/iodine/rb_store.c:36 | after the fork reset, retain, release and teardown return for every object, acting on the inherited table |
| Registry.InitialIsEmpty | ext/iodine/rb_store.c:110-111 | the registry as initialised has a free lock and a valid table with nothing live |
| Registry.CallsFromHealthyRegistryReturn | ext/iodine/rb_store.c:14-34 | every sequence of retains and releases made with a free lock and a valid table, in particular from the initial registry, returns, leaves the lock free, and yields the valid table of the sequential trace semantics |
| Registry.RetainReleaseKeepRegistryHealthy | ext/iodine/rb_store.c:14-34 | with a free lock and a valid table, retain and release always return, keep the lock free and keep the table valid |

## Left out

- Concurrency: the spin lock is modelled only as free or held between operations. The model treats each operation as atomic because the lock serialises them. Spinning and contention are not modelled.
- `storage_print` and the `IODINE_DEBUG` output: diagnostic `fprintf` I/O only.
- The Ruby VM calls `rb_gc_mark`, `TypedData_Wrap_Struct`, `rb_define_class_under`, `rb_global_variable` and `TYPE()`. They are calls into a runtime that is not part of this model. Mark returns the reported keys instead of calling `rb_gc_mark`.
- The internals of `fio_hashmap.h`: bucket layout, capacity, the 512-slot pre-size in `iodine_storage_init`, slot holes left by NULL inserts, and `fio_hash_compact`. Compaction only rearranges storage, and the table is modelled by its contents alone.
- Counts stored as `uintptr_t` cast to `void *`: counts are unbounded naturals, so overflow past the pointer width is not modelled.
- Allocation failure inside the hash-map library: the library is not part of this model.
- `fio_hash_free` on a table that is already `FIO_HASH_INIT`: `storage_clear` resets the table to `FIO_HASH_INIT` after freeing it (line 84), and the model does the same, so a second teardown yields an empty table again. That freeing an empty, reset table is harmless is assumed of the library.
- Store.Mark: the order of the reports is the library's iteration order and is left unconstrained.
