/**
  The process-wide registry: the table together with the spin lock that
  serialises every operation on it.

  Operations are modelled one at a time, as the lock serialises them, so
  between operations the lock is free. The one way it can be found held is
  in a child process forked while another thread of the parent held it:
  that thread does not exist in the child, and `spn_lock` would spin
  forever. `storage_after_fork` exists to repair exactly that.
 */
module Registry {
  import opened Values
  import opened FioHash
  import Store
  import Refcount

  datatype Lock = Free | Held

  datatype State = State(lock: Lock, table: Table)

  /** What a call does: it returns a value, or it spins forever on a lock nobody will release. */
  datatype Outcome<T> = Returns(value: T) | Spins

  /** `iodine_storage_init`: an empty table behind a free lock. */
  const Initial: State := State(Free, Empty)

  /**
    `storage_add`. The sentinel test comes before `spn_lock`, so retaining
    a sentinel returns even when the lock is stuck.
   */
  function Retain(reg: State, obj: Value): (r: Outcome<State>)
    ensures IsSentinel(obj) ==> r == Returns(reg)
    ensures !IsSentinel(obj) ==> (r.Returns? <==> reg.lock == Free)
    ensures r.Returns? ==> r.value.lock == reg.lock && r.value.table == Store.Add(reg.table, obj)
  {
    if IsSentinel(obj) then Returns(reg)
    else if reg.lock.Held? then Spins
    else Returns(State(Free, Store.Add(reg.table, obj)))
  }

  /** `storage_remove`, with the same early return for sentinels. */
  function Release(reg: State, obj: Value): (r: Outcome<State>)
    ensures IsSentinel(obj) ==> r == Returns(reg)
    ensures !IsSentinel(obj) ==> (r.Returns? <==> reg.lock == Free)
    ensures r.Returns? ==> r.value.lock == reg.lock && r.value.table == Store.Remove(reg.table, obj)
  {
    if IsSentinel(obj) then Returns(reg)
    else if reg.lock.Held? then Spins
    else Returns(State(Free, Store.Remove(reg.table, obj)))
  }

  /** `storage_after_fork`: reinitialise the lock; the table is inherited as it is. */
  function AfterFork(reg: State): (r: State)
    ensures r.lock == Free
    ensures r.table == reg.table
  {
    State(Free, reg.table)
  }

  /** `storage_clear`: under the lock, free the table and reset it to empty. */
  function Teardown(reg: State): (r: Outcome<State>)
    ensures r.Returns? <==> reg.lock == Free
    ensures r.Returns? ==> r.value.lock == Free && Store.Valid(r.value.table) && LiveKeys(r.value.table) == {}
  {
    if reg.lock.Held? then Spins
    else Returns(State(Free, Store.Clear(reg.table)))
  }

  /** `storage_mark`: under the lock, report every live key once. */
  method Mark(reg: State) returns (r: Outcome<seq<Value>>)
    ensures r.Returns? <==> reg.lock == Free
    ensures r.Returns? ==> Store.Distinct(r.value)
    ensures r.Returns? ==> forall k :: k in r.value <==> k in LiveKeys(reg.table)
  {
    if reg.lock.Held? {
      return Spins;
    }
    var marked := Store.Mark(reg.table);
    return Returns(marked);
  }

  /**
    After the fork reset, retain and release of any object return again,
    and the table they act on is the one inherited from the parent.
   */
  lemma AfterForkUnblocks(reg: State, obj: Value)
    ensures Retain(AfterFork(reg), obj) == Returns(State(Free, Store.Add(reg.table, obj)))
    ensures Release(AfterFork(reg), obj) == Returns(State(Free, Store.Remove(reg.table, obj)))
    ensures Teardown(AfterFork(reg)).Returns?
  {
  }

  /** The registry as initialised: free lock, nothing protected. */
  lemma InitialIsEmpty()
    ensures Initial.lock == Free && Store.Valid(Initial.table)
    ensures LiveKeys(Initial.table) == {}
  {
  }

  /**
    With a free lock and a valid table, retain and release always return,
    leave the lock free and keep the table valid.
   */
  lemma RetainReleaseKeepRegistryHealthy(reg: State, obj: Value)
    requires reg.lock == Free && Store.Valid(reg.table)
    ensures Retain(reg, obj).Returns? && Retain(reg, obj).value.lock == Free
    ensures Store.Valid(Retain(reg, obj).value.table)
    ensures Release(reg, obj).Returns? && Release(reg, obj).value.lock == Free
    ensures Store.Valid(Release(reg, obj).value.table)
  {
  }

  /** The registry after the calls of `ops`, in order, or `Spins` once one of them spins. */
  function RunCalls(reg: State, ops: seq<Refcount.Op>): Outcome<State>
    decreases |ops|
  {
    if |ops| == 0 then Returns(reg)
    else
      var step := if ops[0].Retain? then Retain(reg, ops[0].obj) else Release(reg, ops[0].obj);
      if step.Spins? then Spins else RunCalls(step.value, ops[1..])
  }

  /**
    Every sequence of retains and releases made with a free lock and a
    valid table (in particular from `Initial`) returns, leaves the lock
    free, and leaves the valid table the sequential trace semantics gives.
   */
  lemma {:induction false} CallsFromHealthyRegistryReturn(reg: State, ops: seq<Refcount.Op>)
    requires reg.lock == Free && Store.Valid(reg.table)
    ensures RunCalls(reg, ops) == Returns(State(Free, Refcount.Run(reg.table, ops)))
    ensures Store.Valid(Refcount.Run(reg.table, ops))
    decreases |ops|
  {
    Refcount.RunPreservesValid(reg.table, ops);
    if |ops| > 0 {
      var next := State(Free, Refcount.Step(reg.table, ops[0]));
      assert Store.Valid(next.table);
      CallsFromHealthyRegistryReturn(next, ops[1..]);
    }
  }
}
