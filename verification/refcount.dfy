/**
  What the registry's counts mean. A valid table is the multiset of
  outstanding native references: retain adds one copy of the object,
  release takes one away (multiset difference never goes below zero, which
  is exactly the defensive "release of an absent object is a no-op"), and
  sentinels are never counted. Sequences of calls, as the lock serialises
  them, are modelled as traces of operations.
 */
module Refcount {
  import opened Values
  import opened FioHash
  import opened Store

  /** `t` holds exactly the multiplicities of `refs`. */
  ghost predicate Abstracts(t: Table, refs: multiset<Value>) {
    forall k :: Find(t, k) == refs[k]
  }

  /** One native call on the registry. */
  datatype Op = Retain(obj: Value) | Release(obj: Value)

  /** The effect of one call on the table. */
  function Step(t: Table, op: Op): Table {
    match op
    case Retain(obj) => Add(t, obj)
    case Release(obj) => Remove(t, obj)
  }

  /** The table after the calls of `ops`, in order. */
  function Run(t: Table, ops: seq<Op>): Table
    decreases |ops|
  {
    if |ops| == 0 then t else Run(Step(t, ops[0]), ops[1..])
  }

  /**
    Reference semantics of one call: a retain adds a copy of its object, a
    release takes one away (none when there is none), and sentinels are
    never counted.
   */
  function RefStep(refs: multiset<Value>, op: Op): multiset<Value> {
    if IsSentinel(op.obj) then refs
    else if op.Retain? then refs + multiset{op.obj}
    else refs - multiset{op.obj}
  }

  /** Reference semantics: the outstanding references after the calls of `ops`. */
  function Outstanding(refs: multiset<Value>, ops: seq<Op>): multiset<Value>
    decreases |ops|
  {
    if |ops| == 0 then refs else Outstanding(RefStep(refs, ops[0]), ops[1..])
  }

  /** The empty table is the empty multiset. */
  lemma EmptyAbstractsNothing()
    ensures Valid(Empty)
    ensures Abstracts(Empty, multiset{})
  {
  }

  /** A valid table is determined by the multiset it stands for. */
  lemma AbstractionIsInjective(a: Table, b: Table, refs: multiset<Value>)
    requires Valid(a) && Valid(b)
    requires Abstracts(a, refs) && Abstracts(b, refs)
    ensures a == b
  {
    forall k ensures (k in a <==> k in b) && Find(a, k) == Find(b, k) {
      assert Find(a, k) == refs[k] == Find(b, k);
    }
    Extensionality(a, b);
  }

  /** The keys the mark hook reports are exactly the objects with an outstanding reference. */
  lemma MarkedAreOutstanding(t: Table, refs: multiset<Value>)
    requires Valid(t) && Abstracts(t, refs)
    ensures forall k :: k in LiveKeys(t) <==> k in refs
  {
  }

  /** Running a trace keeps the table valid and tracks the reference multiset. */
  lemma {:induction false} RunRefines(t: Table, refs: multiset<Value>, ops: seq<Op>)
    requires Valid(t) && Abstracts(t, refs)
    ensures Valid(Run(t, ops))
    ensures Abstracts(Run(t, ops), Outstanding(refs, ops))
    decreases |ops|
  {
    if |ops| > 0 {
      var t' := Step(t, ops[0]);
      var refs' := RefStep(refs, ops[0]);
      forall k ensures Find(t', k) == refs'[k] {
        assert Find(t, k) == refs[k];
      }
      RunRefines(t', refs', ops[1..]);
    }
  }

  /** Retains and releases of sentinels, any number of them, leave the table as it was. */
  lemma {:induction false} SentinelTraceIsNoOp(t: Table, ops: seq<Op>)
    requires forall i :: 0 <= i < |ops| ==> IsSentinel(ops[i].obj)
    ensures Run(t, ops) == t
    decreases |ops|
  {
    if |ops| > 0 {
      assert Step(t, ops[0]) == t;
      SentinelTraceIsNoOp(t, ops[1..]);
    }
  }

  /** `n` retains of `obj` followed by `m` releases of it. */
  function RetainsThenReleases(obj: Value, n: nat, m: nat): seq<Op> {
    seq(n, _ => Retain(obj)) + seq(m, _ => Release(obj))
  }

  /** The number of retains and releases of `obj` in `ops`. */
  function Retains(ops: seq<Op>, obj: Value): nat
    decreases |ops|
  {
    if |ops| == 0 then 0 else (if ops[0] == Retain(obj) then 1 else 0) + Retains(ops[1..], obj)
  }

  function Releases(ops: seq<Op>, obj: Value): nat
    decreases |ops|
  {
    if |ops| == 0 then 0 else (if ops[0] == Release(obj) then 1 else 0) + Releases(ops[1..], obj)
  }

  /**
    No prefix of `ops` releases `obj` more often than the `held` references
    it starts with plus the retains of `obj` before that point.
   */
  predicate NeverOverReleased(held: nat, ops: seq<Op>, obj: Value)
    decreases |ops|
  {
    if |ops| == 0 then true
    else if ops[0] == Retain(obj) then NeverOverReleased(held + 1, ops[1..], obj)
    else if ops[0] == Release(obj) then held >= 1 && NeverOverReleased(held - 1, ops[1..], obj)
    else NeverOverReleased(held, ops[1..], obj)
  }

  /**
    Balanced use: in any interleaving with other objects' calls, if `obj`
    is never released more often than it was retained, its final count is
    its initial count plus its retains minus its releases.
   */
  lemma {:induction false} BalancedTraceCount(t: Table, obj: Value, ops: seq<Op>)
    requires !IsSentinel(obj)
    requires NeverOverReleased(Find(t, obj), ops, obj)
    ensures Find(Run(t, ops), obj) + Releases(ops, obj) == Find(t, obj) + Retains(ops, obj)
    decreases |ops|
  {
    if |ops| > 0 {
      BalancedTraceCount(Step(t, ops[0]), obj, ops[1..]);
    }
  }

  /**
    The balance condition cannot be dropped: a release that arrives before
    its retain is lost, so one retain and one release can leave a count of 1.
   */
  lemma ReleaseBeforeRetainIsLost(o: nat)
    ensures var ops := [Release(Obj(o)), Retain(Obj(o))];
      && Retains(ops, Obj(o)) == Releases(ops, Obj(o)) == 1
      && Find(Run(Empty, ops), Obj(o)) == 1
  {
    var ops := [Release(Obj(o)), Retain(Obj(o))];
    assert ops[1..] == [Retain(Obj(o))];
    assert ops[1..][1..] == [];
    assert Retains(ops, Obj(o)) == Retains(ops[1..], Obj(o)) == 1 + Retains(ops[1..][1..], Obj(o)) == 1;
    assert Releases(ops, Obj(o)) == 1 + Releases(ops[1..], Obj(o)) == 1 + Releases(ops[1..][1..], Obj(o)) == 1;
    assert Step(Empty, ops[0]) == Empty;
    assert Run(Empty, ops) == Run(Empty, ops[1..]) == Add(Empty, Obj(o));
  }

  /** Calls on other objects never change the count of `obj`. */
  lemma {:induction false} OtherObjectsDoNotInterfere(t: Table, obj: Value, ops: seq<Op>)
    requires forall i :: 0 <= i < |ops| ==> ops[i].obj != obj
    ensures obj in Run(t, ops) <==> obj in t
    ensures Find(Run(t, ops), obj) == Find(t, obj)
    decreases |ops|
  {
    if |ops| > 0 {
      OtherObjectsDoNotInterfere(Step(t, ops[0]), obj, ops[1..]);
    }
  }

  /** Any trace keeps a valid table valid. */
  lemma {:induction false} RunPreservesValid(t: Table, ops: seq<Op>)
    requires Valid(t)
    ensures Valid(Run(t, ops))
    decreases |ops|
  {
    if |ops| > 0 {
      RunPreservesValid(Step(t, ops[0]), ops[1..]);
    }
  }

  /** Counting and balance facts for `m` releases of `obj` alone. */
  lemma {:induction false} ReleasesOnly(obj: Value, held: nat, m: nat)
    ensures Retains(seq(m, _ => Release(obj)), obj) == 0
    ensures Releases(seq(m, _ => Release(obj)), obj) == m
    ensures NeverOverReleased(held, seq(m, _ => Release(obj)), obj) <==> m <= held
  {
    var ops := seq(m, _ => Release(obj));
    if m > 0 {
      assert ops[1..] == seq(m - 1, _ => Release(obj));
      if held >= 1 {
        ReleasesOnly(obj, held - 1, m - 1);
      } else {
        ReleasesOnly(obj, 0, m - 1);
      }
    }
  }

  /** Counting and balance facts for `n` retains then `m` releases of `obj`. */
  lemma {:induction false} RetainsThenReleasesFacts(obj: Value, held: nat, n: nat, m: nat)
    ensures Retains(RetainsThenReleases(obj, n, m), obj) == n
    ensures Releases(RetainsThenReleases(obj, n, m), obj) == m
    ensures NeverOverReleased(held, RetainsThenReleases(obj, n, m), obj) <==> m <= held + n
    decreases n
  {
    var ops := RetainsThenReleases(obj, n, m);
    if n == 0 {
      assert ops == seq(m, _ => Release(obj));
      ReleasesOnly(obj, held, m);
    } else {
      assert ops[0] == Retain(obj);
      assert ops[1..] == RetainsThenReleases(obj, n - 1, m);
      RetainsThenReleasesFacts(obj, held + 1, n - 1, m);
    }
  }

  /**
    `n` retains then `m` releases of a non-sentinel object, with `m <= n`:
    its count rises by exactly `n - m`, every other entry is untouched, and
    when `n == m` the table is exactly what it was (so an object that was
    absent is absent again).
   */
  lemma RetainThenReleaseCount(t: Table, obj: Value, n: nat, m: nat)
    requires Valid(t)
    requires !IsSentinel(obj)
    requires m <= n
    ensures Find(Run(t, RetainsThenReleases(obj, n, m)), obj) == Find(t, obj) + n - m
    ensures n == m ==> Run(t, RetainsThenReleases(obj, n, m)) == t
  {
    var ops := RetainsThenReleases(obj, n, m);
    var r := Run(t, ops);
    RetainsThenReleasesFacts(obj, Find(t, obj), n, m);
    BalancedTraceCount(t, obj, ops);
    if n == m {
      RunPreservesValid(t, ops);
      forall k ensures (k in r <==> k in t) && Find(r, k) == Find(t, k) {
        if k != obj {
          OtherObjectsDoNotInterfere(t, k, ops);
        }
      }
      Extensionality(r, t);
    }
  }
}
