/**
  The reference-count table of `ext/iodine/rb_store.c`: retain
  (`storage_add`), release (`storage_remove`), the collector's mark hook
  (`storage_mark`) and teardown (`storage_clear`), as sequential operations
  on an immutable table. Locking is modelled separately, in `Registry`.
 */
module Store {
  import opened Values
  import opened FioHash

  /**
    The registry invariant: every entry holds a count of at least one, and
    no sentinel is ever a key.
   */
  predicate Valid(t: Table) {
    forall k :: k in t ==> t[k] >= 1 && !IsSentinel(k)
  }

  /**
    `storage_add`: insert a count of 1; if a count was already there, put
    back that count plus one.
   */
  function Add(t: Table, obj: Value): (r: Table)
    ensures IsSentinel(obj) ==> r == t
    ensures !IsSentinel(obj) ==> obj in r && Find(r, obj) == Find(t, obj) + 1
    ensures forall k :: k != obj ==> (k in r <==> k in t) && Find(r, k) == Find(t, k)
    ensures Valid(t) ==> Valid(r)
  {
    if IsSentinel(obj) then t
    else
      var (t1, val) := Insert(t, obj, 1);
      if val != 0 then Insert(t1, obj, val + 1).0 else t1
  }

  /**
    `storage_remove`: insert NULL (dropping the entry); if the old count
    was above one, put back that count minus one.
   */
  function Remove(t: Table, obj: Value): (r: Table)
    ensures IsSentinel(obj) ==> r == t
    ensures obj !in t ==> r == t
    ensures !IsSentinel(obj) && Find(t, obj) > 1 ==> obj in r && Find(r, obj) == Find(t, obj) - 1
    ensures !IsSentinel(obj) && Find(t, obj) <= 1 ==> obj !in r
    ensures forall k :: k != obj ==> (k in r <==> k in t) && Find(r, k) == Find(t, k)
    ensures Valid(t) ==> Valid(r)
  {
    if IsSentinel(obj) then t
    else
      var (t1, val) := Insert(t, obj, 0);
      if val > 1 then Insert(t1, obj, val - 1).0 else t1
  }

  /** `storage_clear`: free the table and reset it to `FIO_HASH_INIT`. */
  function Clear(t: Table): (r: Table)
    ensures Valid(r)
    ensures LiveKeys(r) == {}
    ensures forall k :: Find(r, k) == 0
  {
    Empty
  }

  /** No index of `s` holds the same value as another. */
  predicate Distinct<T(==)>(s: seq<T>) {
    forall i, j :: 0 <= i < j < |s| ==> s[i] != s[j]
  }

  /**
    `storage_mark`: visit every entry and report (`rb_gc_mark`) each key
    whose value is not NULL. The reports are returned in visiting order;
    the order itself is the library's and is left unconstrained.
   */
  method Mark(t: Table) returns (marked: seq<Value>)
    ensures Distinct(marked)
    ensures forall k :: k in marked <==> k in t && t[k] != 0
  {
    marked := [];
    var pending := t.Keys;
    while pending != {}
      invariant pending <= t.Keys
      invariant Distinct(marked)
      invariant forall k :: k in marked <==> k in t && k !in pending && t[k] != 0
      decreases pending
    {
      var k :| k in pending;
      if t[k] != 0 {
        marked := marked + [k];
      }
      pending := pending - {k};
    }
  }

  /** On a valid table the live keys are exactly the keys with a positive count. */
  lemma LiveKeysOfValid(t: Table)
    requires Valid(t)
    ensures LiveKeys(t) == t.Keys
    ensures forall k :: k in LiveKeys(t) <==> Find(t, k) >= 1
  {
  }

  /** Two tables with the same entries and the same counts are the same table. */
  lemma Extensionality(x: Table, y: Table)
    requires forall k :: (k in x <==> k in y) && Find(x, k) == Find(y, k)
    ensures x == y
  {
    assert forall k :: k in x ==> x[k] == Find(x, k) == Find(y, k) == y[k];
  }

  /** A release undoes a retain of the same object on a valid table. */
  lemma AddThenRemove(t: Table, obj: Value)
    requires Valid(t)
    ensures Remove(Add(t, obj), obj) == t
  {
    Extensionality(Remove(Add(t, obj), obj), t);
  }

  /** A retain undoes a release of an object that holds an entry. */
  lemma RemoveThenAdd(t: Table, obj: Value)
    requires Valid(t)
    requires obj in t
    ensures Add(Remove(t, obj), obj) == t
  {
    Extensionality(Add(Remove(t, obj), obj), t);
  }

  /**
    Retains and releases of distinct objects commute, so the final table of
    a schedule does not depend on how threads working on different objects
    were interleaved by the lock.
   */
  lemma AddsCommute(t: Table, a: Value, b: Value)
    requires a != b
    ensures Add(Add(t, a), b) == Add(Add(t, b), a)
  {
    var x, y := Add(Add(t, a), b), Add(Add(t, b), a);
    forall k ensures (k in x <==> k in y) && Find(x, k) == Find(y, k) {
    }
    Extensionality(x, y);
  }

  lemma RemovesCommute(t: Table, a: Value, b: Value)
    requires a != b
    ensures Remove(Remove(t, a), b) == Remove(Remove(t, b), a)
  {
    var x, y := Remove(Remove(t, a), b), Remove(Remove(t, b), a);
    forall k ensures (k in x <==> k in y) && Find(x, k) == Find(y, k) {
    }
    Extensionality(x, y);
  }

  lemma AddRemoveCommute(t: Table, a: Value, b: Value)
    requires a != b
    ensures Add(Remove(t, a), b) == Remove(Add(t, b), a)
  {
    var x, y := Add(Remove(t, a), b), Remove(Add(t, b), a);
    forall k ensures (k in x <==> k in y) && Find(x, k) == Find(y, k) {
    }
    Extensionality(x, y);
  }
}
