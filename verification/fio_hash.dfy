/**
  The part of the `fio_hash` map library that the registry relies on.

  The library itself is not part of this model. The registry uses only
  `fio_hash_insert`, whose behaviour it assumes to be:
  - inserting `v` under `k` replaces whatever `k` held and returns the
    previous value, or NULL (here: 0) when `k` had no live entry;
  - inserting NULL (here: 0) leaves `k` with no live entry.
  Values are the reference counts the registry casts into `void *`; they
  are modelled as unbounded naturals, with 0 playing the role of NULL.
 */
module FioHash {
  import opened Values

  type Table = map<Value, nat>

  /** The empty table, `FIO_HASH_INIT`. */
  const Empty: Table := map[]

  /**
    The value stored under `k`, or 0 (NULL) when `k` has no entry; in the
    registry, the reference count of `k`.
   */
  function Find(t: Table, k: Value): nat {
    if k in t then t[k] else 0
  }

  /** The keys the library's iteration visits with a non-NULL value. */
  function LiveKeys(t: Table): set<Value> {
    set k | k in t && t[k] != 0
  }

  /**
    `fio_hash_insert(&t, k, v)`: the new table and the value `k` held
    before. Storing 0 removes the entry; no other key is affected.
   */
  function Insert(t: Table, k: Value, v: nat): (r: (Table, nat))
    ensures r.1 == Find(t, k)
    ensures k in r.0 <==> v != 0
    ensures Find(r.0, k) == v
    ensures forall j :: j != k ==> (j in r.0 <==> j in t) && Find(r.0, j) == Find(t, j)
  {
    (if v == 0 then t - {k} else t[k := v], Find(t, k))
  }

  /**
    The last insert wins: a second insert under the same key replaces the
    first one's value, and returns it. Retain and release both rely on this
    when they overwrite their first insert (of 1, or of NULL) with the
    adjusted count.
   */
  lemma InsertLastWins(t: Table, k: Value, a: nat, b: nat)
    ensures Insert(Insert(t, k, a).0, k, b).0 == Insert(t, k, b).0
    ensures Insert(Insert(t, k, a).0, k, b).1 == a
  {
  }
}
