/**
  Ruby object identities as seen by the GC-protection registry.

  A Ruby `VALUE` is an opaque handle. The registry only distinguishes the
  three immediate singletons `Qnil`, `Qtrue` and `Qfalse` (which are never
  collected and so never need protection) from every other handle, which is
  identified by an abstract id.
 */
module Values {

  datatype Value = Nil | True | False | Obj(id: nat)

  /** The values `storage_add` and `storage_remove` return early for. */
  predicate IsSentinel(v: Value) {
    v.Nil? || v.True? || v.False?
  }
}
