/**
 * Shared vocabulary of the simulator: optional values (the source's
 * `null` results) and transaction names.
 */
module Common {

  /** A value that may be absent; stands for a nullable Java reference. */
  datatype Option<+T> = None | Some(value: T)

  /**
   * A transaction name. Lock entries use the empty string as "no writer",
   * so the model only admits non-empty names.
   */
  type TxId = s: string | |s| > 0 witness "T"

  /** Map lookup that yields `None` for an absent key (`HashMap.get`). */
  function Get<K, V>(m: map<K, V>, k: K): Option<V>
  {
    if k in m then Some(m[k]) else None
  }

  /**
   * Some element of a non-empty set: one step of iterating over a hash
   * table's keys, whose order the model leaves open.
   */
  method Choose<T>(s: set<T>) returns (x: T)
    requires s != {}
    ensures x in s
  {
    x :| x in s;
  }
}
