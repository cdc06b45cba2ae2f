/**
 * The records the transactions workload writes and its checker reads: the
 * operations of a transaction, and the start and end reports of each run.
 */
module Transactions {
  import opened Prelude

  /** `Operation`: a point read, an insert of a value, or a removal, each on one key. */
  datatype Operation =
    | Get(key: seq<Byte>)
    | Insert(key: seq<Byte>, value: seq<Byte>)
    | Remove(key: seq<Byte>)

  /** `Operation::key`: the key the operation touches, whatever its kind. */
  function Key(op: Operation): (k: seq<Byte>)
    ensures op.Get? ==> k == op.key
    ensures op.Insert? ==> k == op.key
    ensures op.Remove? ==> k == op.key
  {
    match op
    case Get(key) => key
    case Insert(key, _) => key
    case Remove(key) => key
  }

  /** An insert's key does not depend on its value. */
  lemma KeyIgnoresValue(key: seq<Byte>, v: seq<Byte>, w: seq<Byte>)
    ensures Key(Insert(key, v)) == Key(Insert(key, w)) == Key(Get(key)) == Key(Remove(key)) == key
  {
  }

  /** `TransactionSpec`: the operations of one transaction, in order. */
  datatype TransactionSpec = TransactionSpec(ops: seq<Operation>)

  /**
   * `TransactionOutput`: a transaction started at a timestamp, or ended at one
   * with the result of each of its operations (`None` for a missing key, and
   * for every operation that is not a Get).
   */
  datatype TransactionOutput =
    | Start(transactionIdx: nat, start: U128)
    | End(transactionIdx: nat, end: U128, getResults: seq<Option<seq<Byte>>>)
}
