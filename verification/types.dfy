/** Entities of the transaction-index backfill: the store's block and
    transaction records, the chain node's view, and the driver's results. */
module Types {

  /** Block and transaction hashes are compared by exact equality only. */
  type Hash = string

  datatype Option<T> = None | Some(value: T)

  /** A stored block as the candidate query selects it: its hash, height,
      timestamp (the pagination key), the hashes of its transaction records
      (in the order the store returns them, not chain order) and the block
      hashes of its transaction-fork markers. */
  datatype Block = Block(hash: Hash, number: nat, timestamp: int, txs: seq<Hash>, forks: seq<Hash>)

  /** The `index` column of the transaction table, keyed by transaction hash;
      `None` is SQL null. */
  type IndexTable = map<Hash, Option<int>>

  /** The chain node: block height to the canonical ordered list of that
      block's transaction hashes. A height missing from the map is a block
      the node cannot serve. */
  type Chain = map<nat, seq<Hash>>

  /** One `{ hash, index }` pair produced for the update phase. */
  datatype TxIndex = TxIndex(hash: Hash, index: nat)

  /** Fatal faults that abort the run. */
  datatype Error =
    | BlockNotFound(number: nat)         // the node has no block at that height
    | TxNotFound(hash: Hash, number: nat) // stored hash absent from the chain block

  datatype Result<T> = Ok(value: T) | Err(error: Error)
}
