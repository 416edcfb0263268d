/** The values the ledger stores: transactions, blocks and the link a block keeps to its
    predecessor. Blocks and transactions are never changed after they are built, so they
    are datatypes; the ledger that owns them is a class (module Ledger). */
module Records {

  /** A byte as Python's `bytes` holds it. */
  type byte = x: int | 0 <= x < 256

  datatype Option<+T> = None | Some(value: T)

  /** `{'sender': …, 'recipient': …, 'amount': …}`. */
  datatype Transaction = Transaction(sender: string, recipient: string, amount: int)

  /** The `previous_hash` field of a block. The genesis block stores the integer 1, which is
      not a digest; every other block stores a hex digest. */
  datatype PrevHash = Sentinel | Digest(hex: string)

  /** A sealed block. `timestamp` is the clock reading taken when the block was built. */
  datatype Block = Block(
    index: int,
    timestamp: real,
    transactions: seq<Transaction>,
    proof: int,
    previousHash: PrevHash)
}
