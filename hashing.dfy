/** The block hash. Serialisation (`json.dumps(block, sort_keys=True).encode()`) and the
    SHA-256 hex digest are library calls whose internals are not modelled: a `Hasher` carries
    them as two total functions, and every property of the ledger holds for any choice of
    them. Because a `Block` is a datatype value, "the same logical block gives the same
    digest, whatever the order its fields were written in" holds by construction. */
module Hashing {
  import opened Records

  datatype Hasher = Hasher(
    /** `json.dumps(block, sort_keys=True).encode()`: the canonical bytes of a block. */
    dumps: Block -> seq<byte>,
    /** `hashlib.sha256(data).hexdigest()`. */
    sha256Hex: seq<byte> -> string)

  /** `Blockchain.hash`: the hex digest of the block's canonical bytes. */
  function Hash(h: Hasher, b: Block): (digest: string)
  {
    h.sha256Hex(h.dumps(b))
  }
}
