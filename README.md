# Client-mining blockchain ledger, in Dafny

This project models the ledger of a single-node toy blockchain whose clients do the mining
(`client_mining_p/blockchain.py`). The node keeps two lists:

- a hash-linked chain of blocks;
- a pool of pending transactions.

Transactions are queued by calling `Blockchain.new_transaction`. Clients submit proofs to
the mine handler. A proof is accepted when the digest of the last block's canonical bytes in
their `b'…'` literal form, followed by the proof, starts with `"000000"`. An accepted
proof seals the pool into a new block and queues a reward for the miner. The reward lands in the
block after the new one.

Modules:

- `Records` (`records.dfy`): `Transaction`, `Block`, and the block's link to its predecessor.
  The link is `PrevHash = Sentinel | Digest(hex)`, because the genesis block stores the integer `1`
  rather than a digest.
- `Hashing` (`hashing.dfy`): `Hash`, the block hash. Canonical serialisation
  (`json.dumps(block, sort_keys=True).encode()`) and `sha256(...).hexdigest()` are library calls.
  They are the two function fields of a `Hasher` value. Every property below holds for every
  choice of them. `Hash` is defined as their composition and carries no contract of its own.
- `ProofCheck` (`proof_check.dfy`): `ValidProof`, the difficulty predicate. The mine handler passes
  the block string already encoded to bytes. So `f'{block_string}{proof}'` embeds Python's literal
  form of a bytes object (`b'...'`, escaped as `bytes.__repr__` does), then `str(proof)`. Both
  renderings are modelled exactly, each with a parser that inverts it.
- `LedgerSpec` (`ledger_spec.dfy`): the ledger's operations as functions on the value
  `State(chain, pool)`, the invariants (non-empty chain, `chain[i].index == i + 1`, hash
  linkage), and the lemmas about them. A `Request` is either `Submit`, a direct call of
  `Blockchain.new_transaction`, or `Mine`, the mine handler's decision on a proof.
- `Ledger` (`blockchain.dfy`): the `Blockchain` class. Its fields `chain` and
  `currentTransactions` are reassigned by its methods. Each method is proved to take
  `old(Current())` to the state the matching `LedgerSpec` function gives.

Points where the model follows the code over its comments or its routes:

- The `valid_proof` docstring (client_mining_p/blockchain.py:105) speaks of three leading zeros,
  but the code compares the first six hex characters. The model uses six.
- `new_transaction` validates nothing, so the model has no missing-field error. The
  `'Missing Values'` check of the `/transactions/new` route (client_mining_p/blockchain.py:142-143)
  refers to an undefined name and is not part of the ledger.
- The difficulty check slices with Python's `[:6]`. A digest shorter than six characters is
  therefore rejected, not an error.
- `previous_hash or self.hash(self.chain[-1])` follows Python truthiness. An empty digest string
  falls back to the hash of the last block. On the mine path that is the same value, so both
  branches store `Digest(Hash(last block))`.

## Model

| member | source | states |
|---|---|---|
| `Ledger.Blockchain.constructor` | client_mining_p/blockchain.py:10-15 | a new ledger holds one block with index 1, proof 100, the sentinel link and no transactions; the pool is empty; the chain is well formed and hash-linked |
| `Ledger.Blockchain.LastBlock` | client_mining_p/blockchain.py:83-85 | the last block is the final chain entry, and its index equals the chain length |
| `Ledger.Blockchain.NewBlock` | client_mining_p/blockchain.py:17-48 | appends exactly one block and returns it as the new last block; its index is the old length + 1; it holds the old pool, which is then empty; the earlier blocks are a prefix of the new chain; a call without a hash keeps a linked chain linked |
| `Ledger.Blockchain.NewTransaction` | client_mining_p/blockchain.py:119-125 | appends one `{sender, recipient, amount}` record to the end of the pool, leaves the chain alone, and returns chain length + 1 |
| `Ledger.Blockchain.AcceptProofAndSeal` | client_mining_p/blockchain.py:174-200 | the result is `InvalidProof` exactly when the proof fails against the last block's canonical bytes, and then nothing changes; otherwise one block linked to the old last block's hash and holding the old pool is appended, and the pool is `[reward]`; validity and hash linkage are preserved |
| `LedgerSpec.InitialState` | client_mining_p/blockchain.py:10-15 | the initial state is the single genesis block (1, now, [], 100, sentinel) with an empty pool, well formed and linked |
| `LedgerSpec.SealAppendsOneBlock` | client_mining_p/blockchain.py:33-45 | sealing adds exactly one block and keeps all earlier blocks; the new block has the next index, the given proof and timestamp, and the whole pool in order; the pool ends empty; the link is the given truthy value or else the hash of the old last block |
| `LedgerSpec.SealKeepsLinkage` | client_mining_p/blockchain.py:38 | on a linked chain, sealing keeps linkage if and only if the stored link is the hash of the old last block; sealing without a hash always keeps it |
| `LedgerSpec.QueueAppendsOne` | client_mining_p/blockchain.py:119-125 | queuing leaves the chain equal, grows the pool by one, keeps the old pool as a prefix and puts the new record last; the returned hint equals chain length + 1 |
| `LedgerSpec.HintNamesNextBlock` | client_mining_p/blockchain.py:125 | if no other seal comes between, the next block sealed has the hinted index and holds the queued record last |
| `LedgerSpec.QueueAll` | client_mining_p/blockchain.py:119-125 | queuing a list of transactions one by one appends exactly that list to the pool and leaves the chain unchanged |
| `LedgerSpec.QueuedThenSealed` | client_mining_p/blockchain.py:36-42 | after N queued transactions and one seal, the block holds the earlier pool followed by exactly those N in order, and the pool is empty |
| `LedgerSpec.AfterMine` | client_mining_p/blockchain.py:177-200 | the mine step only appends: the old chain is a prefix of the new one |
| `LedgerSpec.MineRejected` | client_mining_p/blockchain.py:199-200 | a proof that fails the predicate leaves the state unchanged and yields `InvalidProof` |
| `LedgerSpec.MineAccepted` | client_mining_p/blockchain.py:177-189 | an accepted proof forges one block with the next index, the submitted proof, the old pool and a link to the old last block's hash; the pool then holds only the miner's reward |
| `LedgerSpec.MinePreservesInvariants` | client_mining_p/blockchain.py:177-200 | the mine step keeps the chain non-empty, correctly indexed, hash-linked and append-only |
| `LedgerSpec.RewardLandsInNextBlock` | client_mining_p/blockchain.py:183-189 | the forged block holds the old pool; after more queued transactions, the next forged block holds the first miner's reward followed by those transactions |
| `LedgerSpec.RunPreservesInvariants` | client_mining_p/blockchain.py:174-189 | any sequence of queue and mine requests keeps the chain well formed and hash-linked, and extends the chain it started from |
| `LedgerSpec.ReachableChainsAreLinked` | client_mining_p/blockchain.py:15 | every chain reachable from a fresh ledger is well formed, hash-linked, and starts with the genesis block |
| `Hashing.Hash` | client_mining_p/blockchain.py:50-81 | defined as `sha256Hex(dumps(b))`, the two library calls of lines 67-72; no property beyond this definition is claimed |
| `ProofCheck.ValidProof` | client_mining_p/blockchain.py:102-117 | Python's `[:6]` of the digest of the guess equals `"000000"`: the digest has at least six characters and its first six are `"000000"` |
| `ProofCheck.PrefixIffLeadingZeros` | client_mining_p/blockchain.py:117 | a digest starts with `DIFFICULTY_PREFIX` (`"000000"`) if and only if it starts with at least as many `'0'` characters as that prefix is long (six) |
| `ProofCheck.ValidProofIffSixLeadingZeros` | client_mining_p/blockchain.py:114-117 | a proof is valid if and only if the digest of its guess starts with at least as many `'0'` characters as `DIFFICULTY_PREFIX` is long (six) |
| `ProofCheck.DecimalRoundTrip` | client_mining_p/blockchain.py:114 | the decimal rendering of the proof (`str(proof)`, with a minus sign for negatives) reads back as the proof |
| `ProofCheck.ParseBodyRoundTrip` | client_mining_p/blockchain.py:114 | the escaped body of a bytes literal, followed by its closing quote, reads back as the original bytes and leaves what follows untouched |
| `ProofCheck.Guess` | client_mining_p/blockchain.py:114 | the hashed guess is `str(bytes)` of the block string followed by `str(proof)`, and it parses back into the block string and the proof |
| `ProofCheck.GuessInjective` | client_mining_p/blockchain.py:114 | two guesses are equal if and only if their block strings and proofs are equal |

## Left out

- The Flask layer is not modelled: the routes, `jsonify`, `request.get_json`, status codes,
  `print` and `app.run` (lines 129 and 138-219). This includes the `/chain` read and the
  `/last_block` route. Only the ledger-level effect of the mine handler is modelled.
- The mine handler's check that `proof` and `id` are present (lines 168-169) is not modelled.
  It is request-layer input validation.
- The field check in the `/transactions/new` route (line 142) is not modelled. It refers to an
  undefined name, and the ledger's `new_transaction` does no validation. The route raises
  NameError on every request before reaching `new_transaction` (line 146), so in the program as
  written only mine rewards reach the pool. `LedgerSpec.Request.Submit` stands for a direct call
  of `new_transaction` and so covers more inputs than the running node accepts.
- The node identifier from `uuid4` (line 132) is randomness. The miner id is a parameter.
- `time()` (line 35) is the wall clock. The timestamp is a `real` parameter.
- The internals of SHA-256 and the byte layout of `json.dumps` are not modelled. They are the
  function fields of `Hasher`, so no collision or "a changed field changes the digest" property
  is claimed.
- `Hashing.Hash`: both library calls are uninterpreted, and `Hash` carries no contract.
  Determinism and independence from field order follow from `Block` being a datatype value,
  not from any proof.
- The commented-out `proof_of_work` search loop (lines 87-100) is dead code.
- Concurrency is not modelled. The source has no locking, and the model serves one call at a
  time.
- `Records.Transaction`: `amount` is an `int`. A JSON float amount is not modelled.
- `Records.Block`: `proof` is an `int`, as the genesis block and the predicate use it. Other
  JSON types a client could send are not modelled.
- `Ledger.Blockchain.NewBlock`: requires a truthy `previousHash` or a non-empty chain, so it
  does not model the IndexError that `self.chain[-1]` raises on an empty chain (line 38). No call
  in the source reaches that case: line 15 passes 1 and line 183 passes a digest.
- `Ledger.Blockchain.AcceptProofAndSeal`: the miner id is a `string`. `data['id']` (line 187)
  can be any JSON value; other types are not modelled.
- `ProofCheck.Decimal`: Python's limit on converting integers longer than 4300 digits to
  strings is not modelled.
- The model holds blocks and pools as values. The Python block keeps a reference to the old pool
  list, but nothing mutates that list after the pool is replaced, so no behaviour is lost.
