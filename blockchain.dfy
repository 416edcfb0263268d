/** The ledger object: the `Blockchain` class with its two mutable lists, and the decision
    the mine handler takes on a submitted proof. Each method is proved to move the object
    from `old(Current())` to the state the matching function of LedgerSpec gives. */
module Ledger {
  import opened Records
  import opened Hashing
  import opened ProofCheck
  import opened LedgerSpec

  class Blockchain {
    /** The serialiser and digest this ledger hashes with. */
    const hasher: Hasher
    /** `self.chain`. */
    var chain: seq<Block>
    /** `self.current_transactions`: the pending pool. */
    var currentTransactions: seq<Transaction>

    ghost function Current(): State
      reads this
    {
      State(chain, currentTransactions)
    }

    /** The object invariant: the chain is never empty and every index is its position. */
    ghost predicate Valid()
      reads this
    {
      WellFormed(Current())
    }

    /** `__init__`: empty lists, then `new_block(proof=100, previous_hash=1)`. */
    constructor (hasher: Hasher, now: real)
      ensures this.hasher == hasher
      ensures Current() == Initial(hasher, now)
      ensures |chain| == 1 && chain[0].index == 1 && chain[0].proof == GENESIS_PROOF
      ensures chain[0].previousHash == Sentinel && chain[0].transactions == []
      ensures currentTransactions == []
      ensures Valid() && Linked(hasher, chain)
    {
      this.hasher := hasher;
      chain := [];
      currentTransactions := [];
      new;
      var _ := NewBlock(GENESIS_PROOF, Some(Sentinel), now);
      InitialState(hasher, now);
    }

    /** `last_block`: the most recent block, whose index is the chain's length. */
    function LastBlock(): (b: Block)
      reads this
      requires Valid()
      ensures b == chain[|chain| - 1] && b.index == |chain|
    {
      chain[|chain| - 1]
    }

    /** `new_block`: seal the pool into a new block and append it. Without a truthy
        `previousHash` the chain must not be empty (Python would raise IndexError). */
    method NewBlock(proof: int, previousHash: Option<PrevHash>, now: real) returns (block: Block)
      requires Indexed(chain)
      requires Truthy(previousHash) || chain != []
      modifies this
      ensures Current() == AfterSeal(hasher, old(Current()), proof, previousHash, now)
      ensures block == SealedBlock(hasher, old(Current()), proof, previousHash, now)
      ensures Valid() && block == LastBlock()
      ensures old(chain) <= chain && |chain| == |old(chain)| + 1
      ensures block.index == |old(chain)| + 1
      ensures block.transactions == old(currentTransactions) && currentTransactions == []
      ensures Linked(hasher, old(chain)) && previousHash == None ==> Linked(hasher, chain)
    {
      var link := if Truthy(previousHash) then previousHash.value
                  else Digest(Hash(hasher, chain[|chain| - 1]));
      block := Block(|chain| + 1, now, currentTransactions, proof, link);
      currentTransactions := [];
      chain := chain + [block];
      SealAppendsOneBlock(hasher, old(Current()), proof, previousHash, now);
      if Linked(hasher, old(chain)) {
        SealKeepsLinkage(hasher, old(Current()), proof, previousHash, now);
      }
    }

    /** `new_transaction`: append one record to the pool and return the index of the block
        that will hold it if no other seal comes first. */
    method NewTransaction(sender: string, recipient: string, amount: int) returns (nextIndex: int)
      requires Valid()
      modifies this
      ensures Current() == AfterQueue(old(Current()), sender, recipient, amount)
      ensures chain == old(chain)
      ensures currentTransactions == old(currentTransactions) + [Transaction(sender, recipient, amount)]
      ensures nextIndex == |chain| + 1
      ensures Valid()
    {
      currentTransactions := currentTransactions + [Transaction(sender, recipient, amount)];
      nextIndex := LastBlock().index + 1;
    }

    /** The mine handler's decision: hash the last block, check the proof against its
        canonical bytes, and on success seal with that hash and queue the miner's reward.
        A rejected proof changes nothing. */
    method AcceptProofAndSeal(proof: int, minerId: string, now: real) returns (result: MineResult)
      requires Valid()
      modifies this
      ensures Current() == AfterMine(hasher, old(Current()), proof, minerId, now)
      ensures result == MineOutcome(hasher, old(Current()), proof, now)
      ensures result.InvalidProof? <==> !ValidProof(hasher, hasher.dumps(old(LastBlock())), proof)
      ensures result.InvalidProof? ==> chain == old(chain) && currentTransactions == old(currentTransactions)
      ensures result.Forged? ==>
        && chain == old(chain) + [result.block]
        && result.block.previousHash == Digest(Hash(hasher, old(LastBlock())))
        && result.block.transactions == old(currentTransactions)
        && currentTransactions == [Reward(minerId)]
      ensures Valid()
      ensures Linked(hasher, old(chain)) ==> Linked(hasher, chain)
    {
      var previousHash := Hash(hasher, LastBlock());
      var lastBlockString := hasher.dumps(LastBlock());
      if ValidProof(hasher, lastBlockString, proof) {
        var block := NewBlock(proof, Some(Digest(previousHash)), now);
        var _ := NewTransaction(REWARD_SENDER, minerId, REWARD_AMOUNT);
        result := Forged(block);
      } else {
        result := InvalidProof;
      }
      if Linked(hasher, old(chain)) {
        MinePreservesInvariants(hasher, old(Current()), proof, minerId, now);
      }
    }
  }
}
