/** blockchain/blockchain_v2.py: the Blockchain class with hash-linking,
    proof-of-work sealing and validation; blocks carry no transactions. */
module BlockchainV2 {
  import opened Ledger
  import opened Validation
  import opened Mining

  /** The first candidate the constructor seals: index 1, proof 1, linked to
      "0", no 'transactions' key. */
  function Genesis(now: string): Block
  {
    Block(1, now, 1, "0", None, None)
  }

  class Blockchain {
    /** self.hash: SHA-256 of the sorted-key JSON of the block dict. */
    const hash: Block -> string
    var chain: seq<Block>

    /** After the constructor the chain is never empty. */
    ghost predicate Valid()
      reads this
    {
      |chain| > 0
    }

    /** The block prepare_block builds for the next position. */
    function NextCandidate(now: string): Block
      reads this
    {
      Block(|chain| + 1, now, 1, if |chain| == 0 then "0" else hash(chain[|chain| - 1]), None, None)
    }

    /** __init__: starts from the empty chain, seals the genesis block and
        appends it. `now` stands for datetime.now(); `w` is a nonce that
        seals the genesis candidate. */
    constructor (hash: Block -> string, now: string, ghost w: int)
      requires w >= 1 && SealsAt(hash, Genesis(now), w)
      ensures this.hash == hash && Valid()
      ensures |chain| == 1 && chain[0] == SetProof(Genesis(now), chain[0].proof)
      ensures IsLeastProof(hash, Genesis(now), chain[0].proof)
      ensures MinedChain(hash, chain)
    {
      this.hash := hash;
      chain := [];
      new;
      var _, genesisBlock := ProofOfWork(now, w);
      var _ := AddBlock(genesisBlock);
    }

    /** add_block: appends the block at the tail and returns that same block;
        the skip_return flag has no effect in this variant. */
    method AddBlock(block: Block) returns (added: Block)
      modifies this
      ensures chain == old(chain) + [block] && added == block
      ensures Valid()
    {
      chain := chain + [block];
      added := block;
    }

    /** prepare_block: the candidate for the next position; it only reads
        the chain. */
    method PrepareBlock(proof: int, previousHash: string, now: string) returns (block: Block)
      ensures block.index == |chain| + 1 && block.timestamp == now
      ensures block.proof == proof && block.previousHash == previousHash
      ensures block.transactions.None? && block.hashAnnot.None?
    {
      block := Block(|chain| + 1, now, proof, previousHash, None, None);
    }

    /** get_previous_block: the last block. On a mined chain its index is
        the depth of the chain. */
    function GetPreviousBlock(): (b: Block)
      reads this
      requires Valid()
      ensures b == chain[|chain| - 1]
      ensures MinedChain(hash, chain) ==> b.index == |chain|
    {
      chain[|chain| - 1]
    }

    /** proof_of_work: prepares the candidate (linked to "0" on the empty
        chain, otherwise to the digest of the last block) and searches the
        nonce. It changes no state in this variant. The result is the first
        sealing nonce from 1, the block differs from the candidate only in
        its proof, and appending it keeps a mined chain mined. */
    method ProofOfWork(now: string, ghost w: int) returns (newProof: int, newBlock: Block)
      requires w >= 1 && SealsAt(hash, NextCandidate(now), w)
      ensures newBlock.index == |chain| + 1 && newBlock.timestamp == now
      ensures newBlock.previousHash == if |chain| == 0 then "0" else hash(chain[|chain| - 1])
      ensures newBlock.transactions.None? && newBlock.hashAnnot.None?
      ensures newBlock.proof == newProof && HasTarget(hash(newBlock))
      ensures newBlock == SetProof(NextCandidate(now), newProof)
      ensures IsLeastProof(hash, NextCandidate(now), newProof)
      ensures (|chain| == 0 || MinedChain(hash, chain)) ==> MinedChain(hash, chain + [newBlock])
    {
      newProof := 1;
      var candidate: Block;
      if |chain| == 0 {
        var previousHash := "0";
        candidate := PrepareBlock(1, previousHash, now);
      } else {
        var previousHash := hash(chain[|chain| - 1]);
        candidate := PrepareBlock(newProof, previousHash, now);
      }
      newProof, newBlock := Seal(hash, candidate, w);
      if |chain| == 0 || MinedChain(hash, chain) {
        MinedChainExtends(hash, chain, newBlock);
      }
    }

    /** chain_with_block_hashes: writes into every stored block a 'hash' key
        holding the digest of that block as it was just before, and returns
        the (same) chain. Later digests of these blocks include the key. The
        source reads the chain through the module-level `blockchain` object,
        which is the one instance. */
    method ChainWithBlockHashes() returns (annotated: seq<Block>)
      modifies this
      ensures AnnotatedFrom(hash, old(chain), chain)
      ensures annotated == chain
    {
      var i := 0;
      while i < |chain|
        invariant 0 <= i <= |chain| == |old(chain)|
        invariant forall k :: 0 <= k < i ==> chain[k] == Annotated(hash, old(chain)[k])
        invariant forall k :: i <= k < |chain| ==> chain[k] == old(chain)[k]
      {
        chain := chain[i := Annotated(hash, chain[i])];
        i := i + 1;
      }
      annotated := chain;
    }
  }
}
