/** cryptocurrency/fastcoin.py: the Blockchain class with a pool of pending
    transactions and a set of peers. */
module Fastcoin {
  import opened Ledger
  import opened Validation
  import opened Mining

  /** The first candidate the constructor seals: index 1, proof 1, linked to
      "0", carrying the (still empty) pool. */
  function Genesis(now: string): Block
  {
    Block(1, now, 1, "0", Some([]), None)
  }

  class Blockchain {
    /** self.hash: SHA-256 of the sorted-key JSON of the block dict. */
    const hash: Block -> string
    /** urlparse(address).netloc. */
    const netloc: string -> string
    var chain: seq<Block>
    var transactions: seq<Tx>
    var nodes: set<string>

    /** After the constructor the chain is never empty. */
    ghost predicate Valid()
      reads this
    {
      |chain| > 0
    }

    /** The block prepare_block builds for the next position from the pool. */
    function NextCandidate(now: string): Block
      reads this
    {
      Block(|chain| + 1, now, 1, if |chain| == 0 then "0" else hash(chain[|chain| - 1]),
            Some(transactions), None)
    }

    /** __init__: empty chain, pool and peer set, then the genesis block is
        sealed and appended. `now` stands for datetime.now(); `w` is a nonce
        that seals the genesis candidate. */
    constructor (hash: Block -> string, netloc: string -> string, now: string, ghost w: int)
      requires w >= 1 && SealsAt(hash, Genesis(now), w)
      ensures this.hash == hash && this.netloc == netloc && Valid()
      ensures |chain| == 1 && chain[0] == SetProof(Genesis(now), chain[0].proof)
      ensures IsLeastProof(hash, Genesis(now), chain[0].proof)
      ensures MinedChain(hash, chain)
      ensures transactions == [] && nodes == {}
    {
      this.hash := hash;
      this.netloc := netloc;
      chain := [];
      transactions := [];
      nodes := {};
      new;
      var _, genesisBlock := ProofOfWork(now, w);
      var _ := AddBlock(genesisBlock, true);
    }

    /** add_block: appends the block at the tail; returns it unless
        skip_return is set, in which case Python's None comes back. */
    method AddBlock(block: Block, skipReturn: bool) returns (returned: Option<Block>)
      modifies this
      ensures chain == old(chain) + [block]
      ensures returned == if skipReturn then None else Some(block)
      ensures transactions == old(transactions) && nodes == old(nodes)
      ensures Valid()
    {
      chain := chain + [block];
      if !skipReturn {
        returned := Some(block);
      } else {
        returned := None;
      }
    }

    /** prepare_block: the candidate for the next position takes the whole
        pool, in order, and the pool starts over empty, so transactions
        added afterwards go to the next block. */
    method PrepareBlock(proof: int, previousHash: string, now: string) returns (block: Block)
      modifies this
      ensures block.index == |chain| + 1 && block.timestamp == now
      ensures block.proof == proof && block.previousHash == previousHash
      ensures block.transactions == Some(old(transactions)) && block.hashAnnot.None?
      ensures transactions == []
      ensures chain == old(chain) && nodes == old(nodes)
    {
      block := Block(|chain| + 1, now, proof, previousHash, Some(transactions), None);
      transactions := [];
    }

    /** get_previous_block: the last block. On a mined chain its index is
        the depth of the chain. */
    function GetPreviousBlock(): (b: Block)
      reads this
      requires Valid()
      ensures b == chain[|chain| - 1]
      ensures MinedChain(hash, chain) ==> b.index == |chain|
    {
      chain[|chain| - 1]
    }

    /** proof_of_work: prepares the candidate (linked to "0" on the empty
        chain, otherwise to the digest of the last block; the pool moves into
        it) and searches the nonce. The result is the first sealing nonce
        from 1, the block differs from the candidate only in its proof, and
        appending it keeps a mined chain mined. */
    method ProofOfWork(now: string, ghost w: int) returns (newProof: int, newBlock: Block)
      requires w >= 1 && SealsAt(hash, NextCandidate(now), w)
      modifies this
      ensures newBlock.index == |chain| + 1 && newBlock.timestamp == now
      ensures newBlock.previousHash == if |chain| == 0 then "0" else hash(chain[|chain| - 1])
      ensures newBlock.transactions == Some(old(transactions)) && newBlock.hashAnnot.None?
      ensures newBlock.proof == newProof && HasTarget(hash(newBlock))
      ensures newBlock == SetProof(old(NextCandidate(now)), newProof)
      ensures IsLeastProof(hash, old(NextCandidate(now)), newProof)
      ensures (|chain| == 0 || MinedChain(hash, chain)) ==> MinedChain(hash, chain + [newBlock])
      ensures transactions == [] && chain == old(chain) && nodes == old(nodes)
    {
      newProof := 1;
      var candidate: Block;
      if |chain| == 0 {
        var previousHash := "0";
        candidate := PrepareBlock(1, previousHash, now);
      } else {
        var previousHash := hash(chain[|chain| - 1]);
        candidate := PrepareBlock(newProof, previousHash, now);
      }
      newProof, newBlock := Seal(hash, candidate, w);
      if |chain| == 0 || MinedChain(hash, chain) {
        MinedChainExtends(hash, chain, newBlock);
      }
    }

    /** chain_with_block_hashes: writes into every stored block a 'hash' key
        holding the digest of that block as it was just before, and returns
        the (same) chain. Later digests of these blocks include the key. The
        source reads the chain through the module-level `blockchain` object,
        which is the one instance. */
    method ChainWithBlockHashes() returns (annotated: seq<Block>)
      modifies this
      ensures AnnotatedFrom(hash, old(chain), chain)
      ensures annotated == chain
      ensures transactions == old(transactions) && nodes == old(nodes)
    {
      var i := 0;
      while i < |chain|
        invariant 0 <= i <= |chain| == |old(chain)|
        invariant forall k :: 0 <= k < i ==> chain[k] == Annotated(hash, old(chain)[k])
        invariant forall k :: i <= k < |chain| ==> chain[k] == old(chain)[k]
        invariant transactions == old(transactions) && nodes == old(nodes)
      {
        chain := chain[i := Annotated(hash, chain[i])];
        i := i + 1;
      }
      annotated := chain;
    }

    /** add_transaction: appends exactly one transaction at the end of the
        pool and returns the index of the last block plus one, the block the
        transaction is meant for; on a mined chain that is depth + 1. */
    method AddTransaction(sender: string, receiver: string, amount: int) returns (next: int)
      requires Valid()
      modifies this
      ensures chain == old(chain) && nodes == old(nodes)
      ensures transactions == old(transactions) + [Tx(sender, receiver, amount)]
      ensures next == chain[|chain| - 1].index + 1
      ensures MinedChain(hash, chain) ==> next == |chain| + 1
    {
      transactions := transactions + [Tx(sender, receiver, amount)];
      var prevBlock := GetPreviousBlock();
      next := prevBlock.index + 1;
    }

    /** add_node: adds the network location of the address to the peer set;
        adding an address whose location is known already changes nothing. */
    method AddNode(address: string)
      modifies this
      ensures nodes == old(nodes) + {netloc(address)}
      ensures netloc(address) in old(nodes) ==> nodes == old(nodes)
      ensures chain == old(chain) && transactions == old(transactions)
    {
      var parsedUrl := netloc(address);
      nodes := nodes + {parsedUrl};
    }
  }
}
