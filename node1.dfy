/** cryptocurrency/node1.py: the Blockchain class of fastcoin.py plus a
    snapshot of the chain (the bz2/pickle file 'chain_bk_1'), listing the
    chain from that snapshot, and the longest-chain rule. */
module Node1 {
  import opened Ledger
  import opened Validation
  import opened Mining
  import opened Consensus

  /** The first candidate the constructor seals: index 1, proof 1, linked to
      "0", carrying the (still empty) pool. */
  function Genesis(now: string): Block
  {
    Block(1, now, 1, "0", Some([]), None)
  }

  class Blockchain {
    /** self.hash: SHA-256 of the sorted-key JSON of the block dict. */
    const hash: Block -> string
    /** urlparse(address).netloc. */
    const netloc: string -> string
    var chain: seq<Block>
    var transactions: seq<Tx>
    var nodes: set<string>
    /** The content of the snapshot file as last written by backup_chain. */
    var backup: seq<Block>

    /** After the constructor the chain is never empty and the snapshot
        always holds the current chain. */
    ghost predicate Valid()
      reads this
    {
      |chain| > 0 && backup == chain
    }

    /** The block prepare_block builds for the next position from the pool. */
    function NextCandidate(now: string): Block
      reads this
    {
      Block(|chain| + 1, now, 1, if |chain| == 0 then "0" else hash(chain[|chain| - 1]),
            Some(transactions), None)
    }

    /** __init__: empty chain, pool and peer set, then the genesis block is
        sealed and appended, and the chain is written to the snapshot.
        `now` stands for datetime.now(); `w` is a nonce that seals the
        genesis candidate. */
    constructor (hash: Block -> string, netloc: string -> string, now: string, ghost w: int)
      requires w >= 1 && SealsAt(hash, Genesis(now), w)
      ensures this.hash == hash && this.netloc == netloc && Valid()
      ensures |chain| == 1 && chain[0] == SetProof(Genesis(now), chain[0].proof)
      ensures IsLeastProof(hash, Genesis(now), chain[0].proof)
      ensures MinedChain(hash, chain)
      ensures transactions == [] && nodes == {}
    {
      this.hash := hash;
      this.netloc := netloc;
      chain := [];
      transactions := [];
      nodes := {};
      backup := [];
      new;
      var _, genesisBlock := ProofOfWork(now, w);
      var _ := AddBlock(genesisBlock, true);
      BackupChain();
    }

    /** add_block: appends the block at the tail and rewrites the snapshot;
        returns the block unless skip_return is set (Python's None). */
    method AddBlock(block: Block, skipReturn: bool) returns (returned: Option<Block>)
      modifies this
      ensures chain == old(chain) + [block] && backup == chain
      ensures returned == if skipReturn then None else Some(block)
      ensures transactions == old(transactions) && nodes == old(nodes)
      ensures Valid()
    {
      chain := chain + [block];
      BackupChain();
      if !skipReturn {
        returned := Some(block);
      } else {
        returned := None;
      }
    }

    /** prepare_block: the candidate for the next position takes the whole
        pool, in order, and the pool starts over empty, so transactions
        added afterwards go to the next block. */
    method PrepareBlock(proof: int, previousHash: string, now: string) returns (block: Block)
      modifies this
      ensures block.index == |chain| + 1 && block.timestamp == now
      ensures block.proof == proof && block.previousHash == previousHash
      ensures block.transactions == Some(old(transactions)) && block.hashAnnot.None?
      ensures transactions == []
      ensures chain == old(chain) && nodes == old(nodes) && backup == old(backup)
    {
      block := Block(|chain| + 1, now, proof, previousHash, Some(transactions), None);
      transactions := [];
    }

    /** backup_chain: overwrites the snapshot with the current chain. */
    method BackupChain()
      modifies this`backup
      ensures backup == chain
    {
      backup := chain;
    }

    /** load_chain: reads the snapshot back; whenever the invariant holds it
        is the current chain. */
    function LoadChain(): (loaded: seq<Block>)
      reads this
      ensures Valid() ==> loaded == chain
    {
      backup
    }

    /** get_previous_block: the last block. On a mined chain its index is
        the depth of the chain. */
    function GetPreviousBlock(): (b: Block)
      reads this
      requires |chain| > 0
      ensures b == chain[|chain| - 1]
      ensures MinedChain(hash, chain) ==> b.index == |chain|
    {
      chain[|chain| - 1]
    }

    /** proof_of_work: prepares the candidate (linked to "0" on the empty
        chain, otherwise to the digest of the last block; the pool moves into
        it) and searches the nonce. The result is the first sealing nonce
        from 1, the block differs from the candidate only in its proof, and
        appending it keeps a mined chain mined. */
    method ProofOfWork(now: string, ghost w: int) returns (newProof: int, newBlock: Block)
      requires w >= 1 && SealsAt(hash, NextCandidate(now), w)
      modifies this
      ensures newBlock.index == |chain| + 1 && newBlock.timestamp == now
      ensures newBlock.previousHash == if |chain| == 0 then "0" else hash(chain[|chain| - 1])
      ensures newBlock.transactions == Some(old(transactions)) && newBlock.hashAnnot.None?
      ensures newBlock.proof == newProof && HasTarget(hash(newBlock))
      ensures newBlock == SetProof(old(NextCandidate(now)), newProof)
      ensures IsLeastProof(hash, old(NextCandidate(now)), newProof)
      ensures (|chain| == 0 || MinedChain(hash, chain)) ==> MinedChain(hash, chain + [newBlock])
      ensures transactions == [] && chain == old(chain) && nodes == old(nodes) && backup == old(backup)
    {
      newProof := 1;
      var candidate: Block;
      if |chain| == 0 {
        var previousHash := "0";
        candidate := PrepareBlock(1, previousHash, now);
      } else {
        var previousHash := hash(chain[|chain| - 1]);
        candidate := PrepareBlock(newProof, previousHash, now);
      }
      newProof, newBlock := Seal(hash, candidate, w);
      if |chain| == 0 || MinedChain(hash, chain) {
        MinedChainExtends(hash, chain, newBlock);
      }
    }

    /** get_chain: reads the snapshot back and writes a 'hash' key into each
        block of that copy, the digest of the block as read. The stored chain
        and the snapshot are left as they were, so validation of the stored
        chain is not affected. */
    method GetChain() returns (newChain: seq<Block>)
      ensures AnnotatedFrom(hash, LoadChain(), newChain)
    {
      newChain := LoadChain();
      var index := 0;
      while index < |newChain|
        invariant 0 <= index <= |newChain| == |LoadChain()|
        invariant forall k :: 0 <= k < index ==> newChain[k] == Annotated(hash, LoadChain()[k])
        invariant forall k :: index <= k < |newChain| ==> newChain[k] == LoadChain()[k]
      {
        var hashBlock := hash(newChain[index]);
        newChain := newChain[index := newChain[index].(hashAnnot := Some(hashBlock))];
        index := index + 1;
      }
    }

    /** add_transaction: appends exactly one transaction at the end of the
        pool and returns the index of the last block plus one, the block the
        transaction is meant for; on a mined chain that is depth + 1. */
    method AddTransaction(sender: string, receiver: string, amount: int) returns (next: int)
      requires Valid()
      modifies this
      ensures chain == old(chain) && nodes == old(nodes) && backup == old(backup)
      ensures transactions == old(transactions) + [Tx(sender, receiver, amount)]
      ensures next == chain[|chain| - 1].index + 1
      ensures MinedChain(hash, chain) ==> next == |chain| + 1
    {
      transactions := transactions + [Tx(sender, receiver, amount)];
      var prevBlock := GetPreviousBlock();
      next := prevBlock.index + 1;
    }

    /** add_node: adds the network location of the address to the peer set;
        adding an address whose location is known already changes nothing. */
    method AddNode(address: string)
      modifies this
      ensures nodes == old(nodes) + {netloc(address)}
      ensures netloc(address) in old(nodes) ==> nodes == old(nodes)
      ensures chain == old(chain) && transactions == old(transactions) && backup == old(backup)
    {
      var parsedUrl := netloc(address);
      nodes := nodes + {parsedUrl};
    }

    /** replace_chain: visits every peer once (`replies` holds what each
        answered, in visiting order), keeps the chain of the deepest 200
        reply that beats the local depth, and adopts it, without validating
        it, when it is a non-empty list; the snapshot is rewritten then.
        Otherwise chain and snapshot stay as they were. */
    method ReplaceChain(replies: seq<Reply>) returns (replaced: bool)
      requires Valid() && PollsEachOnce(replies, nodes)
      modifies this
      ensures Valid()
      ensures transactions == old(transactions) && nodes == old(nodes)
      ensures var best := Fold(Best(|old(chain)|, None), replies);
        replaced <==> best.longest.Some? && best.longest.value != []
      ensures replaced ==> exists k :: Wins(|old(chain)|, replies, k) && chain == replies[k].chain
      ensures !replaced ==> chain == old(chain) && backup == old(backup)
      ensures !replaced ==> forall k :: Wins(|old(chain)|, replies, k) ==> replies[k].chain == []
    {
      var network := replies;
      var longestChain: Option<seq<Block>> := None;
      var maxLength := |chain|;
      var i := 0;
      while i < |network|
        invariant 0 <= i <= |network|
        invariant Best(maxLength, longestChain) == Fold(Best(|chain|, None), replies[..i])
      {
        var response := network[i];
        assert replies[..i + 1][..i] == replies[..i];
        if response.status == 200 {
          var length := response.depth;
          var peerChain := response.chain;
          if length > maxLength {
            maxLength := length;
            longestChain := Some(peerChain);
          }
        }
        i := i + 1;
      }
      assert replies[..|replies|] == replies;
      FoldFindsWinner(|chain|, replies);
      if longestChain.Some? && longestChain.value != [] {
        chain := longestChain.value;
        BackupChain();
        replaced := true;
      } else {
        forall k | Wins(|old(chain)|, replies, k)
          ensures replies[k].chain == []
        {
          var m :| Wins(|old(chain)|, replies, m) && longestChain == Some(replies[m].chain);
          WinnerUnique(|old(chain)|, replies, k, m);
        }
        replaced := false;
      }
    }
  }
}
