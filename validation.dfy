/** Whole-chain validation (is_chain_valid, identical in all three variants)
    and the shape of a chain that only mining has built. */
module Validation {
  import opened Ledger

  /** Block `i` (never the genesis block) links to the digest of its
      predecessor and its own digest meets the target. */
  predicate BlockOk(hash: Block -> string, chain: seq<Block>, i: int)
    requires 1 <= i < |chain|
  {
    chain[i].previousHash == hash(chain[i - 1]) && HasTarget(hash(chain[i]))
  }

  /** What is_chain_valid accepts: every block from position 1 on passes
      BlockOk; the genesis block is never checked itself. */
  predicate ValidChain(hash: Block -> string, chain: seq<Block>)
  {
    forall i :: 1 <= i < |chain| ==> BlockOk(hash, chain, i)
  }

  /** is_chain_valid: walks the chain from position 1 with the previous block
      in hand and returns False at the first block that fails. The chain must
      not be empty (chain[0] is read before the loop). */
  method IsChainValid(hash: Block -> string, chain: seq<Block>) returns (valid: bool)
    requires |chain| > 0
    ensures valid <==> ValidChain(hash, chain)
    ensures |chain| == 1 ==> valid
  {
    var previousBlock := chain[0];
    var blockIndex := 1;
    while blockIndex < |chain|
      invariant 1 <= blockIndex <= |chain|
      invariant previousBlock == chain[blockIndex - 1]
      invariant forall i :: 1 <= i < blockIndex ==> BlockOk(hash, chain, i)
    {
      var block := chain[blockIndex];
      if block.previousHash != hash(previousBlock) {
        assert !BlockOk(hash, chain, blockIndex);
        return false;
      }
      var hashOperation := hash(block);
      if !HasTarget(hashOperation) {
        assert !BlockOk(hash, chain, blockIndex);
        return false;
      }
      previousBlock := block;
      blockIndex := blockIndex + 1;
    }
    return true;
  }

  /** The chain that the constructor followed by repeated proof_of_work and
      add_block produces: positions are numbered from 1, the genesis block
      links to "0", every block (the genesis block too) is sealed, and every
      later block links to its predecessor. */
  predicate MinedChain(hash: Block -> string, chain: seq<Block>)
  {
    && |chain| > 0
    && chain[0].previousHash == "0"
    && (forall i :: 0 <= i < |chain| ==> chain[i].index == i + 1 && HasTarget(hash(chain[i])))
    && (forall i :: 1 <= i < |chain| ==> chain[i].previousHash == hash(chain[i - 1]))
  }

  /** The block that proof_of_work hands to add_block extends a mined chain
      (or the empty chain, for the genesis block) to a mined chain. */
  lemma MinedChainExtends(hash: Block -> string, chain: seq<Block>, b: Block)
    requires |chain| == 0 || MinedChain(hash, chain)
    requires b.index == |chain| + 1 && HasTarget(hash(b))
    requires b.previousHash == if |chain| == 0 then "0" else hash(chain[|chain| - 1])
    ensures MinedChain(hash, chain + [b])
  {
  }

  /** A mined chain passes is_chain_valid, and its last block's index is its
      depth. */
  lemma MinedChainIsValid(hash: Block -> string, chain: seq<Block>)
    requires MinedChain(hash, chain)
    ensures ValidChain(hash, chain)
    ensures chain[|chain| - 1].index == |chain|
  {
  }

  /** Rewriting the previous_hash of any non-genesis block to anything but the
      digest of its predecessor makes the chain invalid. */
  lemma TamperedLinkIsInvalid(hash: Block -> string, chain: seq<Block>, i: int, forged: string)
    requires 1 <= i < |chain| && forged != hash(chain[i - 1])
    ensures !ValidChain(hash, chain[i := chain[i].(previousHash := forged)])
  {
    var t := chain[i := chain[i].(previousHash := forged)];
    assert !BlockOk(hash, t, i);
  }

  /** Replacing any block but the last by one with a different digest
      (a changed proof, previous_hash or transaction list, say) breaks the
      link of the block after it. */
  lemma TamperedBlockIsInvalid(hash: Block -> string, chain: seq<Block>, i: int, b: Block)
    requires 0 <= i < |chain| - 1 && ValidChain(hash, chain)
    requires hash(b) != hash(chain[i])
    ensures !ValidChain(hash, chain[i := b])
  {
    assert BlockOk(hash, chain, i + 1);
    assert !BlockOk(hash, chain[i := b], i + 1);
  }

  /** The last block has no successor whose link would catch a change: a
      replacement that keeps its previous_hash and whose own digest still
      meets the target leaves a valid chain valid. */
  lemma TamperedLastBlockStaysValid(hash: Block -> string, chain: seq<Block>, b: Block)
    requires |chain| >= 2 && ValidChain(hash, chain)
    requires b.previousHash == chain[|chain| - 1].previousHash && HasTarget(hash(b))
    ensures ValidChain(hash, chain[|chain| - 1 := b])
  {
    var t := chain[|chain| - 1 := b];
    forall i | 1 <= i < |t|
      ensures BlockOk(hash, t, i)
    {
      assert BlockOk(hash, chain, i);
    }
  }

  /** `after` is `before` with every block's 'hash' key set to the digest of
      that block as it was, and nothing else changed. */
  ghost predicate AnnotatedFrom(hash: Block -> string, before: seq<Block>, after: seq<Block>)
  {
    |after| == |before| &&
    forall i :: 0 <= i < |before| ==> after[i] == Annotated(hash, before[i])
  }

  /** Annotating the stored blocks in place changes what the hash function
      sees: once the genesis block's digest moves, block 2's previous_hash no
      longer matches and a chain that was valid stops being valid. */
  lemma AnnotationBreaksValidity(hash: Block -> string, before: seq<Block>, after: seq<Block>)
    requires |before| >= 2 && ValidChain(hash, before)
    requires AnnotatedFrom(hash, before, after)
    requires hash(Annotated(hash, before[0])) != hash(before[0])
    ensures !ValidChain(hash, after)
  {
    assert BlockOk(hash, before, 1);
    assert after[1].previousHash == before[1].previousHash;
    assert !BlockOk(hash, after, 1);
  }

  /** The hash function ignores a block's 'hash' key. */
  ghost predicate IgnoresAnnotation(hash: Block -> string, b: Block)
  {
    hash(b.(hashAnnot := None)) == hash(b)
  }

  /** Were the annotation excluded from the hash input, annotating every
      block would leave validity unchanged in both directions. */
  lemma AnnotationHarmlessWhenIgnored(hash: Block -> string, before: seq<Block>, after: seq<Block>)
    requires forall b :: IgnoresAnnotation(hash, b)
    requires AnnotatedFrom(hash, before, after)
    ensures ValidChain(hash, after) <==> ValidChain(hash, before)
  {
    forall i | 0 <= i < |before|
      ensures hash(after[i]) == hash(before[i])
    {
      var b := before[i];
      assert IgnoresAnnotation(hash, b);
      assert IgnoresAnnotation(hash, after[i]);
      assert after[i].(hashAnnot := None) == b.(hashAnnot := None);
    }
    forall i | 1 <= i < |before|
      ensures BlockOk(hash, after, i) <==> BlockOk(hash, before, i)
    {
      assert after[i].previousHash == before[i].previousHash;
    }
  }
}
