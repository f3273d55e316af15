/** The proof-of-work search of proof_of_work (the same loop in all three
    variants): starting from proof 1, the nonce is raised by one until the
    block's digest meets the target. */
module Mining {
  import opened Ledger

  /** Setting the candidate's nonce to `p` yields a digest that meets the
      target. */
  predicate SealsAt(hash: Block -> string, candidate: Block, p: int)
  {
    HasTarget(hash(SetProof(candidate, p)))
  }

  /** `p` is the first nonce from 1 upward that seals the candidate. */
  ghost predicate IsLeastProof(hash: Block -> string, candidate: Block, p: int)
  {
    p >= 1 && SealsAt(hash, candidate, p) &&
    forall q :: 1 <= q < p ==> !SealsAt(hash, candidate, q)
  }

  /** There is only one first sealing nonce. */
  lemma LeastProofUnique(hash: Block -> string, candidate: Block, p: int, q: int)
    requires IsLeastProof(hash, candidate, p) && IsLeastProof(hash, candidate, q)
    ensures p == q
  {
  }

  /** The while loop of proof_of_work. The candidate comes from prepare_block
      with proof 1. The search has no bound of its own; the ghost witness `w`
      (some nonce that seals the candidate) is what makes it terminate, and
      the result never exceeds it. Only the proof field changes. */
  method Seal(hash: Block -> string, candidate: Block, ghost w: int) returns (newProof: int, newBlock: Block)
    requires candidate.proof == 1
    requires w >= 1 && SealsAt(hash, candidate, w)
    ensures newBlock == SetProof(candidate, newProof)
    ensures HasTarget(hash(newBlock))
    ensures IsLeastProof(hash, candidate, newProof) && newProof <= w
  {
    newProof := 1;
    newBlock := candidate;
    var checkProof := false;
    while !checkProof
      invariant 1 <= newProof <= w
      invariant newBlock == SetProof(candidate, newProof)
      invariant checkProof ==> SealsAt(hash, candidate, newProof)
      invariant forall q :: 1 <= q < newProof ==> !SealsAt(hash, candidate, q)
      decreases w - newProof, if checkProof then 0 else 1
    {
      var hashOperation := hash(newBlock);
      if HasTarget(hashOperation) {
        checkProof := true;
      } else {
        newProof := newProof + 1;
        newBlock := SetProof(newBlock, newProof);
      }
    }
  }
}
