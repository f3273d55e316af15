/** The longest-chain rule of replace_chain (node1 only): a left fold over the
    peers' replies that keeps a running maximum of the reported depth. */
module Consensus {
  import opened Ledger
  import opened Validation

  /** What one GET /get_chain to a peer produced: the HTTP status, and the
      'depth' and 'chain' fields of its JSON body. */
  datatype Reply = Reply(peer: string, status: int, depth: int, chain: seq<Block>)

  /** The loop state: max_length and longest_chain (None before any peer
      beats the local depth). */
  datatype Best = Best(maxLength: int, longest: Option<seq<Block>>)

  /** `replies` holds one reply per registered peer, each peer once, in the
      order the loop visits the peer set. */
  predicate PollsEachOnce(replies: seq<Reply>, nodes: set<string>)
  {
    |replies| == |nodes| &&
    (forall r :: r in replies ==> r.peer in nodes) &&
    (forall i, j :: 0 <= i < j < |replies| ==> replies[i].peer != replies[j].peer)
  }

  /** One iteration: a reply counts only with status 200, and replaces the
      candidate only when its depth strictly exceeds the running maximum. */
  function Step(acc: Best, r: Reply): Best
  {
    if r.status == 200 && r.depth > acc.maxLength then Best(r.depth, Some(r.chain)) else acc
  }

  /** The loop state after visiting `replies` in order. */
  function Fold(acc: Best, replies: seq<Reply>): Best
  {
    if replies == [] then acc
    else Step(Fold(acc, replies[..|replies| - 1]), replies[|replies| - 1])
  }

  /** `replies[k]` is the reply whose chain the loop ends up holding: it is a
      200 reply deeper than the local chain, strictly deeper than every
      earlier 200 reply and at least as deep as every later one (on a tie the
      first one seen stays). */
  ghost predicate Wins(localDepth: int, replies: seq<Reply>, k: int)
  {
    && 0 <= k < |replies|
    && replies[k].status == 200
    && replies[k].depth > localDepth
    && (forall j :: 0 <= j < k && replies[j].status == 200 ==> replies[j].depth < replies[k].depth)
    && (forall j :: k < j < |replies| && replies[j].status == 200 ==> replies[j].depth <= replies[k].depth)
  }

  /** Characterises the fold: it ends with no candidate exactly when no 200
      reply is deeper than the local chain, and otherwise with the chain of
      the winning reply, whose depth is the final maximum. */
  lemma {:induction false} FoldFindsWinner(localDepth: int, replies: seq<Reply>)
    ensures var best := Fold(Best(localDepth, None), replies);
      && best.maxLength >= localDepth
      && (best.longest.None? ==> best.maxLength == localDepth)
      && (forall j :: 0 <= j < |replies| && replies[j].status == 200 ==> replies[j].depth <= best.maxLength)
      && (best.longest.None? <==>
            forall j :: 0 <= j < |replies| && replies[j].status == 200 ==> replies[j].depth <= localDepth)
      && (best.longest.Some? ==>
            exists k :: Wins(localDepth, replies, k) && best.longest.value == replies[k].chain
                        && replies[k].depth == best.maxLength)
  {
    if replies == [] {
    } else {
      var n := |replies| - 1;
      var front := replies[..n];
      var last := replies[n];
      FoldFindsWinner(localDepth, front);
      var acc := Fold(Best(localDepth, None), front);
      assert Fold(Best(localDepth, None), replies) == Step(acc, last);
      forall j | 0 <= j < n
        ensures replies[j] == front[j]
      {
      }
      if last.status == 200 && last.depth > acc.maxLength {
        assert Wins(localDepth, replies, n);
      } else {
        if acc.longest.Some? {
          var k :| Wins(localDepth, front, k) && acc.longest.value == front[k].chain
                   && front[k].depth == acc.maxLength;
          assert Wins(localDepth, replies, k);
          assert replies[k].status == 200 && replies[k].depth > localDepth;
        }
      }
    }
  }

  /** At most one reply wins. */
  lemma WinnerUnique(localDepth: int, replies: seq<Reply>, k: int, m: int)
    requires Wins(localDepth, replies, k) && Wins(localDepth, replies, m)
    ensures k == m
  {
  }

  /** The fold compares reported depths only: a single 200 reply deeper
      than the local chain has its chain chosen, whatever that chain is;
      nothing in the fold looks at its validity. */
  lemma AdoptsWithoutValidation(localDepth: int, peer: string, depth: int, c: seq<Block>)
    requires depth > localDepth
    ensures Fold(Best(localDepth, None), [Reply(peer, 200, depth, c)]) == Best(depth, Some(c))
  {
  }

  /** Such a chosen chain can fail is_chain_valid: here the second block
      does not link to the digest of the first. */
  lemma ForgedChainIsInvalid(hash: Block -> string, genesis: Block)
    ensures !ValidChain(hash, [genesis, genesis.(previousHash := hash(genesis) + "0")])
  {
    var forged := [genesis, genesis.(previousHash := hash(genesis) + "0")];
    assert |forged[1].previousHash| != |hash(forged[0])|;
    assert !BlockOk(hash, forged, 1);
  }

  /** A peer serves its chain through get_chain, which writes the 'hash' key
      into every block of the copy it sends. A deeper reply carrying such a
      chain is chosen as it is, and once the key changes the genesis digest
      the chosen chain fails is_chain_valid, although the peer's own chain
      was valid. */
  lemma AdoptedAnnotatedChainIsInvalid(hash: Block -> string, localDepth: int, peer: string,
                                       depth: int, stored: seq<Block>, served: seq<Block>)
    requires depth > localDepth
    requires |stored| >= 2 && ValidChain(hash, stored)
    requires AnnotatedFrom(hash, stored, served)
    requires hash(Annotated(hash, stored[0])) != hash(stored[0])
    ensures Fold(Best(localDepth, None), [Reply(peer, 200, depth, served)]).longest == Some(served)
    ensures !ValidChain(hash, served)
  {
    AdoptsWithoutValidation(localDepth, peer, depth, served);
    AnnotationBreaksValidity(hash, stored, served);
  }
}
