/** The values every variant of the Blockchain class works on: transactions,
    blocks, and the proof-of-work target a block digest has to meet. */
module Ledger {

  datatype Option<T> = None | Some(value: T)

  /** A pending or mined transaction: the dict {sender, receiver, amount}. */
  datatype Tx = Tx(sender: string, receiver: string, amount: int)

  /** A block dict. `transactions` is None when the dict has no
      'transactions' key at all (the blockchain_v2 variant) and `hashAnnot`
      is the 'hash' key that listing the chain writes into a block. Both are
      part of what the hash function sees, exactly as json.dumps sees every
      key of the dict. */
  datatype Block = Block(
    index: int,
    timestamp: string,
    proof: int,
    previousHash: string,
    transactions: Option<seq<Tx>>,
    hashAnnot: Option<string>)

  /** The fixed proof-of-work target: a digest is accepted when its first
      four characters are "0000". */
  const Target: string := "0000"

  /** `digest[:4] == '0000'`; a digest shorter than four characters never
      passes, as its slice is shorter than the target. */
  predicate HasTarget(digest: string)
  {
    |digest| >= |Target| && digest[..|Target|] == Target
  }

  /** The block a candidate turns into when its nonce is set to `p`. */
  function SetProof(b: Block, p: int): (r: Block)
    ensures r.proof == p
    ensures r.(proof := b.proof) == b
  {
    b.(proof := p)
  }

  /** A block with its 'hash' key set to the digest of the block as it was
      just before the update. */
  function Annotated(hash: Block -> string, b: Block): (r: Block)
    ensures r.hashAnnot == Some(hash(b))
    ensures r.(hashAnnot := b.hashAnnot) == b
  {
    b.(hashAnnot := Some(hash(b)))
  }
}
