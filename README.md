# Blockchain A–Z ledger core in Dafny

This project models the `Blockchain` class of the blockchain_a-z teaching
repository, in all three of its versions:

- `blockchain/blockchain_v2.py`: hash-linked blocks, a proof-of-work search
  and chain validation. Blocks have no transactions.
- `cryptocurrency/fastcoin.py`: adds a pool of pending transactions, which
  the next mined block drains, and a set of peers.
- `cryptocurrency/node1.py`: adds a snapshot of the chain (a bz2/pickle file),
  a chain listing served from that snapshot, and the longest-chain rule.

Layout:

| file | module | contents |
|---|---|---|
| `ledger.dfy` | `Ledger` | `Tx`, `Block`, the `"0000"` target, `SetProof`, `Annotated` |
| `validation.dfy` | `Validation` | `is_chain_valid` as a loop and as a predicate, the shape of a mined chain, what annotating blocks does to validity |
| `mining.dfy` | `Mining` | the nonce search of `proof_of_work` |
| `consensus.dfy` | `Consensus` | the fold over peer replies in `replace_chain` |
| `blockchain_v2.dfy` | `BlockchainV2` | the class of `blockchain/blockchain_v2.py` |
| `fastcoin.dfy` | `Fastcoin` | the class of `cryptocurrency/fastcoin.py` |
| `node1.dfy` | `Node1` | the class of `cryptocurrency/node1.py` |

Each Python class becomes a Dafny `class` whose fields are the Python
attributes: `chain`, `transactions` and `nodes`, plus `backup` in node1.
The methods reassign these fields and state the new state in terms of
the old one. A block is a datatype value. `transactions` is `None` when
the dict has no `'transactions'` key, as in blockchain_v2. `hashAnnot` is
the `'hash'` key that listing the chain writes into blocks.

SHA-256 over `json.dumps(block, sort_keys=True)` cannot be computed in a
proof, so each class has a constant `hash: Block -> string`, set by its
constructor. Nothing is assumed about this function. Every result therefore
holds for any hash function that sees every field of the block, including
the `'hash'` key. `urlparse(address).netloc` is handled the same way
(`netloc`), and `datetime.now()` becomes a `now` parameter.

The code of `is_chain_valid`, `set_proof` and the search loop of
`proof_of_work` is the same in all three files. Each is modelled once
(`Validation.IsChainValid`, `Ledger.SetProof`, `Mining.Seal`). The copies
are at blockchain/blockchain_v2.py:73-93, 31-33 and 50-56, and at
cryptocurrency/fastcoin.py:83-101, 41-43 and 60-67.

A chain built only by the constructor and repeated `ProofOfWork` +
`AddBlock` satisfies `Validation.MinedChain`. In such a chain, block `i`
has index `i + 1`, the genesis block links to `"0"`, every block is sealed
and each later block links to its predecessor. The constructors ensure
this predicate. `ProofOfWork` ensures that appending its block keeps it.
`Validation.MinedChainIsValid` shows that such a chain passes
`is_chain_valid`.

Where the code's behaviour is easy to misread, the model follows the
code:

- **The digest covers the `'hash'` key.** `chain_with_block_hashes` in
  blockchain_v2 and fastcoin writes that key into the stored blocks, so
  later digests include it. Validation does not strip it. Once the genesis
  digest changes, a valid chain of two or more blocks stops being valid
  (`Validation.AnnotationBreaksValidity`). Had the digest ignored the key,
  validity would be unchanged (`Validation.AnnotationHarmlessWhenIgnored`).
  node1's `get_chain` annotates a copy read back from the snapshot, so
  listing leaves its own stored chain alone (`Node1.Blockchain.GetChain`).
  But that annotated copy is what a peer serves, and node1's
  `replace_chain` stores the chain it receives as it is. A deeper peer's
  valid chain of two or more blocks is therefore adopted in annotated form,
  and the adopted chain fails `is_chain_valid` once the annotation changes
  the genesis digest (`Consensus.AdoptedAnnotatedChainIsInvalid`).
- **`add_transaction` returns the index of the last block plus one**, not
  the chain's depth plus one. The two agree on a mined chain.
- **`is_chain_valid` reads `chain[0]` first**, so it fails on an empty
  chain instead of accepting it. Hence its `requires`.
- **`replace_chain` adopts the winning chain without validating it**
  (`Consensus.AdoptsWithoutValidation`, `Consensus.ForgedChainIsInvalid`). It adopts it only if the list is
  non-empty, because it tests `if longest_chain:`. A peer that reports a
  greater depth with an empty chain blocks adoption, even if an earlier
  peer offered a usable chain.

## Model

| member | source | states |
|---|---|---|
| `Ledger.SetProof` | cryptocurrency/node1.py:53-55 | the result carries the given proof and agrees with the block in every other field |
| `Ledger.Annotated` | cryptocurrency/fastcoin.py:79 | the result's `'hash'` key holds the digest of the block as it was before; no other field changes |
| `Validation.IsChainValid` | cryptocurrency/node1.py:95-113 | needs a non-empty chain; returns true exactly when every block from position 1 on has `previous_hash` equal to its predecessor's digest and a digest starting with `"0000"`; the genesis block is not checked, so a one-block chain is always valid |
| `Validation.MinedChainExtends` | cryptocurrency/node1.py:61-81 | a sealed block with index depth + 1, linked to `"0"` on the empty chain or else to the last block's digest, extends a mined chain to a mined chain |
| `Validation.MinedChainIsValid` | cryptocurrency/node1.py:95-113 | a chain built by mining passes `is_chain_valid`, and its last block's index is its depth |
| `Validation.TamperedLinkIsInvalid` | cryptocurrency/node1.py:102-103 | setting the `previous_hash` of any non-genesis block to anything but its predecessor's digest makes the chain invalid |
| `Validation.TamperedBlockIsInvalid` | cryptocurrency/node1.py:102-103 | in a valid chain, replacing any block but the last by a block with a different digest makes the chain invalid, since the next block's `previous_hash` no longer matches |
| `Validation.TamperedLastBlockStaysValid` | cryptocurrency/node1.py:95-113 | in a valid chain of two or more blocks, replacing the last block by one with the same `previous_hash` and a digest still starting with `"0000"` leaves the chain valid: no later link checks it |
| `Validation.AnnotationBreaksValidity` | blockchain/blockchain_v2.py:65-71 | a valid chain of two or more blocks, annotated in place, is invalid once the annotation changes the genesis digest |
| `Validation.AnnotationHarmlessWhenIgnored` | cryptocurrency/fastcoin.py:71-73 | for a digest that ignored the `'hash'` key, annotating every block would leave validity unchanged, in both directions |
| `Mining.Seal` | cryptocurrency/node1.py:72-79 | starting from proof 1, returns the least proof ≥ 1 whose block digest starts with `"0000"`, and the candidate with only its proof set to it |
| `Mining.LeastProofUnique` | cryptocurrency/node1.py:72-79 | the least sealing proof is unique |
| `Consensus.FoldFindsWinner` | cryptocurrency/node1.py:133-144 | after the loop, the running maximum is at least the local depth and bounds every 200 reply. No candidate is held exactly when no 200 reply is deeper than the local chain. Otherwise the candidate is the chain of the winning reply: a 200 reply deeper than the local chain, strictly deeper than all earlier 200 replies and at least as deep as all later ones |
| `Consensus.WinnerUnique` | cryptocurrency/node1.py:142-144 | at most one reply wins |
| `Consensus.AdoptsWithoutValidation` | cryptocurrency/node1.py:138-149 | for every chain whatsoever, a single 200 reply deeper than the local chain makes the fold end with that depth and that chain as the candidate; the chain's content is never examined |
| `Consensus.ForgedChainIsInvalid` | cryptocurrency/node1.py:102-103 | a two-block chain whose second block does not link to the first fails `is_chain_valid`, so invalid chains are among those the fold chooses |
| `Consensus.AdoptedAnnotatedChainIsInvalid` | cryptocurrency/node1.py:138-149 | a deeper peer serving its valid chain of two or more blocks through `get_chain` has the annotated copy chosen, and that chosen chain fails `is_chain_valid` once the annotation changes the genesis digest |
| `BlockchainV2.Blockchain.constructor` | blockchain/blockchain_v2.py:11-16 | the chain holds exactly the genesis block: index 1, previous hash `"0"`, no transactions, the least sealing proof; the chain is a mined chain |
| `BlockchainV2.Blockchain.AddBlock` | blockchain/blockchain_v2.py:18-20 | appends exactly the block at the tail, leaving earlier blocks as they were, and returns that block |
| `BlockchainV2.Blockchain.PrepareBlock` | blockchain/blockchain_v2.py:23-28 | the candidate has index depth + 1, the given proof and previous hash, timestamp `now`, no `'transactions'` key and no annotation |
| `BlockchainV2.Blockchain.GetPreviousBlock` | blockchain/blockchain_v2.py:35-37 | needs the class invariant (a non-empty chain); gives the last block, whose index is the depth on a mined chain |
| `BlockchainV2.Blockchain.ProofOfWork` | blockchain/blockchain_v2.py:39-58 | changes no state. The block has index depth + 1 and previous hash `"0"` on an empty chain, else the last block's digest. It has no transactions. Its proof is the returned proof, the least one ≥ 1 that seals the candidate, and only the proof differs from the candidate. Appending it keeps a mined chain mined |
| `BlockchainV2.Blockchain.ChainWithBlockHashes` | blockchain/blockchain_v2.py:65-71 | keeps the length and sets each stored block's `'hash'` key to that block's digest before the update, changing nothing else; returns the stored chain |
| `Fastcoin.Blockchain.constructor` | cryptocurrency/fastcoin.py:15-22 | empty pool and peer set; the chain holds exactly the genesis block (index 1, previous hash `"0"`, empty transaction list, least sealing proof) and is a mined chain |
| `Fastcoin.Blockchain.AddBlock` | cryptocurrency/fastcoin.py:24-28 | appends exactly the block at the tail; returns it, or None when `skip_return` is set; pool and peers unchanged |
| `Fastcoin.Blockchain.PrepareBlock` | cryptocurrency/fastcoin.py:30-39 | the candidate has index depth + 1 and the given proof and previous hash. It holds the whole pool, in insertion order, and the pool is empty afterwards |
| `Fastcoin.Blockchain.GetPreviousBlock` | cryptocurrency/fastcoin.py:45-47 | needs the class invariant (a non-empty chain); gives the last block, whose index is the depth on a mined chain |
| `Fastcoin.Blockchain.ProofOfWork` | cryptocurrency/fastcoin.py:49-69 | the block has index depth + 1 and previous hash `"0"` or the last block's digest. It carries the pool as it was, and the pool is left empty. Its proof is the returned proof, the least one ≥ 1 that seals the candidate, and only the proof differs from the candidate. Chain and peers are unchanged, and appending the block keeps a mined chain mined |
| `Fastcoin.Blockchain.ChainWithBlockHashes` | cryptocurrency/fastcoin.py:75-81 | keeps the length and sets each stored block's `'hash'` key to that block's digest before the update, changing nothing else; pool and peers unchanged |
| `Fastcoin.Blockchain.AddTransaction` | cryptocurrency/fastcoin.py:103-112 | appends exactly one `{sender, receiver, amount}` at the end of the pool. Returns the last block's index + 1, which is depth + 1 on a mined chain. Chain and peers are unchanged |
| `Fastcoin.Blockchain.AddNode` | cryptocurrency/fastcoin.py:114-116 | adds the address's network location to the peer set, with set semantics: a known location changes nothing. Chain and pool are unchanged |
| `Node1.Blockchain.constructor` | cryptocurrency/node1.py:16-25 | as in fastcoin, and the snapshot holds the chain |
| `Node1.Blockchain.AddBlock` | cryptocurrency/node1.py:27-32 | appends exactly the block at the tail and rewrites the snapshot, so afterwards the snapshot equals the chain; returns the block or None |
| `Node1.Blockchain.PrepareBlock` | cryptocurrency/node1.py:34-43 | the candidate has index depth + 1 and the given proof and previous hash. It holds the whole pool, in insertion order, and the pool is empty afterwards |
| `Node1.Blockchain.BackupChain` | cryptocurrency/node1.py:45-47 | the snapshot becomes the current chain |
| `Node1.Blockchain.LoadChain` | cryptocurrency/node1.py:49-51 | reading the snapshot back gives the current chain whenever the class invariant holds |
| `Node1.Blockchain.GetPreviousBlock` | cryptocurrency/node1.py:57-59 | needs a non-empty chain; gives the last block, whose index is the depth on a mined chain |
| `Node1.Blockchain.ProofOfWork` | cryptocurrency/node1.py:61-81 | as in fastcoin; the snapshot is unchanged too |
| `Node1.Blockchain.GetChain` | cryptocurrency/node1.py:87-93 | returns the snapshot with every block's `'hash'` key set to the digest of that block as read; it changes neither the chain nor the snapshot |
| `Node1.Blockchain.AddTransaction` | cryptocurrency/node1.py:115-124 | as in fastcoin; the snapshot is unchanged |
| `Node1.Blockchain.AddNode` | cryptocurrency/node1.py:126-128 | as in fastcoin; the snapshot is unchanged |
| `Node1.Blockchain.ReplaceChain` | cryptocurrency/node1.py:130-151 | replies other than 200 are ignored. It returns true exactly when the fold ends holding a non-empty chain; that chain is then the winning reply's and is adopted unvalidated, and the snapshot is rewritten. Otherwise (no peers, no deeper reply, or an empty winning list) it returns false and chain and snapshot are unchanged. Pool and peers are never changed |

## Left out

- The Flask routes, their responses and status codes, `app.run`, and the
  mining reward that node1's `mine_block` route adds before mining. These
  are HTTP plumbing, not part of the class.
- SHA-256 and `json.dumps(sort_keys=True)`: foreign library code, kept as
  the `hash` constant with no properties assumed.
- `urlparse(...).netloc`: kept as the `netloc` constant.
- `datetime.now()` is a parameter. `uuid4` is used only by the routes.
- `requests.get`: the peers' answers are an input sequence, one reply per
  peer in the order the set is visited. The source does not catch an
  unreachable peer or a malformed body, so these are not modelled.
- The bz2/pickle snapshot file is the `backup` field. Write and read
  failures are not modelled.
- Blocks are values. Python mutates the block dicts in place (`set_proof`,
  `update`), and `prepare_block` puts the pool list itself into the block
  before rebinding the pool. No block dict is shared with anything else,
  so replacing values gives the same observable states.
- A transaction amount and a reported depth are integers. The source
  takes whatever JSON value arrives.
- Mutual exclusion between requests: the source has none, and the model
  is sequential.
- Tampering with the last block is caught only by its own target check:
  `is_chain_valid` accepts a replaced last block that keeps its
  `previous_hash` and whose digest still starts with `"0000"`
  (`Validation.TamperedLastBlockStaysValid`). The genesis block's own
  digest is never checked either.
- Mining.Seal: needs a ghost witness, a proof ≥ 1 that seals the
  candidate, and the result never exceeds it. The source's search has no
  bound and never returns when no proof exists.
- BlockchainV2.Blockchain.ProofOfWork: needs the same witness for the
  candidate it builds.
- Fastcoin.Blockchain.ProofOfWork: needs the same witness.
- Node1.Blockchain.ProofOfWork: needs the same witness.
- BlockchainV2.Blockchain.constructor: needs a witness that seals the
  genesis candidate.
- Fastcoin.Blockchain.constructor: needs a witness that seals the genesis
  candidate.
- Node1.Blockchain.constructor: needs a witness that seals the genesis
  candidate.
- Node1.Blockchain.ReplaceChain: needs the replies to name each
  registered peer exactly once. A network error in the source raises
  instead of returning.
- BlockchainV2.Blockchain.AddBlock: the unused `skip_return` parameter is
  left out.
- The `hash` method of each class is the `hash` constant, not a separate
  member.
