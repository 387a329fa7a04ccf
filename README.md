# Proof-of-work ledger engine in Dafny

This project models the ledger engine of a minimal single-node blockchain. The
engine is made of two parts:

- `Block` (module `Blocks`, `block.dfy`) is a record of five fields: index,
  transactions, timestamp, previous hash and nonce. `compute_hash` digests
  those five fields. The proof-of-work search changes the block's `nonce` in
  place, and acceptance attaches a `hash` to it. In the model, `Block` is a
  class: the four fixed fields are `const`, and `nonce` and `hash` are `var`.
  `hash` is an `Option` because the block has no hash until it is accepted.
- `Blockchain` (module `Ledger`, `blockchain.dfy`) is a class. It holds the
  chain, the pool of pending transactions (`unconfirmedTransactions`) and the
  digest function. Its methods are genesis creation, the proof-of-work
  search, the acceptance rule `add_block`, `is_valid_proof`, transaction
  submission, `mine` and `last_block`.

SHA-256 applied to the sorted-key JSON of the five fields is modelled as one
deterministic function, `HashFunction = Header -> string`. The ledger receives
it at construction, and the proofs assume nothing about it. The difficulty is
the source's constant 2. The difficulty test is written the way the source
writes it (`startswith('0' * difficulty)`). `MeetsDifficultyIff` proves it
equal to the character-by-character reading.

The ledger invariant `ValidChain` is defined one block at a time:

- the first block is a genesis block: index 0, no transactions, previous hash
  `"0"`, nonce 0;
- every block is sealed with the digest of its own five fields;
- every later block stores its predecessor's hash as `previousHash`;
- every later block's hash meets the difficulty.

`AddBlock`, `Mine` and the constructor keep this invariant. The lemmas then
show what it buys:

- each link is the digest of the previous block's fields;
- the history is valid at every length;
- without digest collisions, the last block determines the whole chain.

Two points about the program itself:

- `mine` does not check `add_block`'s result, and the model does the same.
  `MinedBlockAccepted` proves that this result is always true on a valid
  chain.
- `mine` numbers blocks consecutively, but `add_block` does not check the
  index, so the invariant has no index clause. Only `Mine` promises
  `last.index + 1`.

## Model

| member | source | states |
|---|---|---|
| `Blocks.Zeros` | node_server.py:55 | `'0' * n` has exactly `n` characters |
| `Blocks.ZerosAt` | node_server.py:55 | every one of the `n` characters of `'0' * n` is `'0'` |
| `Blocks.MeetsDifficultyIff` | node_server.py:55 | `startswith('0' * d)` holds exactly when the string has at least `d` characters and the first `d` are all `'0'` |
| `Blocks.FirstNonceUnique` | node_server.py:52-57 | the search is deterministic: two blocks that differ at most in their starting nonce stop at the same nonce |
| `Blocks.Block.constructor` | node_server.py:9-14 | a new block holds the given index, transactions, timestamp and previous hash, its nonce is 0, and it has no hash |
| `Blocks.Block.ComputeHash` | node_server.py:16-27 | `compute_hash` is the digest of exactly the five fields index, transactions, timestamp, previous hash and current nonce; its frame reads only `nonce` among the mutable fields, so the attached `hash` is not covered |
| `Blocks.ComputeHashDeterministic` | node_server.py:16-27 | the digest depends only on the five fields: equal fields give equal digests, whatever the nonce history or the attached hash |
| `Ledger.Blockchain.constructor` | node_server.py:33-36 | a new ledger has an empty pool and exactly one block: the genesis block of the current time, sealed with its own digest; the ledger is valid |
| `Ledger.Blockchain.CreateGenesisBlock` | node_server.py:38-44 | appends exactly one block: index 0, no transactions, previous hash `"0"`, nonce 0, and a hash equal to its own digest, with no search |
| `Ledger.GenesisChainValid` | node_server.py:38-44 | the one-block genesis chain meets the ledger invariant |
| `Ledger.Blockchain.ProofOfWork` | node_server.py:46-59 | changes only the nonce; the final nonce is the smallest one from 0 upward whose digest meets the difficulty; the returned digest is `compute_hash` of the block with that nonce and starts with `difficulty` zeros |
| `Ledger.Blockchain.AddBlock` | node_server.py:61-81 | returns true exactly when the block's previous hash equals the tail's hash and the proof is valid; then it attaches the proof as the block's hash and appends exactly that block, leaving earlier blocks as they were; otherwise the chain and the block's hash are unchanged; the ledger stays valid |
| `Ledger.AcceptPreservesValidChain` | node_server.py:79-81 | appending a block that `add_block` accepts keeps the chain valid |
| `Ledger.Blockchain.IsValidProof` | node_server.py:83-93 | true exactly when the first `difficulty` characters of the proof are `'0'` and the proof equals the digest of the block's current fields |
| `Ledger.Blockchain.AddNewTransaction` | node_server.py:95-96 | appends the transaction to the end of the pool and changes nothing else |
| `Ledger.Blockchain.Mine` | node_server.py:98-119 | with an empty pool, returns the "nothing to mine" result and changes nothing; otherwise it appends exactly one block and empties the pool; that block has index `last.index + 1`, previous hash `last.hash`, the pool as its transactions, the smallest qualifying nonce and its own digest as hash; it returns the new index, and the ledger stays valid |
| `Ledger.MinedBlockAccepted` | node_server.py:111-117 | the block `mine` builds, with the nonce its search stops at, always passes `add_block`'s checks |
| `Ledger.Blockchain.LastBlock` | node_server.py:121-123 | the tail of a valid chain is sealed with the digest of its own fields |
| `Ledger.ValidChainAt` | node_server.py:68-81 | in a valid chain, the first block is a genesis block, every block is sealed with its own digest, and every later block links to its predecessor's hash and meets the difficulty |
| `Ledger.LinksAreDigests` | node_server.py:72-79 | in a valid chain, each block's previous hash is the digest of its predecessor's fields |
| `Ledger.ValidChainPrefix` | node_server.py:80 | every prefix of a valid chain is valid: appending never depends on later blocks |
| `Ledger.TipDeterminesChain` | node_server.py:68-81 | if no two blocks at the same position collide under the digest, then two valid chains of the same length with the same last block are equal |
| `Ledger.EndToEnd` | node_server.py:95-119 | after two submissions and one `mine` on a new ledger: the result is index 1, the chain has 2 blocks, the pool is empty, and the tip holds both transactions, links to the genesis digest, is sealed with its own digest and starts with `"00"` |

## Left out

- The Flask application, the four HTTP routes and `app.run` (node_server.py:126-163) are left out. They are request I/O. This includes the broken `json.dump` call in the chain route.
- The global `blockchain` instance (node_server.py:128) is left out. The model builds a ledger explicitly.
- The internals of SHA-256 and of the JSON encoding are left out. Both are modelled by the abstract `HashFunction`. The model does not assume that digests are 64 lowercase hex characters.
- `time.time()` is left out. The timestamp is the `now` parameter of the constructor and of `Mine`. It is an opaque `real`, and the engine does no arithmetic on it.
- Transaction contents are left out. A transaction is an opaque `string`, the serialized record.
- The unused `requests` import is left out.
- Ledger.Blockchain.ProofOfWork: requires that some nonce from 0 upward qualifies. The source loop simply never ends when none does. The precondition is what the termination proof needs.
- Ledger.Blockchain.Mine: requires the same thing of the block it builds when the pool is not empty, for the same reason.
- Ledger.Blockchain.AddBlock: the chain holds each accepted block as a value captured when it is sealed. The source's list holds the `Block` objects themselves. So if code outside the engine kept a reference to an accepted block and changed it later, the source's chain would show the change and the model's would not. The engine itself never changes a block after accepting it.
- Blocks.Block.ComputeHash: always digests the five fields. In the source, `compute_hash` digests `__dict__`, which also includes `hash` once that field is attached. The two differ only when a block that is already sealed is hashed again, for example when the same block object is passed to `add_block` a second time. No path inside the engine does this.
- The fields index, transactions, timestamp and previous hash of `Block` are `const`. Python allows them to be reassigned, but nothing in the engine does so.
- In `mine`, the source gives the new block the pool list object itself and then rebinds the pool to a fresh list. The model copies the sequence. The result is the same, because nothing appends to the pool between the two steps.
