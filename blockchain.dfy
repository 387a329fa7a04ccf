/**
 * The ledger engine: an append-only chain of sealed blocks, a pool of
 * pending transactions, the proof-of-work search and the acceptance rule.
 */
module Ledger {
  import opened Blocks

  /** `Blockchain.difficulty`: leading '0' characters a mined block's digest needs. */
  const Difficulty: nat := 2

  /** What `mine` returns: `False` when the pool is empty, else the new index. */
  datatype MineResult = NothingToMine | Mined(index: int)

  /** The genesis block's fields: index 0, no transactions, previous hash "0". */
  function GenesisHeader(timestamp: real): (h: Header)
  {
    Header(0, [], timestamp, "0", 0)
  }

  predicate IsGenesis(b: BlockValue)
  {
    b.header == GenesisHeader(b.header.timestamp)
  }

  /** A block whose attached hash is the digest of its own five fields. */
  predicate Sealed(digest: HashFunction, b: BlockValue)
  {
    b.hash == Some(digest(b.header))
  }

  /** `is_valid_proof` on values: the proof meets the difficulty and is the
      digest of the block's current fields. */
  predicate ValidProof(digest: HashFunction, h: Header, proof: string)
  {
    MeetsDifficulty(proof, Difficulty) && proof == digest(h)
  }

  /** `next` may follow `prev`: it is sealed with its own digest, links to
      `prev`'s hash, and its hash meets the difficulty. */
  predicate Extends(digest: HashFunction, prev: BlockValue, next: BlockValue)
  {
    Sealed(digest, next) && prev.hash == Some(next.header.previousHash) && MeetsDifficulty(next.hash.value, Difficulty)
  }

  /** The ledger invariant, block by block: a sealed genesis block first, then
      blocks each of which extends its predecessor. */
  ghost predicate ValidChain(digest: HashFunction, bs: seq<BlockValue>)
    decreases |bs|
  {
    if |bs| <= 1 then
      |bs| == 1 && IsGenesis(bs[0]) && Sealed(digest, bs[0])
    else
      ValidChain(digest, bs[..|bs| - 1]) && Extends(digest, bs[|bs| - 2], bs[|bs| - 1])
  }

  /** The decision `add_block` takes for a block with fields `h` and the
      given proof: linkage to the tail's hash, then `is_valid_proof`. */
  predicate Accepts(digest: HashFunction, bs: seq<BlockValue>, h: Header, proof: string)
    requires |bs| > 0
  {
    bs[|bs| - 1].hash == Some(h.previousHash) && ValidProof(digest, h, proof)
  }

  /** The fields of the block `mine` builds before its search, from the tail
      of the chain, the pool and the current time. */
  function NextHeader(bs: seq<BlockValue>, pool: seq<Transaction>, now: real): (h: Header)
    requires |bs| > 0 && bs[|bs| - 1].hash.Some?
  {
    var last := bs[|bs| - 1];
    Header(last.header.index + 1, pool, now, last.hash.value, 0)
  }

  /** The freshly built ledger is valid. */
  lemma GenesisChainValid(digest: HashFunction, timestamp: real)
    ensures ValidChain(digest, [BlockValue(GenesisHeader(timestamp), Some(digest(GenesisHeader(timestamp))))])
  {
  }

  /** What the invariant says of each position: the first block is the
      genesis block, every block is sealed with its own digest, and every
      later block extends its predecessor. */
  lemma {:induction false} ValidChainAt(digest: HashFunction, bs: seq<BlockValue>, i: nat)
    requires ValidChain(digest, bs) && i < |bs|
    ensures IsGenesis(bs[0]) && Sealed(digest, bs[i])
    ensures 0 < i ==> Extends(digest, bs[i - 1], bs[i])
    decreases |bs|
  {
    if |bs| > 1 {
      var prefix := bs[..|bs| - 1];
      if i < |bs| - 1 {
        ValidChainAt(digest, prefix, i);
        assert prefix[i] == bs[i] && prefix[0] == bs[0];
        if 0 < i {
          assert prefix[i - 1] == bs[i - 1];
        }
      } else {
        ValidChainAt(digest, prefix, 0);
        assert prefix[0] == bs[0];
      }
    }
  }

  /** Every block of a valid chain commits to the digest of its predecessor's
      fields. */
  lemma LinksAreDigests(digest: HashFunction, bs: seq<BlockValue>, i: nat)
    requires ValidChain(digest, bs) && 0 < i < |bs|
    ensures bs[i].header.previousHash == digest(bs[i - 1].header)
  {
    ValidChainAt(digest, bs, i);
    ValidChainAt(digest, bs, i - 1);
  }

  /** The history of a valid chain is valid: no block depends on a later one. */
  lemma {:induction false} ValidChainPrefix(digest: HashFunction, bs: seq<BlockValue>, n: nat)
    requires ValidChain(digest, bs) && 0 < n <= |bs|
    ensures ValidChain(digest, bs[..n])
    decreases |bs|
  {
    if n < |bs| {
      ValidChainPrefix(digest, bs[..|bs| - 1], n);
      assert bs[..|bs| - 1][..n] == bs[..n];
    } else {
      assert bs[..n] == bs;
    }
  }

  /** Appending a block that `add_block` accepts keeps the chain valid. */
  lemma AcceptPreservesValidChain(digest: HashFunction, bs: seq<BlockValue>, h: Header, proof: string)
    requires ValidChain(digest, bs) && Accepts(digest, bs, h, proof)
    ensures ValidChain(digest, bs + [BlockValue(h, Some(proof))])
  {
    var bs' := bs + [BlockValue(h, Some(proof))];
    assert bs'[..|bs|] == bs;
    assert bs'[|bs'| - 2] == bs[|bs| - 1];
  }

  /** The block `mine` builds, with the nonce the search stops at, is always
      accepted: the result `mine` leaves unchecked is never False. */
  lemma MinedBlockAccepted(digest: HashFunction, bs: seq<BlockValue>, pool: seq<Transaction>, now: real, n: nat)
    requires ValidChain(digest, bs)
    requires IsFirstNonce(digest, NextHeader(bs, pool, now), Difficulty, n)
    ensures Accepts(digest, bs, WithNonce(NextHeader(bs, pool, now), n), digest(WithNonce(NextHeader(bs, pool, now), n)))
  {
  }

  /** The tip of a valid chain commits to its whole history: two valid chains
      of one length with the same last block are the same chain, provided
      the digest has no collision between their blocks at equal positions. */
  lemma {:induction false} TipDeterminesChain(digest: HashFunction, a: seq<BlockValue>, b: seq<BlockValue>)
    requires ValidChain(digest, a) && ValidChain(digest, b) && |a| == |b|
    requires a[|a| - 1] == b[|b| - 1]
    requires forall i :: 0 <= i < |a| && digest(a[i].header) == digest(b[i].header) ==> a[i].header == b[i].header
    ensures a == b
    decreases |a|
  {
    var n := |a|;
    if n == 1 {
      assert a == [a[0]] && b == [b[0]];
    } else {
      var a', b' := a[..n - 1], b[..n - 1];
      ValidChainAt(digest, a, n - 2);
      ValidChainAt(digest, b, n - 2);
      assert a'[n - 2] == a[n - 2] && b'[n - 2] == b[n - 2];
      forall i | 0 <= i < |a'| && digest(a'[i].header) == digest(b'[i].header)
        ensures a'[i].header == b'[i].header
      {
        assert a'[i] == a[i] && b'[i] == b[i];
      }
      TipDeterminesChain(digest, a', b');
      assert a == a' + [a[n - 1]] && b == b' + [b[n - 1]];
    }
  }

  /** The source's `Blockchain`. The chain holds each accepted block as it
      was sealed. */
  class Blockchain {
    /** SHA-256 over the canonical JSON of a block's fields. */
    const digest: HashFunction
    var unconfirmedTransactions: seq<Transaction>
    var chain: seq<BlockValue>

    ghost predicate Valid()
      reads this`chain
    {
      ValidChain(digest, chain)
    }

    constructor (digest: HashFunction, now: real)
      ensures Valid()
      ensures unconfirmedTransactions == []
      ensures chain == [BlockValue(GenesisHeader(now), Some(digest(GenesisHeader(now))))]
      ensures this.digest == digest
    {
      this.digest := digest;
      unconfirmedTransactions := [];
      chain := [];
      new;
      CreateGenesisBlock(now);
      GenesisChainValid(digest, now);
    }

    /** Builds the genesis block, seals it with its own digest without any
        search, and appends it. */
    method CreateGenesisBlock(now: real)
      modifies this`chain
      ensures chain == old(chain) + [BlockValue(GenesisHeader(now), Some(digest(GenesisHeader(now))))]
    {
      var genesisBlock := new Block(0, [], now, "0");
      genesisBlock.hash := Some(genesisBlock.ComputeHash(digest));
      chain := chain + [genesisBlock.Value()];
    }

    /** `last_block`: the tail, which is always sealed with its own digest. */
    function LastBlock(): (b: BlockValue)
      reads this`chain
      requires Valid()
      ensures b == chain[|chain| - 1]
      ensures b.hash == Some(digest(b.header))
    {
      ValidChainAt(digest, chain, |chain| - 1);
      chain[|chain| - 1]
    }

    /** `is_valid_proof` */
    function IsValidProof(block: Block, blockHash: string): (valid: bool)
      reads block`nonce
      ensures valid <==> HasLeadingZeros(blockHash, Difficulty) && blockHash == digest(block.Fields())
    {
      MeetsDifficultyIff(blockHash, Difficulty);
      MeetsDifficulty(blockHash, Difficulty) && blockHash == block.ComputeHash(digest)
    }

    /** `proof_of_work`: resets the nonce and raises it by one until the
        digest meets the difficulty; returns that digest. */
    method ProofOfWork(block: Block) returns (computedHash: string)
      requires Solvable(digest, block.Fields(), Difficulty)
      modifies block`nonce
      ensures WithNonce(block.Fields(), 0) == WithNonce(old(block.Fields()), 0)
      ensures IsFirstNonce(digest, old(block.Fields()), Difficulty, block.nonce)
      ensures computedHash == block.ComputeHash(digest)
      ensures HasLeadingZeros(computedHash, Difficulty)
    {
      ghost var start := block.Fields();
      block.nonce := 0;
      ghost var w: nat :| MeetsDifficulty(digest(WithNonce(start, w)), Difficulty);

      computedHash := block.ComputeHash(digest);
      while !StartsWith(computedHash, Zeros(Difficulty))
        invariant block.Fields() == WithNonce(start, block.nonce)
        invariant computedHash == block.ComputeHash(digest)
        invariant forall m: nat :: m < block.nonce ==> !MeetsDifficulty(digest(WithNonce(start, m)), Difficulty)
        invariant block.nonce <= w
        decreases w - block.nonce
      {
        block.nonce := block.nonce + 1;
        computedHash := block.ComputeHash(digest);
      }
      MeetsDifficultyIff(computedHash, Difficulty);
    }

    /** `add_block`: seals the block with `proof` and appends it when it links
        to the tail and the proof is valid; otherwise changes nothing. */
    method AddBlock(block: Block, proof: string) returns (added: bool)
      requires Valid()
      modifies this`chain, block`hash
      ensures Valid()
      ensures added == Accepts(digest, old(chain), block.Fields(), proof)
      ensures chain == if added then old(chain) + [BlockValue(block.Fields(), Some(proof))] else old(chain)
      ensures block.hash == if added then Some(proof) else old(block.hash)
    {
      var previousHash := LastBlock().hash;
      if previousHash != Some(block.previousHash) {
        return false;
      }
      var valid := IsValidProof(block, proof);
      MeetsDifficultyIff(proof, Difficulty);
      if !valid {
        return false;
      }
      AcceptPreservesValidChain(digest, chain, block.Fields(), proof);
      block.hash := Some(proof);
      chain := chain + [block.Value()];
      return true;
    }

    /** `add_new_transaction` */
    method AddNewTransaction(transaction: Transaction)
      modifies this`unconfirmedTransactions
      ensures unconfirmedTransactions == old(unconfirmedTransactions) + [transaction]
    {
      unconfirmedTransactions := unconfirmedTransactions + [transaction];
    }

    /** `mine`: with pending transactions, builds the next block from a
        snapshot of the pool, searches its nonce, appends it and empties the
        pool. The search stops only when some nonce qualifies, hence the
        second precondition. */
    method Mine(now: real) returns (result: MineResult)
      requires Valid()
      requires unconfirmedTransactions != [] ==> Solvable(digest, NextHeader(chain, unconfirmedTransactions, now), Difficulty)
      modifies this`chain, this`unconfirmedTransactions
      ensures Valid()
      ensures old(unconfirmedTransactions) == [] ==>
        result == NothingToMine && chain == old(chain) && unconfirmedTransactions == []
      ensures old(unconfirmedTransactions) != [] ==>
        && |chain| == |old(chain)| + 1 && chain[..|old(chain)|] == old(chain)
        && WithNonce(chain[|chain| - 1].header, 0) == NextHeader(old(chain), old(unconfirmedTransactions), now)
        && IsFirstNonce(digest, NextHeader(old(chain), old(unconfirmedTransactions), now), Difficulty, chain[|chain| - 1].header.nonce)
        && chain[|chain| - 1].hash == Some(digest(chain[|chain| - 1].header))
        && result == Mined(chain[|chain| - 1].header.index)
        && unconfirmedTransactions == []
    {
      if unconfirmedTransactions == [] {
        return NothingToMine;
      }
      var lastBlock := LastBlock();
      var newBlock := new Block(lastBlock.header.index + 1, unconfirmedTransactions, now, lastBlock.hash.value);
      ghost var next := newBlock.Fields();
      assert next == NextHeader(chain, unconfirmedTransactions, now);
      var proof := ProofOfWork(newBlock);
      MinedBlockAccepted(digest, chain, unconfirmedTransactions, now, newBlock.nonce);
      assert newBlock.Fields() == WithNonce(next, newBlock.nonce);
      // The source does not look at this result; it is always true here.
      var accepted := AddBlock(newBlock, proof);
      assert accepted;
      unconfirmedTransactions := [];
      return Mined(newBlock.index);
    }
  }

  /** A node's first mining round: two transactions submitted, then `mine`. */
  method EndToEnd(digest: HashFunction, t0: real, t1: real, a: Transaction, b: Transaction)
    returns (result: MineResult, chainLength: nat, pending: seq<Transaction>, tip: BlockValue)
    requires Solvable(digest, Header(1, [a, b], t1, digest(GenesisHeader(t0)), 0), Difficulty)
    ensures result == Mined(1) && chainLength == 2 && pending == []
    ensures tip.header.index == 1 && tip.header.transactions == [a, b]
    ensures tip.header.previousHash == digest(GenesisHeader(t0))
    ensures Sealed(digest, tip) && StartsWith(tip.hash.value, "00")
  {
    var ledger := new Blockchain(digest, t0);
    ledger.AddNewTransaction(a);
    ledger.AddNewTransaction(b);
    assert NextHeader(ledger.chain, ledger.unconfirmedTransactions, t1) == Header(1, [a, b], t1, digest(GenesisHeader(t0)), 0);
    result := ledger.Mine(t1);
    chainLength := |ledger.chain|;
    pending := ledger.unconfirmedTransactions;
    tip := ledger.chain[chainLength - 1];
    ValidChainAt(digest, ledger.chain, 1);
    assert Zeros(Difficulty) == "00";
  }
}
