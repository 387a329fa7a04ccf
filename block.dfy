/**
 * A block of the ledger: its five hashed fields, the digest that seals it,
 * and the difficulty predicate a proof-of-work digest must meet.
 */
module Blocks {

  datatype Option<T> = None | Some(value: T)

  /** A pending transaction: a structured record the engine never looks into,
      represented here by its serialized form. */
  type Transaction = string

  /** The five fields a block's digest covers. The attached hash is not
      among them. */
  datatype Header = Header(
    index: int,
    transactions: seq<Transaction>,
    timestamp: real,
    previousHash: string,
    nonce: nat)

  /** SHA-256 of the sorted-key JSON encoding of a header, as a hex string.
      Both library calls are modelled together as one deterministic function
      that the ledger is given and never looks into. */
  type HashFunction = Header -> string

  /** The same header with another nonce: the only field the search changes. */
  function WithNonce(h: Header, n: nat): (r: Header)
    ensures r.nonce == n
    ensures r.(nonce := h.nonce) == h
  {
    h.(nonce := n)
  }

  /** The string of `n` characters '0', written `'0' * n` in the source. */
  function Zeros(n: nat): (z: string)
    ensures |z| == n
  {
    if n == 0 then "" else "0" + Zeros(n - 1)
  }

  /** `s.startswith(prefix)` */
  predicate StartsWith(s: string, prefix: string)
  {
    |prefix| <= |s| && s[..|prefix|] == prefix
  }

  /** The difficulty test as the source writes it: the digest starts with
      `difficulty` zero characters. */
  predicate MeetsDifficulty(s: string, difficulty: nat)
  {
    StartsWith(s, Zeros(difficulty))
  }

  /** The same test, stated character by character. */
  predicate HasLeadingZeros(s: string, difficulty: nat)
  {
    difficulty <= |s| && forall i :: 0 <= i < difficulty ==> s[i] == '0'
  }

  lemma {:induction false} ZerosAt(n: nat, i: nat)
    requires i < n
    ensures Zeros(n)[i] == '0'
  {
    if i > 0 {
      ZerosAt(n - 1, i - 1);
    } else if n > 1 {
      ZerosAt(n - 1, 0);
    }
  }

  /** `startswith('0' * d)` holds exactly when the first `d` characters are
      all '0'. */
  lemma MeetsDifficultyIff(s: string, difficulty: nat)
    ensures MeetsDifficulty(s, difficulty) <==> HasLeadingZeros(s, difficulty)
  {
    var z := Zeros(difficulty);
    if MeetsDifficulty(s, difficulty) {
      forall i | 0 <= i < difficulty ensures s[i] == '0' {
        ZerosAt(difficulty, i);
        assert s[..difficulty][i] == z[i];
      }
    }
    if HasLeadingZeros(s, difficulty) {
      forall i | 0 <= i < difficulty ensures s[..difficulty][i] == z[i] {
        ZerosAt(difficulty, i);
      }
      assert s[..difficulty] == z;
    }
  }

  /** Some nonce from 0 upward gives a digest that meets the difficulty: the
      condition under which the source's unbounded search stops. */
  ghost predicate Solvable(digest: HashFunction, h: Header, difficulty: nat)
  {
    exists n: nat :: MeetsDifficulty(digest(WithNonce(h, n)), difficulty)
  }

  /** `n` is the nonce an ascending search from 0 stops at. */
  ghost predicate IsFirstNonce(digest: HashFunction, h: Header, difficulty: nat, n: nat)
  {
    && MeetsDifficulty(digest(WithNonce(h, n)), difficulty)
    && forall m: nat :: m < n ==> !MeetsDifficulty(digest(WithNonce(h, m)), difficulty)
  }

  /** The search result does not depend on the nonce the block held before:
      only one nonce can be the first that qualifies. */
  lemma FirstNonceUnique(digest: HashFunction, h: Header, h': Header, difficulty: nat, n: nat, n': nat)
    requires WithNonce(h, 0) == WithNonce(h', 0)
    requires IsFirstNonce(digest, h, difficulty, n) && IsFirstNonce(digest, h', difficulty, n')
    ensures n == n'
  {
    assert WithNonce(h, n) == WithNonce(h', n) && WithNonce(h, n') == WithNonce(h', n');
  }

  /** A snapshot of a block object's state. */
  datatype BlockValue = BlockValue(header: Header, hash: Option<string>)

  /** The source's `Block`. Index, transactions, timestamp and previous hash
      are fixed at construction; the proof-of-work search changes `nonce`,
      and acceptance attaches `hash`, which is absent until then. */
  class Block {
    const index: int
    const transactions: seq<Transaction>
    const timestamp: real
    const previousHash: string
    var nonce: nat
    var hash: Option<string>

    constructor (index: int, transactions: seq<Transaction>, timestamp: real, previousHash: string)
      ensures this.index == index && this.transactions == transactions
      ensures this.timestamp == timestamp && this.previousHash == previousHash
      ensures nonce == 0 && hash == None
    {
      this.index := index;
      this.transactions := transactions;
      this.timestamp := timestamp;
      this.previousHash := previousHash;
      nonce := 0;
      hash := None;
    }

    /** The fields `compute_hash` serializes. The frame, which names `nonce`
        and not `hash`, is the statement that the attached hash is not
        covered. */
    function Fields(): (h: Header)
      reads this`nonce
    {
      Header(index, transactions, timestamp, previousHash, nonce)
    }

    /** `compute_hash`: the digest of the five fields, with the current
        nonce. Its frame leaves out `hash`, so attaching the hash cannot
        change it. */
    function ComputeHash(digest: HashFunction): (d: string)
      reads this`nonce
      ensures d == digest(Header(index, transactions, timestamp, previousHash, nonce))
    {
      digest(Fields())
    }

    function Value(): (v: BlockValue)
      reads this
    {
      BlockValue(Fields(), hash)
    }
  }

  /** `compute_hash` is a function of the five fields alone: two blocks that
      agree on them agree on the digest, whatever their nonce history or
      attached hash. */
  lemma ComputeHashDeterministic(digest: HashFunction, a: Block, b: Block)
    requires a.index == b.index && a.transactions == b.transactions
    requires a.timestamp == b.timestamp && a.previousHash == b.previousHash
    requires a.nonce == b.nonce
    ensures a.ComputeHash(digest) == b.ComputeHash(digest)
  {
  }
}
