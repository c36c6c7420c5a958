/**
 The chain: an ordered sequence of blocks, the validity check run over it, and
 the operations that edit, re-mine, relink and rehash blocks in place.

 The first half gives the meaning of each operation as a function on the
 sequence of blocks, with lemmas about it; the class `Blockchain` holds the one
 mutable chain and its methods are proved to produce exactly those sequences.
 */
module Chain {
  import opened Blocks

  /** Difficulty the mining operation passes to the search. */
  const MiningDifficulty: nat := 4

  /** Number of blocks the chain is initialised with. */
  const InitialLength: nat := 5

  /** Previous-hash sentinel of the genesis block: 64 zero characters. */
  const GenesisPrevHash: string := Zeros(64)

  // ---------------------------------------------------------------------------
  // Validity

  /** Block `i` points at its predecessor's stored hash; the genesis block is not checked. */
  predicate Linked(s: seq<Block>, i: nat)
    requires i < |s|
    ensures i == 0 ==> Linked(s, i)
  {
    i == 0 || s[i].prevHash == s[i - 1].hash
  }

  /** What the validity report says of block `i`: its hash is fresh and its link holds. */
  predicate BlockValid(h: Hasher, s: seq<Block>, i: nat)
    requires i < |s|
  {
    HashMatches(h, s[i]) && Linked(s, i)
  }

  /** Every block of the chain is reported valid. */
  predicate ChainValid(h: Hasher, s: seq<Block>)
  {
    forall i :: 0 <= i < |s| ==> BlockValid(h, s, i)
  }

  /** The digest tells apart any two different contents (an assumption on the digest, not a fact). */
  ghost predicate Injective(h: Hasher)
  {
    forall n1, k1, d1, p1, n2, k2, d2, p2 ::
      h(n1, k1, d1, p1) == h(n2, k2, d2, p2) ==> n1 == n2 && k1 == k2 && d1 == d2 && p1 == p2
  }

  // ---------------------------------------------------------------------------
  // Initial chain

  /** The value of a digit character. */
  function DigitValue(c: char): int
  {
    c as int - '0' as int
  }

  /** The number a string of decimal digits denotes, most significant digit first. */
  function DecimalValue(r: string): int
  {
    if |r| == 0 then 0 else DecimalValue(r[..|r| - 1]) * 10 + DigitValue(r[|r| - 1])
  }

  /** The decimal digit character for `d`. */
  function DigitChar(d: nat): (c: char)
    requires d < 10
    ensures '0' <= c <= '9'
    ensures DigitValue(c) == d
  {
    (('0' as int) + d) as char
  }

  /** The decimal rendering of `n`, as Python's `str` gives it: digits only, no leading zero. */
  function DecimalString(n: nat): (r: string)
    ensures 1 <= |r|
    ensures forall k :: 0 <= k < |r| ==> '0' <= r[k] <= '9'
    ensures n == 0 ==> r == "0"
    ensures n > 0 ==> r[0] != '0'
    decreases n
  {
    if n < 10 then [DigitChar(n)] else DecimalString(n / 10) + [DigitChar(n % 10)]
  }

  /** Reading the rendering back gives the number. */
  lemma {:induction false} DecimalRoundTrip(n: nat)
    ensures DecimalValue(DecimalString(n)) == n
    decreases n
  {
    var r := DecimalString(n);
    if n < 10 {
      assert r[..0] == [];
    } else {
      DecimalRoundTrip(n / 10);
      assert r[..|r| - 1] == DecimalString(n / 10);
    }
  }

  /** The payload block number `n` is created with: the fixed words, then `n` in decimal. */
  function InitialData(n: nat): (r: string)
    ensures |r| > 15 && r[..15] == "Data for block "
    ensures forall k :: 15 <= k < |r| ==> '0' <= r[k] <= '9'
    ensures n > 0 ==> r[15] != '0'
    ensures DecimalValue(r[15..]) == n
  {
    DecimalRoundTrip(n);
    var r := "Data for block " + DecimalString(n);
    assert r[15..] == DecimalString(n);
    r
  }

  /**
   The content of the chain built at start-up: five blocks numbered 1 to 5,
   nonce 0, their default payload, the genesis sentinel before the first block.
   */
  predicate InitialContent(s: seq<Block>)
  {
    && |s| == InitialLength
    && s[0].prevHash == GenesisPrevHash
    && forall i :: 0 <= i < |s| ==>
         s[i].blockNo == i + 1 && s[i].nonce == 0 && s[i].data == InitialData(i + 1)
  }

  /** Appending a freshly hashed block linked to the last one keeps a valid chain valid. */
  lemma AppendKeepsValid(h: Hasher, s: seq<Block>, b: Block)
    requires ChainValid(h, s)
    requires HashMatches(h, b)
    requires |s| > 0 ==> b.prevHash == s[|s| - 1].hash
    ensures ChainValid(h, s + [b])
  {
    var r := s + [b];
    forall j | 0 <= j < |r|
      ensures BlockValid(h, r, j)
    {
      if j < |s| {
        assert BlockValid(h, s, j);
      }
    }
  }

  /** The initial content with valid links and hashes determines the chain completely. */
  lemma {:induction false} InitialChainDeterministic(h: Hasher, s: seq<Block>, t: seq<Block>)
    requires InitialContent(s) && ChainValid(h, s)
    requires InitialContent(t) && ChainValid(h, t)
    ensures s == t
  {
    var i := 0;
    while i < |s|
      invariant 0 <= i <= |s|
      invariant forall j :: 0 <= j < i ==> s[j] == t[j]
    {
      assert BlockValid(h, s, i) && BlockValid(h, t, i);
      i := i + 1;
    }
  }

  // ---------------------------------------------------------------------------
  // The operations as functions on the sequence of blocks

  /** Editing block `i`: new payload and nonce, hash recomputed over its unchanged previous hash. */
  function Edited(h: Hasher, s: seq<Block>, i: nat, data: string, nonce: int): (r: seq<Block>)
    requires i < |s|
    ensures |r| == |s|
    ensures forall j :: 0 <= j < |s| && j != i ==> r[j] == s[j]
    ensures r[i].blockNo == s[i].blockNo && r[i].prevHash == s[i].prevHash
    ensures r[i].data == data && r[i].nonce == nonce
    ensures HashMatches(h, r[i])
  {
    s[i := Rehash(h, s[i].(data := data, nonce := nonce))]
  }

  /**
   Propagating from `start`: in increasing order, every block after `start`
   takes its predecessor's (freshly computed) hash as previous hash and is
   rehashed. Nothing happens when `start` is the last index or beyond.
   */
  function Propagated(h: Hasher, s: seq<Block>, start: nat): (r: seq<Block>)
    ensures |r| == |s|
    ensures start + 1 >= |s| ==> r == s
    decreases |s| - start
  {
    if start + 1 >= |s| then s
    else Propagated(h, s[start + 1 := Rehash(h, s[start + 1].(prevHash := s[start].hash))], start + 1)
  }

  /**
   Propagation changes only blocks after `start`, changes no block's number,
   nonce or payload, and leaves every block after `start` linked and freshly hashed.
   */
  lemma {:induction false} PropagatedSpec(h: Hasher, s: seq<Block>, start: nat)
    ensures forall j :: 0 <= j <= start && j < |s| ==> Propagated(h, s, start)[j] == s[j]
    ensures forall j :: 0 <= j < |s| ==>
              var b := Propagated(h, s, start)[j];
              b.blockNo == s[j].blockNo && b.nonce == s[j].nonce && b.data == s[j].data
    ensures forall j :: start < j < |s| ==>
              Linked(Propagated(h, s, start), j) && HashMatches(h, Propagated(h, s, start)[j])
    decreases |s| - start
  {
    if start + 1 < |s| {
      var s' := s[start + 1 := Rehash(h, s[start + 1].(prevHash := s[start].hash))];
      PropagatedSpec(h, s', start + 1);
      var r := Propagated(h, s, start);
      assert r == Propagated(h, s', start + 1);
      assert r[start + 1] == s'[start + 1] && r[start] == s[start];
    }
  }

  /** If every block up to `start` is valid, propagating from `start` makes the whole chain valid. */
  lemma PropagateRepairsChain(h: Hasher, s: seq<Block>, start: nat)
    requires start < |s|
    requires forall j :: 0 <= j <= start ==> BlockValid(h, s, j)
    ensures ChainValid(h, Propagated(h, s, start))
  {
    PropagatedSpec(h, s, start);
    var r := Propagated(h, s, start);
    forall j | 0 <= j < |r|
      ensures BlockValid(h, r, j)
    {
      if j <= start {
        assert BlockValid(h, s, j);
        assert j > 0 ==> r[j - 1] == s[j - 1];
      }
    }
  }

  /**
   Tamper detection: in a valid chain, editing block `i` to a different payload
   or nonce leaves exactly one block reported invalid, its successor.
   */
  lemma TamperDetected(h: Hasher, s: seq<Block>, i: nat, data: string, nonce: int)
    requires Injective(h)
    requires ChainValid(h, s)
    requires i + 1 < |s|
    requires data != s[i].data || nonce != s[i].nonce
    ensures forall j :: 0 <= j < |s| ==> (BlockValid(h, Edited(h, s, i, data, nonce), j) <==> j != i + 1)
  {
    var r := Edited(h, s, i, data, nonce);
    assert BlockValid(h, s, i) && BlockValid(h, s, i + 1);
    assert r[i].hash != s[i].hash;
    forall j | 0 <= j < |s| && j != i + 1
      ensures BlockValid(h, r, j)
    {
      assert BlockValid(h, s, j);
    }
  }

  /**
   Updating from `k` (edit block `k`, then propagate from it) leaves the whole
   chain valid when every block before `k` was valid and block `k` was linked.
   */
  lemma UpdateRepairsChain(h: Hasher, s: seq<Block>, k: nat, data: string, nonce: int)
    requires k < |s|
    requires forall j :: 0 <= j < k ==> BlockValid(h, s, j)
    requires Linked(s, k)
    ensures ChainValid(h, Propagated(h, Edited(h, s, k, data, nonce), k))
  {
    var e := Edited(h, s, k, data, nonce);
    forall j | 0 <= j <= k
      ensures BlockValid(h, e, j)
    {
      if j < k {
        assert BlockValid(h, s, j);
      }
    }
    PropagateRepairsChain(h, e, k);
  }

  // ---------------------------------------------------------------------------
  // The mutable chain

  /** One entry of the validity report. */
  datatype Check = Check(index: nat, valid: bool)

  /** Result of an operation addressed by block index. */
  datatype Outcome = Done | OutOfRange(index: nat)

  /** An argument the caller may omit. */
  datatype Option<T> = None | Some(value: T)

  /** The single in-memory chain; `digest` stands for the block hash function. */
  class Blockchain {
    const digest: Hasher
    var blocks: seq<Block>

    /** Creates the chain and initialises it, as the program does at start-up. */
    constructor (digest: Hasher)
      ensures this.digest == digest
      ensures InitialContent(blocks) && ChainValid(digest, blocks)
    {
      this.digest := digest;
      blocks := [];
      new;
      InitBlockchain();
    }

    /** Rebuilds the chain as five blocks, each linked to the hash of the one before. */
    method InitBlockchain()
      modifies this
      ensures InitialContent(blocks) && ChainValid(digest, blocks)
    {
      blocks := [];
      var prevHash := GenesisPrevHash;
      for i := 1 to InitialLength + 1
        invariant |blocks| == i - 1
        invariant |blocks| > 0 ==> blocks[0].prevHash == GenesisPrevHash
        invariant prevHash == if |blocks| == 0 then GenesisPrevHash else blocks[|blocks| - 1].hash
        invariant forall j :: 0 <= j < |blocks| ==>
                    blocks[j].blockNo == j + 1 && blocks[j].nonce == 0 && blocks[j].data == InitialData(j + 1)
        invariant ChainValid(digest, blocks)
      {
        var block := NewBlock(digest, i, 0, InitialData(i), prevHash);
        AppendKeepsValid(digest, blocks, block);
        blocks := blocks + [block];
        prevHash := block.hash;
      }
    }

    /**
     Mining block `i`: reset its nonce to 0 without recomputing its hash, then
     run the proof-of-work search on it alone. `solution` is the ghost bound the
     search needs when the stale hash does not already meet the target.
     */
    method MineAt(i: nat, ghost solution: int) returns (outcome: Outcome)
      requires i < |blocks| ==>
                 MeetsTarget(blocks[i].hash, MiningDifficulty) ||
                 (0 < solution && Solves(digest, blocks[i], solution, MiningDifficulty))
      modifies this
      ensures outcome == if i < |old(blocks)| then Done else OutOfRange(i)
      ensures i >= |old(blocks)| ==> blocks == old(blocks)
      ensures i < |old(blocks)| ==> |blocks| == |old(blocks)| && blocks == old(blocks)[i := blocks[i]]
      ensures i < |old(blocks)| ==>
                var was, b := old(blocks)[i], blocks[i];
                && b.blockNo == was.blockNo && b.data == was.data && b.prevHash == was.prevHash
                && MeetsTarget(b.hash, MiningDifficulty)
                && (MeetsTarget(was.hash, MiningDifficulty) ==> b.nonce == 0 && b.hash == was.hash)
                && (!MeetsTarget(was.hash, MiningDifficulty) ==> 1 <= b.nonce && HashMatches(digest, b))
                && forall n :: 0 < n < b.nonce ==> !Solves(digest, was, n, MiningDifficulty)
    {
      if i >= |blocks| {
        return OutOfRange(i);
      }
      var reset := blocks[i].(nonce := 0);
      assert forall n :: Solves(digest, reset, n, MiningDifficulty) == Solves(digest, blocks[i], n, MiningDifficulty);
      var mined := MineBlock(digest, reset, MiningDifficulty, solution);
      blocks := blocks[i := mined];
      outcome := Done;
    }

    /**
     Mining block `i` with the nonce reset AND the hash recomputed before the
     search, so that the mined block always matches its content.
     */
    method MineAtRehashed(i: nat, ghost solution: int) returns (outcome: Outcome)
      requires i < |blocks| ==>
                 Solves(digest, blocks[i], 0, MiningDifficulty) ||
                 (0 < solution && Solves(digest, blocks[i], solution, MiningDifficulty))
      modifies this
      ensures outcome == if i < |old(blocks)| then Done else OutOfRange(i)
      ensures i >= |old(blocks)| ==> blocks == old(blocks)
      ensures i < |old(blocks)| ==> |blocks| == |old(blocks)| && blocks == old(blocks)[i := blocks[i]]
      ensures i < |old(blocks)| ==>
                var was, b := old(blocks)[i], blocks[i];
                && b.blockNo == was.blockNo && b.data == was.data && b.prevHash == was.prevHash
                && MeetsTarget(b.hash, MiningDifficulty)
                && HashMatches(digest, b)
                && 0 <= b.nonce
                && forall n :: 0 <= n < b.nonce ==> !Solves(digest, was, n, MiningDifficulty)
    {
      if i >= |blocks| {
        return OutOfRange(i);
      }
      var reset := Rehash(digest, blocks[i].(nonce := 0));
      assert forall n :: Solves(digest, reset, n, MiningDifficulty) == Solves(digest, blocks[i], n, MiningDifficulty);
      var mined := MineBlock(digest, reset, MiningDifficulty, solution);
      blocks := blocks[i := mined];
      outcome := Done;
    }

    /** Editing block `i` in place: new payload and nonce, only that block's hash recomputed. */
    method UpdateBlock(i: nat, data: string, nonce: int) returns (outcome: Outcome)
      modifies this
      ensures outcome == if i < |old(blocks)| then Done else OutOfRange(i)
      ensures i >= |old(blocks)| ==> blocks == old(blocks)
      ensures i < |old(blocks)| ==> blocks == Edited(digest, old(blocks), i, data, nonce)
    {
      if i >= |blocks| {
        return OutOfRange(i);
      }
      blocks := blocks[i := blocks[i].(data := data)];
      blocks := blocks[i := blocks[i].(nonce := nonce)];
      blocks := blocks[i := blocks[i].(hash := CalculateHash(digest, blocks[i]))];
      outcome := Done;
    }

    /** Relinks and rehashes, in increasing order, every block after `start`. */
    method Propagate(start: nat)
      modifies this
      ensures blocks == Propagated(digest, old(blocks), start)
    {
      var i := start + 1;
      while i < |blocks|
        invariant start + 1 <= i
        invariant Propagated(digest, blocks, i - 1) == Propagated(digest, old(blocks), start)
        decreases |blocks| - i
      {
        ghost var before := blocks;
        blocks := blocks[i := blocks[i].(prevHash := blocks[i - 1].hash)];
        blocks := blocks[i := blocks[i].(hash := CalculateHash(digest, blocks[i]))];
        assert blocks == before[i := Rehash(digest, before[i].(prevHash := before[i - 1].hash))];
        i := i + 1;
      }
    }

    /**
     Updating from `k`: block `k` takes the new payload and the new nonce (its
     old nonce when none is given), then blocks `k` to the end are rehashed in
     one pass, each block after `k` first relinked to its predecessor.
     */
    method Update(k: nat, data: string, nonce: Option<int>) returns (outcome: Outcome)
      modifies this
      ensures outcome == if k < |old(blocks)| then Done else OutOfRange(k)
      ensures k >= |old(blocks)| ==> blocks == old(blocks)
      ensures k < |old(blocks)| ==>
                var newNonce := if nonce.Some? then nonce.value else old(blocks)[k].nonce;
                blocks == Propagated(digest, Edited(digest, old(blocks), k, data, newNonce), k)
    {
      if k >= |blocks| {
        return OutOfRange(k);
      }
      var newNonce := if nonce.Some? then nonce.value else blocks[k].nonce;
      ghost var target := Propagated(digest, Edited(digest, blocks, k, data, newNonce), k);
      blocks := blocks[k := blocks[k].(data := data)];
      blocks := blocks[k := blocks[k].(nonce := newNonce)];
      for i := k to |blocks|
        invariant |blocks| == |old(blocks)|
        invariant i == k ==> blocks == old(blocks)[k := old(blocks)[k].(data := data, nonce := newNonce)]
        invariant i > k ==> Propagated(digest, blocks, i - 1) == target
      {
        ghost var before := blocks;
        if i > k {
          blocks := blocks[i := blocks[i].(prevHash := blocks[i - 1].hash)];
        }
        // for i == k (the genesis block included) the previous hash is kept
        blocks := blocks[i := blocks[i].(hash := CalculateHash(digest, blocks[i]))];
        assert i > k ==> blocks == before[i := Rehash(digest, before[i].(prevHash := before[i - 1].hash))];
        assert i == k ==> blocks == Edited(digest, old(blocks), k, data, newNonce);
      }
      outcome := Done;
    }

    /** The validity report: one entry per block, in order, computed without changing the chain. */
    method ValidateChain() returns (report: seq<Check>)
      ensures |report| == |blocks|
      ensures forall i :: 0 <= i < |report| ==>
                report[i].index == i && (report[i].valid <==> BlockValid(digest, blocks, i))
    {
      report := [];
      for i := 0 to |blocks|
        invariant |report| == i
        invariant forall j :: 0 <= j < i ==>
                    report[j].index == j && (report[j].valid <==> BlockValid(digest, blocks, j))
      {
        var isValid := true;
        if blocks[i].hash != CalculateHash(digest, blocks[i]) {
          isValid := false;
        }
        if i > 0 && blocks[i].prevHash != blocks[i - 1].hash {
          isValid := false;
        }
        report := report + [Check(i, isValid)];
      }
    }
  }

  /**
   The tampering demonstration: on a fresh chain, edit block 2 to payload
   "tampered" and nonce 0, validate, propagate from block 2, validate again.
   Only block 3 is reported invalid after the edit; every block is valid after
   the propagation.
   */
  method TamperScenario(digest: Hasher) returns (afterEdit: seq<Check>, afterPropagate: seq<Check>)
    requires Injective(digest)
    ensures |afterEdit| == InitialLength
    ensures forall j :: 0 <= j < |afterEdit| ==> afterEdit[j] == Check(j, j != 3)
    ensures |afterPropagate| == InitialLength
    ensures forall j :: 0 <= j < |afterPropagate| ==> afterPropagate[j] == Check(j, true)
  {
    var chain := new Blockchain(digest);
    ghost var initial := chain.blocks;
    assert |InitialData(3)| > |"tampered"|;
    TamperDetected(digest, initial, 2, "tampered", 0);
    var _ := chain.UpdateBlock(2, "tampered", 0);
    afterEdit := chain.ValidateChain();
    ghost var edited := chain.blocks;
    PropagateRepairsChain(digest, edited, 2);
    chain.Propagate(2);
    afterPropagate := chain.ValidateChain();
  }

  /** Under an injective digest, a block whose hash matches its content no longer matches it once its nonce is changed. */
  lemma ChangedNonceStalesHash(h: Hasher, b: Block, nonce: int)
    requires Injective(h)
    requires HashMatches(h, b)
    requires nonce != b.nonce
    ensures !HashMatches(h, b.(nonce := nonce))
  {
  }

  /** The first block of a freshly initialised chain. */
  function InitialGenesis(h: Hasher): Block
  {
    NewBlock(h, 1, 0, InitialData(1), GenesisPrevHash)
  }

  /**
   Mining the first block of a fresh chain twice, as the program does it: the
   second search starts from a stale hash that already meets the target, so it
   keeps that hash with nonce 0 and the block is reported invalid.
   */
  method RemineScenario(digest: Hasher, ghost solution: int) returns (report: seq<Check>)
    requires Injective(digest)
    requires !MeetsTarget(InitialGenesis(digest).hash, MiningDifficulty)
    requires 0 < solution && Solves(digest, InitialGenesis(digest), solution, MiningDifficulty)
    ensures |report| == InitialLength
    ensures !report[0].valid
  {
    var chain := new Blockchain(digest);
    assert chain.blocks[0] == InitialGenesis(digest) by {
      assert BlockValid(digest, chain.blocks, 0);
    }
    var _ := chain.MineAt(0, solution);
    ghost var mined := chain.blocks[0];
    var _ := chain.MineAt(0, 0);
    ChangedNonceStalesHash(digest, mined, 0);
    report := chain.ValidateChain();
  }

  /** The same double mining with the hash recomputed before each search leaves the block valid. */
  method RemineRehashedScenario(digest: Hasher, ghost solution: int) returns (report: seq<Check>)
    requires 0 < solution && Solves(digest, InitialGenesis(digest), solution, MiningDifficulty)
    ensures |report| == InitialLength
    ensures report[0].valid
  {
    var chain := new Blockchain(digest);
    assert chain.blocks[0] == InitialGenesis(digest) by {
      assert BlockValid(digest, chain.blocks, 0);
    }
    var _ := chain.MineAtRehashed(0, solution);
    ghost var mined := chain.blocks[0];
    assert Solves(digest, mined, mined.nonce, MiningDifficulty);
    var _ := chain.MineAtRehashed(0, mined.nonce);
    report := chain.ValidateChain();
  }
}
