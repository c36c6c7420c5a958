/**
 A block of the demonstration chain: four content fields, a stored hash derived
 from them, and the proof-of-work search that varies the nonce until the hash
 starts with enough zeros.

 The digest (SHA-256 over the sorted-key JSON of the four fields) is not
 modelled: every member takes it as a parameter of type `Hasher`. The only
 thing assumed about its output is that the puzzle has a solution: `MineBlock`
 is given a nonce whose digest meets the target.
 */
module Blocks {

  /** The digest of (block number, nonce, data, previous hash). */
  type Hasher = (int, int, string, string) -> string

  /** A block and its stored hash, which may be stale. */
  datatype Block = Block(blockNo: int, nonce: int, data: string, prevHash: string, hash: string)

  /** The digest of the block's four content fields; the stored hash is ignored. */
  function CalculateHash(h: Hasher, b: Block): string
  {
    h(b.blockNo, b.nonce, b.data, b.prevHash)
  }

  /** The stored hash is the digest of the block's current content. */
  predicate HashMatches(h: Hasher, b: Block)
  {
    b.hash == CalculateHash(h, b)
  }

  /** Constructing a block stores the digest of the four given fields. */
  function NewBlock(h: Hasher, blockNo: int, nonce: int, data: string, prevHash: string): (b: Block)
    ensures b.blockNo == blockNo && b.nonce == nonce && b.data == data && b.prevHash == prevHash
    ensures HashMatches(h, b)
    ensures b.hash == h(blockNo, nonce, data, prevHash)
  {
    var fields := Block(blockNo, nonce, data, prevHash, "");
    fields.(hash := CalculateHash(h, fields))
  }

  /** Recomputing the stored hash changes the hash and nothing else. */
  function Rehash(h: Hasher, b: Block): (r: Block)
    ensures HashMatches(h, r)
    ensures r.blockNo == b.blockNo && r.nonce == b.nonce && r.data == b.data && r.prevHash == b.prevHash
  {
    b.(hash := CalculateHash(h, b))
  }

  /** The string of `n` zero characters (`"0" * n`). */
  function Zeros(n: nat): (z: string)
    ensures |z| == n
    ensures forall k :: 0 <= k < n ==> z[k] == '0'
  {
    seq(n, _ => '0')
  }

  /** The first `n` characters of `s`, or all of `s` when it is shorter (`s[:n]`). */
  function Prefix(s: string, n: nat): (r: string)
    ensures |r| == if n <= |s| then n else |s|
    ensures r <= s
  {
    if n <= |s| then s[..n] else s
  }

  /**
   The mining target: the hash's first `difficulty` characters equal
   `"0" * difficulty`. It holds exactly when the hash is long enough and starts
   with that many zeros; a shorter hash never meets it.
   */
  predicate MeetsTarget(hash: string, difficulty: nat)
    ensures MeetsTarget(hash, difficulty) <==>
            difficulty <= |hash| && forall k :: 0 <= k < difficulty ==> hash[k] == '0'
  {
    Prefix(hash, difficulty) == Zeros(difficulty)
  }

  /** The digest of a block depends on its four content fields only, never on the stored hash. */
  lemma HashIgnoresStoredHash(h: Hasher, b: Block, stored: string)
    ensures CalculateHash(h, b.(hash := stored)) == CalculateHash(h, b)
  {
  }

  /** Nonce `n` solves the puzzle for block `b`'s other content fields. */
  predicate Solves(h: Hasher, b: Block, n: int, difficulty: nat)
  {
    MeetsTarget(h(b.blockNo, n, b.data, b.prevHash), difficulty)
  }

  /**
   The proof-of-work search: while the stored hash misses the target,
   increment the nonce and recompute the hash.

   The search is unbounded and need not end. The ghost `solution` is a nonce
   above the current one that solves the puzzle; it is only needed when the
   stored hash does not already meet the target, and it bounds the search.
   */
  method MineBlock(h: Hasher, b: Block, difficulty: nat, ghost solution: int) returns (m: Block)
    requires MeetsTarget(b.hash, difficulty) || (b.nonce < solution && Solves(h, b, solution, difficulty))
    ensures MeetsTarget(m.hash, difficulty)
    ensures m.blockNo == b.blockNo && m.data == b.data && m.prevHash == b.prevHash
    ensures b.nonce <= m.nonce
    // a stored hash that already meets the target stops the search at once, even if stale
    ensures MeetsTarget(b.hash, difficulty) ==> m == b
    // otherwise the loop ran: the hash is fresh and the nonce is the first solution above the old one
    ensures !MeetsTarget(b.hash, difficulty) ==> b.nonce < m.nonce && HashMatches(h, m)
    ensures forall n :: b.nonce < n < m.nonce ==> !Solves(h, b, n, difficulty)
  {
    m := b;
    while !MeetsTarget(m.hash, difficulty)
      invariant m.blockNo == b.blockNo && m.data == b.data && m.prevHash == b.prevHash
      invariant b.nonce <= m.nonce
      invariant m.nonce == b.nonce ==> m == b
      invariant MeetsTarget(b.hash, difficulty) ==> m == b
      invariant b.nonce < m.nonce ==> HashMatches(h, m)
      invariant !MeetsTarget(b.hash, difficulty) ==> m.nonce <= solution
      invariant forall n :: b.nonce < n < m.nonce ==> !Solves(h, b, n, difficulty)
      decreases solution - m.nonce
    {
      m := m.(nonce := m.nonce + 1);
      m := m.(hash := CalculateHash(h, m));
    }
  }
}
