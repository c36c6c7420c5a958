# Blockchain integrity demonstrator, modelled in Dafny

The program keeps one in-memory chain of five blocks. Each block holds a block
number, a nonce, a payload and the previous block's hash, plus a stored hash
derived from those four fields. Its operations are:

- mine a block: reset its nonce and search for a hash with four leading zeros;
- edit a block and rehash only that block;
- propagate hashes forward from a block;
- edit a block and rehash from there to the end;
- validate every block's hash and its link to its predecessor.

The model has two modules:

- `Blocks` (`blocks.dfy`) holds the block record, its hash, the mining
  target and the proof-of-work search `MineBlock`, a loop proved against its
  contract.
- `Chain` (`chain.dfy`) holds what each chain operation means, written as
  functions on the sequence of blocks (`Edited`, `Propagated`), with lemmas
  about them. The class `Blockchain` holds the mutable chain. Its methods do
  what the route handlers do, field by field, and are proved to produce
  exactly those sequences.

The digest (SHA-256 over the sorted-key JSON of the four fields) is a
parameter of type `Hasher`. A `Blockchain` keeps it as `const digest`, and
every pure member takes it as an argument. Nothing proved here depends on what
the digest computes, with two exceptions:

- `Chain.TamperDetected`, `Chain.ChangedNonceStalesHash`,
  `Chain.TamperScenario` and `Chain.RemineScenario` assume that the digest is
  injective (`Chain.Injective`). Real SHA-256 is not injective, so those
  results hold only up to collisions.
- `Blocks.MineBlock`, `Chain.Blockchain.MineAt`,
  `Chain.Blockchain.MineAtRehashed`, `Chain.RemineScenario` and
  `Chain.RemineRehashedScenario` assume that some nonce's digest meets the
  mining target, unless the stored hash already does. The ghost `solution`
  names that nonce.

An out-of-range block index makes the program raise `IndexError` before it
changes anything. The model returns `OutOfRange(i)` for that case and leaves
the chain unchanged. Indexes are `nat`.

Three behaviours of the code are worth stating outright:

- Editing block 2 of a fresh chain makes validation flag only block 3. Block 4
  still points at block 3's hash, which did not change (`Chain.TamperScenario`).
- Propagating from an index at or past the last block does nothing and raises
  no error, because the loop's range is empty.
- After mining, a block's hash does not always match its content (see Findings).

## Model

| member | source | states |
|---|---|---|
| Blocks.NewBlock | app.py:8-13 | a new block keeps the four given fields and stores the digest of exactly those fields |
| Blocks.CalculateHash | app.py:15-22 | the digest of the block's four content fields (number, nonce, payload, previous hash); the stored hash plays no part |
| Blocks.HashIgnoresStoredHash | app.py:15-22 | two blocks that differ only in their stored hash have the same digest, so the hash depends on the four fields only |
| Blocks.Rehash | app.py:15-22 | recomputing the stored hash makes it match the content and changes no other field |
| Blocks.Zeros | app.py:35 | the target `"0" * difficulty` has that length and only zero characters |
| Blocks.Prefix | app.py:36 | the slice `hash[:difficulty]` is a prefix of the hash, of length `difficulty`, or the whole hash when it is shorter |
| Blocks.MeetsTarget | app.py:35-36 | a hash passes the loop test exactly when it has at least `difficulty` characters and they are all zeros, in both directions (a too-short hash never passes) |
| Blocks.MineBlock | app.py:33-39 | the result meets the target; number, payload and previous hash are unchanged; the nonce never decreases; if the stale hash already met the target the block comes back untouched; otherwise the hash matches the content and the nonce is the least one above the old nonce that solves the puzzle |
| Chain.Linked | app.py:62-63 | the link test: block i's previous hash equals block i-1's stored hash; block 0 always passes, its previous hash is never compared with the zero sentinel |
| Chain.BlockValid | app.py:57-63 | a block is reported valid when its stored hash equals the recomputed digest and its link test passes |
| Chain.DigitChar | app.py:76 | the character for digit d is a decimal digit whose value is d |
| Chain.DecimalString | app.py:76 | the rendering of the block number is non-empty, all decimal digits, "0" for zero and without a leading zero otherwise |
| Chain.DecimalRoundTrip | app.py:76 | reading the rendering back as a decimal number gives the block number |
| Chain.InitialData | app.py:76 | the initial payload of block n is "Data for block " followed by decimal digits, without a leading zero when n > 0, that read back as n |
| Chain.AppendKeepsValid | app.py:75-78 | appending a freshly hashed block whose previous hash is the last block's hash keeps every block valid |
| Chain.InitialChainDeterministic | app.py:71-78 | any two chains with the initial content (five blocks numbered 1 to 5, nonce 0, default payloads, zero sentinel) that are fully valid are equal, so initialisation always rebuilds the same chain |
| Chain.Edited | app.py:91-95 | editing block i changes only block i; its number and previous hash stay, payload and nonce are the new ones, and its hash matches its new content |
| Chain.Propagated | app.py:104-106 | propagation keeps the chain's length and does nothing when start is the last index or beyond |
| Chain.PropagatedSpec | app.py:104-106 | propagation keeps blocks 0..start unchanged; it changes no number, nonce or payload; every block after start is linked to its predecessor and freshly hashed |
| Chain.PropagateRepairsChain | app.py:104-106 | if blocks 0..start are valid, every block is valid after propagating from start |
| Chain.TamperDetected | app.py:91-95 | under an injective digest, editing block i of a valid chain to a different payload or nonce makes block i+1 the only block reported invalid |
| Chain.UpdateRepairsChain | app.py:114-129 | if every block before k is valid and block k is linked, every block is valid after updating from k |
| Chain.Blockchain.constructor | app.py:69-80 | the chain exists from start-up, initialised |
| Chain.Blockchain.InitBlockchain | app.py:71-78 | the chain is rebuilt with the initial content and every block valid |
| Chain.Blockchain.MineAt | app.py:47-48 | only block i changes; number, payload and previous hash are kept; its hash meets the target; if the stale hash already met it, the nonce is 0 and the hash is unchanged; otherwise the nonce is at least 1, the hash matches the content, and no smaller positive nonce solves the puzzle; an index past the end is reported and changes nothing |
| Chain.Blockchain.MineAtRehashed | app.py:47-48 | corrected mining: the same frame, and the mined block always meets the target and matches its content with the least non-negative solving nonce |
| Chain.Blockchain.UpdateBlock | app.py:91-95 | the new chain is exactly `Edited` of the old one; an index past the end is reported and changes nothing |
| Chain.Blockchain.Propagate | app.py:104-106 | the new chain is exactly `Propagated` of the old one from `start`, for every start |
| Chain.Blockchain.Update | app.py:114-129 | the single pass equals editing block k and then propagating from k; the nonce defaults to the old one; an index past the end is reported and changes nothing |
| Chain.Blockchain.ValidateChain | app.py:55-65 | one entry per block, in order, with index i, valid exactly when the block's hash matches its content and, for i > 0, its previous hash equals block i-1's hash; the chain is only read |
| Chain.TamperScenario | app.py:55-65 | on a fresh chain under an injective digest, editing block 2 to ("tampered", 0) makes validation report only block 3 invalid; propagating from 2 then makes every block valid |
| Chain.ChangedNonceStalesHash | app.py:47 | under an injective digest, changing the nonce of a block whose hash matched its content leaves a hash that no longer matches |
| Chain.RemineScenario | app.py:47-48 | mining the first block of a fresh chain twice, as written, leaves it reported invalid |
| Chain.RemineRehashedScenario | app.py:47-48 | mining it twice with the corrected operation leaves it reported valid |

## Left out

- The web layer is not modelled: routing, parsing of the request body, `int(...)` conversion of request fields, JSON responses, template rendering and the server start.
- Malformed or missing request fields are not modelled. For mining, propagation and the update from an index they fail before the chain is touched.
- Chain.Blockchain.UpdateBlock: takes an integer nonce, so it does not model the partial update the program makes when the nonce field is missing or not an integer: block i's payload is overwritten at app.py:91 before app.py:92 raises, and its stored hash is left stale.
- Payloads are strings. The request's `data` field may be any JSON value (a number, a list, null), which the program stores and hashes as it is; the model covers string payloads only.
- SHA-256 and the sorted-key JSON serialisation are not modelled. The digest is a parameter, and only the two properties of its output named above are assumed, each where it is required: collision-freeness (`Injective`) and a solving nonce for mining. Its 64-character length is not assumed.
- `to_dict` is not modelled. It only snapshots the fields, and the `Block` value already is that snapshot.
- Python negative indexes are not modelled: neither the wrap-around `blockchain[-1]` nor a negative `start` or `index`. Indexes are `nat`.
- Blocks.MineBlock: termination of the search is not modelled. The loop runs until a solution exists, so the method requires a ghost `solution` above the current nonce, unless the stored hash already meets the target. A search that never ends is outside the model.
- Chain.Blockchain.MineAt: requires the same ghost `solution`, for the reset block.
- Blocks are values in a sequence, not objects. Nothing in the program aliases a block outside the list, so in-place field updates become updates of the sequence element.
- There is no concurrency, and the global chain is the one `Blockchain` object.

## Findings

| source | as written | input that shows it | evidently intended | confidence | as-written member | corrected member |
|---|---|---|---|---|---|---|
| app.py:47-48 | mining sets the nonce to 0 and starts the search from the stored hash without recomputing it, so a hash that already has four leading zeros is kept with nonce 0 | mine block 0 of a fresh chain, then mine it again: the second search stops at once, leaving nonce 0 next to the hash of the earlier nonce, and validation flags the block | after mining, the block's hash meets the target and matches its content | medium, not executed | Chain.Blockchain.MineAt, Chain.RemineScenario | Chain.Blockchain.MineAtRehashed, Chain.RemineRehashedScenario |
