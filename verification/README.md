# Ledger engine of a minimal proof-of-work blockchain, in Dafny

This project models the ledger core of a small Rust blockchain:

- blocks and their proof-of-work search (`src/block.rs`);
- the chain: genesis creation, append, tip-hash lookup and the linkage check (`src/blockchain.rs`);
- the miner: its own proof-of-work loop, the balance check, the debit and reward accounting, and the reward schedule (`src/miner.rs`);
- the transaction record a block carries (`src/transaction.rs`).

Every value is an immutable datatype and every operation is a pure function or method.

The block digest is a parameter `H: Preimage -> string`. A `Preimage` holds the five fields that `Block::proof_of_work` renders with `format!` before hashing (src/block.rs:104-108): index, timestamp, payload, previous hash and nonce. The string rendering, SHA-256 and the hex formatting are all folded into `H`. SHA-256 composed with the rendering is one such function, so every property here holds for the real digest. None of them depends on what the digest computes.

The proof-of-work loops have no termination argument in the source. Here each search is a recursive function with a ghost witness `bound`: a nonce whose digest is known to meet the target. The search stops at the first solution, never later than the witness, and `ProofOfWorkIndependentOfBound` shows the witness does not affect the result. The preconditions `Solvable` and `MinerSolvable` say only that such a witness exists, or that the block already meets the target.

Modules:

- `Wrappers`: `Option` and `Result`.
- `Transactions`: the record and its constructor.
- `Blocks`: the payload, the block, the preimage, the target, and `Block::proof_of_work`.
- `Chain`: `Blockchain` and its operations.
- `Mining`: the miner.

## How the source snapshots were reconciled

- `src/block.rs` gives a block a `data: String`, but `src/miner.rs` reads `block.transaction.amount`. The block's payload is therefore either `Text(s)` or `Transfer(transaction)`. The genesis block stores `Text("Genesis Block")`. A text payload moves amount `0.0`.
- `Miner::proof_of_work` hashes with `Block::calculate_hash(block)`, passing the whole block (src/miner.rs:39). But `calculate_hash` in src/block.rs:75 takes a string. The model assumes that the miner's digest is `H` over the same five-field preimage as the block's loop, built with the block's current (just incremented) nonce.
- After `Block::proof_of_work`, the stored nonce is one past the nonce that was hashed, because the loop hashes first and increments afterwards (src/block.rs:104-109). So hashing a mined block's final fields again does not in general give back its stored hash: `Blocks.ProofOfWork` states that the hash is the digest of nonce `r.nonce - 1`. As a consequence, a validator that recomputed each block's hash from its stored fields would in general reject chains built by `new` and `add_block`. The miner's loop has no such offset: its stored hash is the digest of the final nonce (`Mining.MinerProofOfWork`).
- `add_block` is infallible in `src/blockchain.rs:39-42`. So `mine_block` fails only on an insufficient balance, and the `?` after `add_block` in `src/miner.rs:73` never propagates an error.
- The reward uses `chain.len() - 1 / halving_interval` exactly as written (`src/miner.rs:95`). Division binds tighter and `1 / 210000` is 0, so the number of halvings equals the chain length. The reward therefore halves with every block (`RewardHalvesEveryBlock`). This contradicts the doc comment's "halved every 210,000 blocks". The model keeps the written formula because the miner tests' expected balances depend on it. Those balances are 190 and 145, and `MinerTestBalances` derives both.
- The older-snapshot test `src/tests/blockchain_test.rs:22-34` expects that changing a block's data makes the chain invalid. `is_valid` (src/blockchain.rs:54-65) compares only `hash` and `previous_hash`, so that tampering goes undetected (`PayloadTamperingUndetected`). Changing a hash that a later block names is detected (`HashTamperingDetected`).

## Model

| member | source | states |
|---|---|---|
| Transactions.New | src/transaction.rs:41-55 | sender, recipient, amount and signature are stored verbatim; the timestamp is the supplied clock reading; transaction id, fee and metadata start absent |
| Transactions.NewIsLossless | src/transaction.rs:41-55 | two constructed transactions are equal exactly when their constructor arguments are equal |
| Transactions.NewCoversUnannotated | src/transaction.rs:5-29 | every record with no id, fee or metadata is the result of the constructor on its own fields (the record has no setters) |
| Blocks.New | src/block.rs:51-65 | index, clock reading, payload and previous hash are stored as given; the hash starts empty and the nonce at 0 |
| Blocks.Target | src/block.rs:102 | the target has exactly `d` characters, all '0' |
| Blocks.MeetsIff | src/block.rs:102-103 | a hash meets difficulty `d` exactly when it has at least `d` characters and the first `d` are '0' |
| Blocks.MeetsWeakens | src/block.rs:102-103 | a hash that meets a difficulty meets every smaller difficulty |
| Blocks.EmptyHashMeetsOnlyZero | src/block.rs:62-103 | the empty hash of an unmined block meets difficulty `d` exactly when `d` is 0 |
| Blocks.ProofOfWork | src/block.rs:101-111 | the result meets the target; index, timestamp, payload and previous hash are unchanged; a block already meeting the target is returned as it is; otherwise the nonce grew, the hash is the digest built with nonce `r.nonce - 1`, and no earlier nonce's digest met the target |
| Blocks.ProofOfWorkIdempotent | src/block.rs:103 | running the search again on a mined block returns the same block |
| Blocks.ProofOfWorkIndependentOfBound | src/block.rs:103-110 | the search returns the first solution, whichever witness bounds it |
| Blocks.FreshBlockIsSearched | src/block.rs:62-109 | on a fresh block with positive difficulty the loop runs, the final nonce is positive and the hash is the digest of nonce `nonce - 1` |
| Blocks.FreshBlockAtZeroDifficulty | src/block.rs:103 | at difficulty 0 a fresh block comes back unchanged, because the empty hash meets the empty target |
| Chain.Genesis | src/blockchain.rs:26 | the genesis block has index 0, payload "Genesis Block", no previous hash, the supplied clock reading, an empty hash and nonce 0 |
| Chain.New | src/blockchain.rs:25-32 | the chain has exactly one block: index 0, payload "Genesis Block", no previous hash, a hash meeting `d`; the stored difficulty is `d` |
| Chain.AddBlock | src/blockchain.rs:39-42 | the chain grows by exactly one block; earlier blocks and the difficulty are unchanged; the new block meets the difficulty and keeps its index, timestamp, payload and previous hash as supplied (no linkage check) |
| Chain.LatestHash | src/blockchain.rs:44-46 | `None` exactly on an empty chain, otherwise the last block's hash |
| Chain.IsValid | src/blockchain.rs:54-65 | `Ok(true)` exactly when every block after the first names its predecessor's hash; otherwise the chain-broken error; never `Ok(false)` |
| Chain.ShortChainIsLinked | src/blockchain.rs:55 | a chain of at most one block passes the check vacuously |
| Chain.GenesisLinkIgnored | src/blockchain.rs:55-59 | the first block's previous hash never affects the verdict |
| Chain.NewIsLinked | src/blockchain.rs:25-46 | a freshly created chain is linked and its tip hash is present |
| Chain.AddBlockMovesTip | src/blockchain.rs:39-46 | after an append the tip hash is the mined block's hash |
| Chain.AddBlockLinkedIff | src/blockchain.rs:39-65 | appending to a linked chain keeps it linked exactly when the chain was empty or the block names the current tip hash |
| Chain.Extend | src/tests/block_test.rs:7-21 | appending a block per entry, each naming the current tip, grows the chain by one block per entry and keeps earlier blocks and the difficulty |
| Chain.ExtendKeepsLinked | src/blockchain.rs:39-46 | such repeated appends keep a linked chain linked |
| Chain.BuiltChainIsLinked | src/tests/block_test.rs:7-24 | a chain created by `new` and grown by such appends is linked and has one block more than the number of appends |
| Chain.PayloadTamperingUndetected | src/blockchain.rs:59 | replacing any block's payload leaves the linkage verdict unchanged |
| Chain.HashTamperingDetected | src/blockchain.rs:59-62 | overwriting the hash of a block that has a successor breaks a linked chain |
| Mining.MinerProofOfWork | src/miner.rs:35-41 | the result meets the target; only hash and nonce may change; a block already meeting the target is returned as it is; otherwise the nonce grew, the hash is the digest of the final nonce itself, and no nonce tried before it met the target |
| Mining.BlockReward | src/miner.rs:92-98 | the reward is never negative and is 0 exactly when the difficulty is 0 |
| Mining.RewardIsHalvedByLength | src/miner.rs:93-97 | the halving count equals the chain length; reward times 2^length is 50 times the difficulty; a one-block chain pays 25 times the difficulty |
| Mining.RewardHalvesEveryBlock | src/miner.rs:95-96 | one more block at the same difficulty halves the reward |
| Mining.RewardNonIncreasing | src/miner.rs:95-97 | a longer chain at the same difficulty never pays more |
| Mining.MineBlock | src/miner.rs:58-79 | it fails exactly when a tracked balance is below the amount, and then miner and chain are unchanged; on success exactly one block (the miner's mined block, untouched by the append's own search) is appended, an untracked balance stays untracked, and a tracked balance becomes balance - amount + the reward of the chain before the append |
| Mining.MiningKeepsBalanceNonNegative | src/miner.rs:61-77 | a non-negative tracked balance stays non-negative after mining |
| Mining.MineBlockLinkedIff | src/miner.rs:72-73 | a successful mine keeps a linked chain linked exactly when the chain was empty or the block names the tip hash |
| Mining.MinerTestBalances | src/tests/miner_test.rs:8-44 | from balance 100 on a fresh chain: amount 10 at difficulty 4 leaves 190, amount 80 at difficulty 5 leaves 145, amount 110 fails and leaves 100 |

## Left out

- SHA-256, the `format!` rendering of the preimage and the hex output of `calculate_hash` (`src/block.rs:75-80`): folded into the uninterpreted digest `H`.
- `SystemTime::now()`: clock readings are parameters.
- Termination of the proof-of-work loops: each search takes a ghost witness nonce instead. A search with no solution (the source loops forever) cannot be called.
- Integer widths: `index` and `nonce` are `u32` and `timestamp` is `u64` in the source. They are unbounded here, so nonce overflow during the search is not modelled.
- Mining.BlockReward: uses exact reals, so it does not model `f64` rounding, the `halvings as i32` cast, or `powi` overflowing to infinity (which makes the source's reward exactly 0 on very long chains).
- Mining.MineBlock: uses exact real balances, so it does not model `f64` rounding of the debit and credit.
- Transaction signing and signature verification: they appear only in the tests, use an external Ed25519 library, and are not in `src/transaction.rs`.
- The network layer (`src/network.rs`, `src/client.rs`), `src/main.rs` and the serde wrapper `src/arc_string.rs`: I/O, concurrency and printing. Shared `Rc<str>` hashes are plain strings here.
