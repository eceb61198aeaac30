/** Blocks and the proof-of-work search (src/block.rs).

    The digest is an arbitrary function `H` from a block's hash preimage to a string, so
    every property below holds whatever SHA-256 computes. */
module Blocks {
  import opened Wrappers
  import opened Transactions

  /** What a block stores: free text (the genesis block's "Genesis Block") or a transaction,
      whose `amount` the miner reads. */
  datatype Payload = Text(text: string) | Transfer(transaction: Transaction)

  /** The amount a payload moves; a text payload carries no transfer. */
  function Amount(p: Payload): real
  {
    match p
    case Text(_) => 0.0
    case Transfer(t) => t.amount
  }

  /** A chain element. `previousHash` is `None` for a block without predecessor; `hash` is
      empty until the block is mined; `nonce` counts the proof-of-work attempts. */
  datatype Block = Block(
    index: nat,
    timestamp: nat,
    data: Payload,
    previousHash: Option<string>,
    hash: string,
    nonce: nat
  )

  /** The fields the digest is computed over: everything except the stored hash, with the
      nonce of the attempt. The source renders them into one string with `format!`; that
      rendering is folded into `H`. */
  datatype Preimage = Preimage(
    index: nat,
    timestamp: nat,
    data: Payload,
    previousHash: Option<string>,
    nonce: nat
  )

  /** The preimage of block `b` when the nonce is `k`. */
  function PreimageAt(b: Block, k: nat): Preimage
  {
    Preimage(b.index, b.timestamp, b.data, b.previousHash, k)
  }

  /** `"0".repeat(d)`: the difficulty target. */
  function Target(d: nat): (t: string)
    ensures |t| == d
    ensures forall i :: 0 <= i < |t| ==> t[i] == '0'
  {
    seq(d, _ => '0')
  }

  /** `hash.starts_with(target)`: the hash begins with `d` zero characters. */
  predicate Meets(hash: string, d: nat)
  {
    Target(d) <= hash
  }

  /** A hash meets difficulty `d` exactly when it has at least `d` characters and the first
      `d` of them are all '0'. */
  lemma MeetsIff(hash: string, d: nat)
    ensures Meets(hash, d) <==> |hash| >= d && forall i :: 0 <= i < d ==> hash[i] == '0'
  {
  }

  /** Meeting a target also meets every smaller one. */
  lemma MeetsWeakens(hash: string, d: nat, e: nat)
    requires Meets(hash, d) && e <= d
    ensures Meets(hash, e)
  {
  }

  /** The empty hash of an unmined block meets only difficulty 0. */
  lemma EmptyHashMeetsOnlyZero(d: nat)
    ensures Meets("", d) <==> d == 0
  {
  }

  /** `Block::new` with the clock reading `now` as the timestamp. */
  function New(index: nat, now: nat, data: Payload, previousHash: Option<string>): (b: Block)
    ensures b.index == index && b.timestamp == now
    ensures b.data == data && b.previousHash == previousHash
    ensures b.hash == "" && b.nonce == 0
  {
    Block(index, now, data, previousHash, "", 0)
  }

  /** The search of `Block::proof_of_work(d)` starting from `b` ends: either `b` already
      meets the target, or `bound` is a nonce at or after `b.nonce` whose digest does.
      The witness only bounds the search; the result does not depend on it. */
  predicate Solvable(H: Preimage -> string, b: Block, d: nat, bound: nat)
  {
    Meets(b.hash, d) || (b.nonce <= bound && Meets(H(PreimageAt(b, bound)), d))
  }

  /** `Block::proof_of_work(d)`: while the hash does not meet the target, hash the preimage
      with the current nonce, then increment the nonce. The result meets the target; only
      `hash` and `nonce` may differ from `b`; a block that already meets the target comes
      back unchanged; otherwise the stored hash is the digest of nonce `r.nonce - 1`, the
      first nonce from `b.nonce` on whose digest meets the target. */
  function ProofOfWork(H: Preimage -> string, b: Block, d: nat, ghost bound: nat): (r: Block)
    requires Solvable(H, b, d, bound)
    decreases bound - b.nonce
    ensures Meets(r.hash, d)
    ensures r.index == b.index && r.timestamp == b.timestamp
    ensures r.data == b.data && r.previousHash == b.previousHash
    ensures Meets(b.hash, d) ==> r == b
    ensures !Meets(b.hash, d) ==>
      && r.nonce > b.nonce
      && r.hash == H(PreimageAt(b, r.nonce - 1))
      && forall k :: b.nonce <= k < r.nonce - 1 ==> !Meets(H(PreimageAt(b, k)), d)
  {
    if Meets(b.hash, d) then b
    else
      var next := b.(hash := H(PreimageAt(b, b.nonce)), nonce := b.nonce + 1);
      assert forall k :: PreimageAt(next, k) == PreimageAt(b, k);
      ProofOfWork(H, next, d, bound)
  }

  /** Proof-of-work is idempotent: a mined block is a fixed point. */
  lemma ProofOfWorkIdempotent(H: Preimage -> string, b: Block, d: nat, bound: nat, bound': nat)
    requires Solvable(H, b, d, bound)
    ensures Solvable(H, ProofOfWork(H, b, d, bound), d, bound')
    ensures ProofOfWork(H, ProofOfWork(H, b, d, bound), d, bound') == ProofOfWork(H, b, d, bound)
  {
  }

  /** The search returns the first solution and so does not depend on the witness that
      bounds it. */
  lemma ProofOfWorkIndependentOfBound(H: Preimage -> string, b: Block, d: nat,
                                                          bound: nat, bound': nat)
    requires Solvable(H, b, d, bound) && Solvable(H, b, d, bound')
    ensures ProofOfWork(H, b, d, bound) == ProofOfWork(H, b, d, bound')
    decreases bound - b.nonce
  {
  }

  /** On a fresh block (empty hash, nonce 0) with a positive difficulty the empty hash never
      meets the target, so the loop runs at least once: the nonce ends positive and the
      stored hash is the digest of the preimage built with nonce `r.nonce - 1`. */
  lemma FreshBlockIsSearched(H: Preimage -> string, b: Block, d: nat, bound: nat)
    requires b.hash == "" && b.nonce == 0 && d > 0
    requires Meets(H(PreimageAt(b, bound)), d)
    ensures Solvable(H, b, d, bound)
    ensures var r := ProofOfWork(H, b, d, bound);
      r.nonce > 0 && r.hash == H(PreimageAt(b, r.nonce - 1))
  {
    EmptyHashMisses(d);
    SearchedHash(H, b, d, bound);
  }

  /** The part of `ProofOfWork`'s contract for a block that does not meet the target yet. */
  lemma SearchedHash(H: Preimage -> string, b: Block, d: nat, bound: nat)
    requires Solvable(H, b, d, bound) && !Meets(b.hash, d)
    ensures var r := ProofOfWork(H, b, d, bound);
      r.nonce > b.nonce && r.hash == H(PreimageAt(b, r.nonce - 1))
  {
  }

  /** The empty hash misses every positive target: the target is longer than it. */
  lemma EmptyHashMisses(d: nat)
    requires d > 0
    ensures !Meets("", d)
  {
    assert |Target(d)| > |""|;
  }

  /** At difficulty 0 even the empty hash meets the target, so a fresh block is returned
      unmined: empty hash, nonce 0. */
  lemma FreshBlockAtZeroDifficulty(H: Preimage -> string, b: Block, bound: nat)
    requires b.hash == "" && b.nonce == 0
    ensures Solvable(H, b, 0, bound)
    ensures ProofOfWork(H, b, 0, bound) == b
  {
  }
}
