/** The miner: its own proof-of-work loop, the balance check, debit and reward accounting,
    and the reward schedule (src/miner.rs). */
module Mining {
  import opened Wrappers
  import opened Blocks
  import opened Chain

  /** A miner either tracks a balance (`Some`, a human participant) or does not (`None`, a
      computing resource). Balances are exact reals instead of `f64`. */
  datatype Miner = Miner(balance: Option<real>)

  /** The message `mine_block` returns when the balance does not cover the amount. */
  const InsufficientBalance: string := "Insufficient crypto balance to mine the block!"

  const InitialReward: real := 50.0
  const HalvingInterval: nat := 210000

  /** What one `mine_block` call leaves behind: the miner, the chain and the returned result. */
  datatype Outcome = Outcome(miner: Miner, ledger: Blockchain, result: Result<(), string>)

  /** The miner's search ends: either `b` already meets the target, or `bound` is a nonce
      after `b.nonce` whose digest does (the nonce is incremented before the first hash). */
  predicate MinerSolvable(H: Preimage -> string, b: Block, d: nat, bound: nat)
  {
    Meets(b.hash, d) || (b.nonce < bound && Meets(H(PreimageAt(b, bound)), d))
  }

  /** `Miner::proof_of_work`: while the hash does not meet the target, increment the nonce,
      then hash. Unlike the block's own loop, the stored hash is therefore the digest of the
      final nonce itself, and the first nonce tried is `b.nonce + 1`. */
  function MinerProofOfWork(H: Preimage -> string, b: Block, d: nat, ghost bound: nat): (r: Block)
    requires MinerSolvable(H, b, d, bound)
    decreases bound - b.nonce
    ensures Meets(r.hash, d)
    ensures r.index == b.index && r.timestamp == b.timestamp
    ensures r.data == b.data && r.previousHash == b.previousHash
    ensures Meets(b.hash, d) ==> r == b
    ensures !Meets(b.hash, d) ==>
      && r.nonce > b.nonce
      && r.hash == H(PreimageAt(b, r.nonce))
      && forall k :: b.nonce < k < r.nonce ==> !Meets(H(PreimageAt(b, k)), d)
  {
    if Meets(b.hash, d) then b
    else
      var bumped := b.(nonce := b.nonce + 1);
      var next := bumped.(hash := H(PreimageAt(bumped, bumped.nonce)));
      assert forall k :: PreimageAt(next, k) == PreimageAt(b, k);
      MinerProofOfWork(H, next, d, bound)
  }

  /** 2 to the power `n`, as a real. */
  function Pow2(n: nat): (r: real)
    ensures r >= 1.0
  {
    if n == 0 then 1.0 else 2.0 * Pow2(n - 1)
  }

  lemma {:induction false} Pow2Monotone(m: nat, n: nat)
    requires m <= n
    ensures Pow2(m) <= Pow2(n)
    decreases n
  {
    if m < n {
      Pow2Monotone(m, n - 1);
    }
  }

  /** The number of halvings as the source writes it, `len - 1 / halving_interval`.
      Division binds tighter than subtraction and `1 / 210000` is 0, so the count is the
      chain length itself. */
  function Halvings(bc: Blockchain): (h: nat)
  {
    |bc.chain| - 1 / HalvingInterval
  }

  /** `calculate_block_reward`: the initial reward halved once per halving, scaled by the
      chain's difficulty. The reward is never negative and is 0 at difficulty 0. */
  function BlockReward(bc: Blockchain): (r: real)
    ensures r >= 0.0
    ensures bc.difficulty == 0 <==> r == 0.0
  {
    InitialReward / Pow2(Halvings(bc)) * (bc.difficulty as real)
  }

  /** Because of the precedence, the reward is `50 * difficulty / 2^len`: on a chain holding
      only the genesis block it is already halved once. */
  lemma RewardIsHalvedByLength(bc: Blockchain)
    ensures Halvings(bc) == |bc.chain|
    ensures BlockReward(bc) * Pow2(|bc.chain|) == InitialReward * (bc.difficulty as real)
    ensures |bc.chain| == 1 ==> BlockReward(bc) == 25.0 * (bc.difficulty as real)
  {
  }

  /** As written, the reward halves with every block, not every 210000 blocks. */
  lemma RewardHalvesEveryBlock(bc: Blockchain, bc': Blockchain)
    requires bc'.difficulty == bc.difficulty && |bc'.chain| == |bc.chain| + 1
    ensures BlockReward(bc') * 2.0 == BlockReward(bc)
  {
  }

  /** A longer chain at the same difficulty never earns a larger reward. */
  lemma RewardNonIncreasing(bc: Blockchain, bc': Blockchain)
    requires bc'.difficulty == bc.difficulty && |bc.chain| <= |bc'.chain|
    ensures BlockReward(bc') <= BlockReward(bc)
  {
    Pow2Monotone(|bc.chain|, |bc'.chain|);
    var p, p' := Pow2(|bc.chain|), Pow2(|bc'.chain|);
    DivAntitone(InitialReward, p, p');
    assert Halvings(bc) == |bc.chain| && Halvings(bc') == |bc'.chain|;
    MulMonotone(InitialReward / p', InitialReward / p, bc.difficulty as real);
  }

  lemma MulMonotone(x: real, y: real, c: real)
    requires x <= y && c >= 0.0
    ensures x * c <= y * c
  {
    assert (y - x) * c >= 0.0;
  }

  lemma DivAntitone(a: real, p: real, q: real)
    requires a >= 0.0 && 0.0 < p <= q
    ensures a / q <= a / p
  {
  }

  /** `mine_block`: run the miner's search at the chain's difficulty; if a balance is
      tracked and does not cover the payload's amount, fail with nothing changed; otherwise
      compute the reward on the chain as it is before the append, append (whose own search
      finds the block already mined and leaves it as it is), and adjust a tracked balance by
      the reward minus the amount. */
  function MineBlock(H: Preimage -> string, m: Miner, bc: Blockchain, b: Block, ghost bound: nat): (o: Outcome)
    requires MinerSolvable(H, b, bc.difficulty, bound)
    ensures o.result.Err? <==> m.balance.Some? && m.balance.value < Amount(b.data)
    ensures o.result.Err? ==> o.result.error == InsufficientBalance && o.miner == m && o.ledger == bc
    ensures o.result.Ok? ==>
      && |o.ledger.chain| == |bc.chain| + 1
      && o.ledger.chain[..|bc.chain|] == bc.chain
      && o.ledger.difficulty == bc.difficulty
      && o.ledger.chain[|bc.chain|] == MinerProofOfWork(H, b, bc.difficulty, bound)
    ensures o.result.Ok? ==>
      match m.balance
      case None => o.miner.balance == None
      case Some(v) => o.miner.balance == Some(v - Amount(b.data) + BlockReward(bc))
  {
    var mined := MinerProofOfWork(H, b, bc.difficulty, bound);
    var amount := Amount(mined.data);
    if m.balance.Some? && !(m.balance.value >= amount) then
      Outcome(m, bc, Err(InsufficientBalance))
    else
      var debited := if m.balance.Some? then Some(m.balance.value - amount) else None;
      var reward := BlockReward(bc);
      var appended := AddBlock(H, bc, mined, mined.nonce);
      var credited := if debited.Some? then Some(debited.value + reward) else None;
      Outcome(Miner(credited), appended, Ok(()))
  }

  /** A tracked balance that starts non-negative stays non-negative after mining whenever
      every amount is covered, which is exactly what the balance check enforces. */
  lemma MiningKeepsBalanceNonNegative(H: Preimage -> string, v: real, bc: Blockchain, b: Block, bound: nat)
    requires MinerSolvable(H, b, bc.difficulty, bound)
    requires v >= 0.0
    ensures MineBlock(H, Miner(Some(v)), bc, b, bound).miner.balance.Some?
    ensures MineBlock(H, Miner(Some(v)), bc, b, bound).miner.balance.value >= 0.0
  {
  }

  /** Mining a block onto a linked chain keeps it linked exactly when the chain was empty or
      the block names the current tip's hash (or the mining failed and nothing changed). */
  lemma MineBlockLinkedIff(H: Preimage -> string, m: Miner, bc: Blockchain, b: Block, bound: nat)
    requires MinerSolvable(H, b, bc.difficulty, bound)
    requires Linked(bc.chain)
    ensures var o := MineBlock(H, m, bc, b, bound);
      o.result.Ok? ==> (Linked(o.ledger.chain) <==> |bc.chain| == 0 || b.previousHash == LatestHash(bc))
  {
  }

  /** The expected balances of the source's miner tests: starting from 100 on a fresh chain,
      mining 10 at difficulty 4 leaves 100 - 10 + 100 = 190, mining 80 at difficulty 5
      leaves 100 - 80 + 125 = 145, and mining 110 fails and leaves 100. */
  lemma MinerTestBalances(H: Preimage -> string, d: nat, now: nat, bound: nat, b: Block, minedBound: nat)
    requires d == 4 || d == 5
    requires Solvable(H, Genesis(now), d, bound)
    requires MinerSolvable(H, b, d, minedBound)
    requires b.data.Transfer?
    ensures var o := MineBlock(H, Miner(Some(100.0)), Chain.New(H, d, now, bound), b, minedBound);
      && (d == 4 && b.data.transaction.amount == 10.0 ==> o.miner.balance == Some(190.0))
      && (d == 5 && b.data.transaction.amount == 80.0 ==> o.miner.balance == Some(145.0))
      && (b.data.transaction.amount == 110.0 ==> o.result.Err? && o.miner.balance == Some(100.0))
  {
  }
}
