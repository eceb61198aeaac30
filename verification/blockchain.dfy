/** The ledger: an ordered sequence of blocks and the difficulty every appended block is
    mined to (src/blockchain.rs). */
module Chain {
  import opened Wrappers
  import opened Blocks

  /** Both fields are public in the source, so nothing forces `chain` to be non-empty or
      linked; `IsValid` is what checks linkage. */
  datatype Blockchain = Blockchain(chain: seq<Block>, difficulty: nat)

  /** The message `is_valid` returns on a linkage mismatch. */
  const ChainBroken: string :=
    "Blockchain is invalid! Blocks were moved and a hash mismatch has occurred"

  /** The unmined genesis block `Blockchain::new` starts from, stamped with clock reading `now`. */
  function Genesis(now: nat): (b: Block)
    ensures b.index == 0 && b.timestamp == now
    ensures b.data == Text("Genesis Block") && b.previousHash == None
    ensures b.hash == "" && b.nonce == 0
  {
    Blocks.New(0, now, Text("Genesis Block"), None)
  }

  /** `Blockchain::new(d)`: a one-block chain holding the genesis block mined to difficulty
      `d`, which is also the difficulty stored for later appends. */
  function New(H: Preimage -> string, d: nat, now: nat, ghost bound: nat): (bc: Blockchain)
    requires Solvable(H, Genesis(now), d, bound)
    ensures |bc.chain| == 1 && bc.difficulty == d
    ensures bc.chain[0].index == 0 && bc.chain[0].timestamp == now
    ensures bc.chain[0].data == Text("Genesis Block") && bc.chain[0].previousHash == None
    ensures Meets(bc.chain[0].hash, d)
  {
    Blockchain([ProofOfWork(H, Genesis(now), d, bound)], d)
  }

  /** `add_block`: mine the block to the chain's difficulty and push it. It cannot fail and
      does not check linkage: the block's `previousHash` is kept as supplied. Every earlier
      block and the difficulty stay as they were. */
  function AddBlock(H: Preimage -> string, bc: Blockchain, b: Block, ghost bound: nat): (r: Blockchain)
    requires Solvable(H, b, bc.difficulty, bound)
    ensures |r.chain| == |bc.chain| + 1
    ensures r.chain[..|bc.chain|] == bc.chain
    ensures r.difficulty == bc.difficulty
    ensures var last := r.chain[|bc.chain|];
      && Meets(last.hash, bc.difficulty)
      && last.index == b.index && last.timestamp == b.timestamp
      && last.data == b.data && last.previousHash == b.previousHash
  {
    Blockchain(bc.chain + [ProofOfWork(H, b, bc.difficulty, bound)], bc.difficulty)
  }

  /** `get_latest_block_hash`: the tip's hash, or `None` on an empty chain. */
  function LatestHash(bc: Blockchain): (h: Option<string>)
    ensures |bc.chain| == 0 <==> h == None
    ensures |bc.chain| > 0 ==> h == Some(bc.chain[|bc.chain| - 1].hash)
  {
    if |bc.chain| == 0 then None else Some(bc.chain[|bc.chain| - 1].hash)
  }

  /** Chain linkage: every block after the first names its predecessor's hash. The first
      block's own `previousHash` is not constrained. */
  predicate Linked(c: seq<Block>)
  {
    forall i :: 1 <= i < |c| ==> c[i].previousHash == Some(c[i - 1].hash)
  }

  /** `is_valid`: walk the adjacent pairs and return an error at the first mismatch. The
      result is `Ok(true)` exactly when the chain is linked and the error otherwise; it is
      never `Ok(false)`. */
  method IsValid(bc: Blockchain) returns (r: Result<bool, string>)
    ensures r == Ok(true) <==> Linked(bc.chain)
    ensures r != Ok(true) ==> r == Err(ChainBroken)
  {
    var i := 1;
    while i < |bc.chain|
      invariant 1 <= i
      invariant forall j :: 1 <= j < i && j < |bc.chain| ==> bc.chain[j].previousHash == Some(bc.chain[j - 1].hash)
    {
      if bc.chain[i].previousHash != Some(bc.chain[i - 1].hash) {
        return Err(ChainBroken);
      }
      i := i + 1;
    }
    return Ok(true);
  }

  /** A chain of at most one block is linked whatever it holds. */
  lemma ShortChainIsLinked(c: seq<Block>)
    requires |c| <= 1
    ensures Linked(c)
  {
  }

  /** A chain built by `New` is linked, and its tip hash is present. */
  lemma NewIsLinked(H: Preimage -> string, d: nat, now: nat, bound: nat)
    requires Solvable(H, Genesis(now), d, bound)
    ensures Linked(New(H, d, now, bound).chain)
    ensures LatestHash(New(H, d, now, bound)).Some?
  {
  }

  /** After an append the tip hash is the appended (mined) block's hash. */
  lemma AddBlockMovesTip(H: Preimage -> string, bc: Blockchain, b: Block, bound: nat)
    requires Solvable(H, b, bc.difficulty, bound)
    ensures LatestHash(AddBlock(H, bc, b, bound)) == Some(ProofOfWork(H, b, bc.difficulty, bound).hash)
  {
  }

  /** Appending to a linked chain keeps it linked exactly when the chain was empty or the
      new block names the current tip's hash. */
  lemma AddBlockLinkedIff(H: Preimage -> string, bc: Blockchain, b: Block, bound: nat)
    requires Solvable(H, b, bc.difficulty, bound)
    requires Linked(bc.chain)
    ensures Linked(AddBlock(H, bc, b, bound).chain)
        <==> |bc.chain| == 0 || b.previousHash == LatestHash(bc)
  {
  }

  /** One step of growing the chain the way the source's tests do:
      `add_block(Block::new(index, data, get_latest_block_hash()))`. */
  datatype Entry = Entry(index: nat, now: nat, data: Payload)

  /** The fresh block an entry becomes when appended to `bc`. */
  function NextBlock(bc: Blockchain, e: Entry): Block
  {
    Blocks.New(e.index, e.now, e.data, LatestHash(bc))
  }

  /** Every step of `Extend` has a witness nonce, so each search ends. */
  ghost predicate CanExtend(H: Preimage -> string, bc: Blockchain, entries: seq<Entry>, bounds: seq<nat>)
    decreases |entries|
  {
    && |bounds| == |entries|
    && (|entries| > 0 ==>
          && Solvable(H, NextBlock(bc, entries[0]), bc.difficulty, bounds[0])
          && CanExtend(H, AddBlock(H, bc, NextBlock(bc, entries[0]), bounds[0]), entries[1..], bounds[1..]))
  }

  /** Append each entry in turn, each block naming the tip hash current at its step. The
      chain grows by one block per entry and the earlier blocks are untouched. */
  function Extend(H: Preimage -> string, bc: Blockchain, entries: seq<Entry>, ghost bounds: seq<nat>): (r: Blockchain)
    requires CanExtend(H, bc, entries, bounds)
    decreases |entries|
    ensures |r.chain| == |bc.chain| + |entries|
    ensures r.chain[..|bc.chain|] == bc.chain
    ensures r.difficulty == bc.difficulty
  {
    if |entries| == 0 then bc
    else
      var next := AddBlock(H, bc, NextBlock(bc, entries[0]), bounds[0]);
      var r := Extend(H, next, entries[1..], bounds[1..]);
      assert r.chain[..|bc.chain|] == r.chain[..|next.chain|][..|bc.chain|];
      r
  }

  /** Growing a linked chain this way keeps it linked. */
  lemma {:induction false} ExtendKeepsLinked(H: Preimage -> string, bc: Blockchain, entries: seq<Entry>, bounds: seq<nat>)
    requires CanExtend(H, bc, entries, bounds)
    requires Linked(bc.chain)
    ensures Linked(Extend(H, bc, entries, bounds).chain)
    decreases |entries|
  {
    if |entries| > 0 {
      var b := NextBlock(bc, entries[0]);
      AddBlockLinkedIff(H, bc, b, bounds[0]);
      ExtendKeepsLinked(H, AddBlock(H, bc, b, bounds[0]), entries[1..], bounds[1..]);
    }
  }

  /** A chain built by `New` and then grown with blocks naming the current tip is linked,
      so `IsValid` returns `Ok(true)` on it. */
  lemma BuiltChainIsLinked(H: Preimage -> string, d: nat, now: nat, bound: nat,
                           entries: seq<Entry>, bounds: seq<nat>)
    requires Solvable(H, Genesis(now), d, bound)
    requires CanExtend(H, New(H, d, now, bound), entries, bounds)
    ensures Linked(Extend(H, New(H, d, now, bound), entries, bounds).chain)
    ensures |Extend(H, New(H, d, now, bound), entries, bounds).chain| == 1 + |entries|
  {
    NewIsLinked(H, d, now, bound);
    ExtendKeepsLinked(H, New(H, d, now, bound), entries, bounds);
  }

  /** Linkage reads only `hash` and `previousHash`: replacing the payload of any block leaves
      the verdict unchanged, so payload tampering goes undetected. */
  lemma PayloadTamperingUndetected(c: seq<Block>, k: nat, p: Payload)
    requires k < |c|
    ensures Linked(c[k := c[k].(data := p)]) <==> Linked(c)
  {
    var t := c[k := c[k].(data := p)];
    assert forall i :: 0 <= i < |c| ==> t[i].hash == c[i].hash && t[i].previousHash == c[i].previousHash;
  }

  /** The genesis block's `previousHash` is never inspected. */
  lemma GenesisLinkIgnored(c: seq<Block>, h: Option<string>)
    requires |c| > 0
    ensures Linked(c[0 := c[0].(previousHash := h)]) <==> Linked(c)
  {
    var t := c[0 := c[0].(previousHash := h)];
    assert forall i :: 0 <= i < |c| ==> t[i].hash == c[i].hash;
    assert forall i :: 1 <= i < |c| ==> t[i] == c[i];
  }

  /** Overwriting the hash of a block that has a successor breaks a linked chain. */
  lemma HashTamperingDetected(c: seq<Block>, k: nat, h: string)
    requires Linked(c)
    requires k + 1 < |c| && h != c[k].hash
    ensures !Linked(c[k := c[k].(hash := h)])
  {
    var t := c[k := c[k].(hash := h)];
    assert t[k + 1].previousHash == c[k + 1].previousHash == Some(c[k].hash);
    assert t[k + 1].previousHash != Some(t[k].hash);
  }
}
