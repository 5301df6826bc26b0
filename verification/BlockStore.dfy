/** Whole runs of one node: the stored blocks form a forest rooted at height 0,
    and the finalised height is that of the highest accepted certificate. */
module BlockStore {
  import opened Types
  import opened StakeWeight
  import opened VoteAggregation
  import opened QcVerification
  import opened Consensus

  /** One event at a node; the validator set is the registry's at that moment. */
  datatype Op =
    | SetGenesis(block: Block)
    | ReceiveBlock(block: Block, set_: ValidatorSet)
    | ReceiveVote(vote: Vote, set_: ValidatorSet)
    | ViewChange
    | PruneVotes(height: u64)
    | NewEpochSet(set_: ValidatorSet)

  /** A node, the set its aggregator counts by, and the certificates it accepted
      since its last genesis. */
  datatype Node = Node(st: EngineState, aggSet: ValidatorSet, accepted: set<QuorumCertificate>)

  function Start(set_: ValidatorSet): Node {
    Node(INITIAL, set_, {})
  }

  function Apply(env: Env, n: Node, op: Op): Node {
    match op
    case SetGenesis(block) =>
      if block.header.height != 0 then n
      else n.(st := WithGenesis(env, n.st, block), accepted := {})
    case ReceiveBlock(block, set_) => n.(st := AfterBlock(env, set_, n.st, block))
    case ReceiveVote(vote, set_) =>
      var qc := CertificateOnVote(env, n.aggSet, n.st, vote);
      n.(st := AfterVote(env, n.aggSet, set_, n.st, vote),
         accepted := n.accepted +
           if qc.Some? && VerifyQc(env.bls, qc.value, set_) == Accept then {qc.value} else {})
    case ViewChange => n.(st := n.st.(view := Wrap(n.st.view + 1)))
    case PruneVotes(height) => n.(st := n.st.(book := ClearUpTo(n.st.book, height)))
    case NewEpochSet(set_) => n.(aggSet := set_)
  }

  function Run(env: Env, n: Node, ops: seq<Op>): Node {
    if ops == [] then n else Apply(env, Run(env, n, ops[..|ops| - 1]), ops[|ops| - 1])
  }

  ghost predicate CollisionFree(hashOf: BlockHeader -> Hash) {
    forall a, b :: hashOf(a) == hashOf(b) ==> a == b
  }

  // ---- The invariant ----

  /** Every stored block of positive height links to a stored block one lower and
      strictly older. */
  ghost predicate Linked(blocks: map<Hash, Block>) {
    forall h :: h in blocks && blocks[h].header.height > 0 ==>
      var header := blocks[h].header;
      && header.previousHash in blocks
      && blocks[header.previousHash].header.height == header.height - 1
      && blocks[header.previousHash].header.timestamp < header.timestamp
  }

  ghost predicate StoreInvariant(env: Env, st: EngineState) {
    && (forall h :: h in st.blocks ==> env.hashOf(st.blocks[h].header) == h)
    && Linked(st.blocks)
    && (forall n :: n in st.heightIndex ==>
          st.heightIndex[n] in st.blocks && st.blocks[st.heightIndex[n]].header.height == n)
  }

  /** The highest certificate is the highest accepted one, and its height is the
      finalised height. */
  ghost predicate FinalityInvariant(n: Node) {
    && n.st.finalizedHeight == n.st.highestQc.height
    && (forall qc :: qc in n.accepted ==> qc.height <= n.st.finalizedHeight && qc.hash in n.st.finalized)
    && (n.st.finalizedHeight > 0 ==> n.st.highestQc in n.accepted)
  }

  lemma StoredKeepsStore(env: Env, st: EngineState, block: Block)
    requires CollisionFree(env.hashOf) && StoreInvariant(env, st) && ExtendsParent(st, block.header)
    ensures StoreInvariant(env, Stored(env, st, block))
  {
    var st' := Stored(env, st, block);
    var h0 := env.hashOf(block.header);
    // Overwriting an entry keeps its header, because the digest fixes it.
    assert h0 in st.blocks ==> st.blocks[h0].header == block.header;
    forall h | h in st'.blocks && st'.blocks[h].header.height > 0
      ensures var header := st'.blocks[h].header;
              && header.previousHash in st'.blocks
              && st'.blocks[header.previousHash].header.height == header.height - 1
              && st'.blocks[header.previousHash].header.timestamp < header.timestamp
    {
      var prev := st'.blocks[h].header.previousHash;
      assert prev in st.blocks;
    }
  }

  lemma VoteKeepsFinality(env: Env, n: Node, vote: Vote, set_: ValidatorSet)
    requires FinalityInvariant(n)
    ensures FinalityInvariant(Apply(env, n, ReceiveVote(vote, set_)))
  {
    var n' := Apply(env, n, ReceiveVote(vote, set_));
    var qc := CertificateOnVote(env, n.aggSet, n.st, vote);
    if qc.Some? && VerifyQc(env.bls, qc.value, set_) == Accept {
      assert n'.accepted == n.accepted + {qc.value};
      assert qc.value.hash == vote.hash;
    } else {
      assert n'.accepted == n.accepted;
    }
  }

  lemma ApplyKeepsInvariants(env: Env, n: Node, op: Op)
    requires CollisionFree(env.hashOf)
    requires StoreInvariant(env, n.st) && FinalityInvariant(n)
    ensures StoreInvariant(env, Apply(env, n, op).st) && FinalityInvariant(Apply(env, n, op))
  {
    match op
    case SetGenesis(block) =>
      if block.header.height == 0 { StoredKeepsStore(env, n.st, block); }
    case ReceiveBlock(block, set_) =>
      if AcceptsBlock(env, set_, n.st, block) { StoredKeepsStore(env, n.st, block); }
    case ReceiveVote(vote, set_) => VoteKeepsFinality(env, n, vote, set_);
    case ViewChange =>
    case PruneVotes(_) =>
    case NewEpochSet(_) =>
  }

  lemma {:induction false} RunInvariants(env: Env, set_: ValidatorSet, ops: seq<Op>)
    requires CollisionFree(env.hashOf)
    ensures StoreInvariant(env, Run(env, Start(set_), ops).st)
    ensures FinalityInvariant(Run(env, Start(set_), ops))
  {
    if ops != [] {
      RunInvariants(env, set_, ops[..|ops| - 1]);
      ApplyKeepsInvariants(env, Run(env, Start(set_), ops[..|ops| - 1]), ops[|ops| - 1]);
    }
  }

  // ---- What it means for whole runs ----

  /** The path to the root: exactly `height` links, all stored, heights falling by
      one and timestamps strictly. */
  ghost function Ancestry(blocks: map<Hash, Block>, h: Hash): (path: seq<Hash>)
    requires Linked(blocks) && h in blocks
    ensures |path| == blocks[h].header.height + 1 && path[0] == h
    ensures forall i :: 0 <= i < |path| ==>
              path[i] in blocks && blocks[path[i]].header.height == blocks[h].header.height - i
    ensures forall i :: 0 <= i < |path| - 1 ==>
              && path[i + 1] == blocks[path[i]].header.previousHash
              && blocks[path[i + 1]].header.timestamp < blocks[path[i]].header.timestamp
    decreases blocks[h].header.height
  {
    if blocks[h].header.height == 0 then [h]
    else [h] + Ancestry(blocks, blocks[h].header.previousHash)
  }

  /** In every run, with any blocks, votes, sets and views: each stored block has
      its ancestry down to a stored block of height 0, and the height index
      returns a block of the height asked for. */
  lemma StoreIsForest(env: Env, set_: ValidatorSet, ops: seq<Op>)
    requires CollisionFree(env.hashOf)
    ensures var st := Run(env, Start(set_), ops).st;
            && Linked(st.blocks)
            && (forall h :: h in st.blocks ==>
                  var path := Ancestry(st.blocks, h);
                  |path| == st.blocks[h].header.height + 1 && st.blocks[path[|path| - 1]].header.height == 0)
            && (forall n :: n in st.heightIndex ==>
                  GetBlockByHeight(st, n).Some? && GetBlockByHeight(st, n).value.header.height == n)
  {
    RunInvariants(env, set_, ops);
  }

  ghost predicate NoGenesis(ops: seq<Op>) {
    forall op :: op in ops ==> !op.SetGenesis?
  }

  ghost predicate Advances(n: Node, n': Node) {
    && n.st.finalizedHeight <= n'.st.finalizedHeight
    && n.accepted <= n'.accepted
    && n.st.finalized.Keys <= n'.st.finalized.Keys
    && n.st.blocks.Keys <= n'.st.blocks.Keys
  }

  lemma ApplyAdvances(env: Env, n: Node, op: Op)
    requires FinalityInvariant(n) && !op.SetGenesis?
    ensures Advances(n, Apply(env, n, op))
  {
    match op
    case ReceiveBlock(block, set_) =>
    case ReceiveVote(vote, set_) =>
    case ViewChange =>
    case PruneVotes(_) =>
    case NewEpochSet(_) =>
  }

  /** Finality only advances: without a new genesis, a continued run keeps every
      finalised block finalised, every stored digest stored, and never lowers the
      finalised height. */
  lemma {:induction false} FinalityAdvances(env: Env, n: Node, ops: seq<Op>)
    requires CollisionFree(env.hashOf)
    requires StoreInvariant(env, n.st) && FinalityInvariant(n) && NoGenesis(ops)
    ensures Advances(n, Run(env, n, ops))
    ensures StoreInvariant(env, Run(env, n, ops).st) && FinalityInvariant(Run(env, n, ops))
  {
    if ops != [] {
      var mid := Run(env, n, ops[..|ops| - 1]);
      FinalityAdvances(env, n, ops[..|ops| - 1]);
      ApplyKeepsInvariants(env, mid, ops[|ops| - 1]);
      ApplyAdvances(env, mid, ops[|ops| - 1]);
    }
  }
}
