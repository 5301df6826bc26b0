/** A node's state against its history: which blocks are accepted, stored and
    finalised over a whole run, in terms of what was delivered to it. */
module NodeHistory {
  import opened Types
  import opened Places
  import opened StakeWeight
  import opened VoteAggregation
  import opened QcVerification
  import opened Certification
  import opened Consensus
  import opened BlockStore

  // ---- Acceptance of one block ----

  ghost predicate ActiveEntry(v: Validator) {
    v.status == Active
  }

  /** This validator holds the place at view modulo n among the n Active entries. */
  ghost predicate Leads(id: ValidatorId, vs: seq<Validator>, view: u64) {
    exists places: seq<nat> :: places != [] && PlacesOf(places, vs, ActiveEntry)
                               && var i := places[view % |places|]; i < |vs| && vs[i].id == id
  }

  lemma ActivePlacesOf(vs: seq<Validator>) returns (places: seq<nat>)
    ensures Picks(places, vs, ActiveEntry, ActiveOf(vs))
  {
    forall init, v ensures ActiveOf(init + [v]) == if ActiveEntry(v) then ActiveOf(init) + [v] else ActiveOf(init) {
      assert (init + [v])[..|init|] == init;
      assert ActiveOf(init) + [] == ActiveOf(init);
    }
    places := FilterPicks(ActiveOf, ActiveEntry, vs);
  }

  lemma LeaderExact(set_: ValidatorSet, view: u64, id: ValidatorId)
    ensures SelectLeader(set_, view) == Some(id) <==> Leads(id, set_.validators, view)
  {
    var vs := set_.validators;
    var places := ActivePlacesOf(vs);
    forall other: seq<nat> | PlacesOf(other, vs, ActiveEntry) ensures other == places {
      AscendingUnique(other, places);
    }
  }

  ghost predicate ActiveFirst(vs: seq<Validator>, id: ValidatorId) {
    exists j :: FirstAt(vs, j, id) && vs[j].status == Active
  }

  /** Above height 0: from the highest certificate or a higher one, below the block, and
      from a stored, older parent one lower. */
  ghost predicate Extends(st: EngineState, block: Block) {
    block.header.height > 0 ==>
      && st.highestQc.height <= block.justify.height < block.header.height
      && block.header.previousHash in st.blocks
      && block.header.height == st.blocks[block.header.previousHash].header.height + 1
      && block.header.timestamp > st.blocks[block.header.previousHash].header.timestamp
  }

  /** A block is admitted: its proposer is the leader of the view and Active at its
      first entry; above height 0 it also extends the highest certificate and a
      stored, older parent one lower, and carries a certified certificate. */
  ghost predicate Admits(env: Env, st: EngineState, block: Block, set_: ValidatorSet) {
    && Leads(block.header.proposer, set_.validators, st.view)
    && ActiveFirst(set_.validators, block.header.proposer)
    && Extends(st, block)
    && (block.header.height > 0 ==> Certified(env.bls, block.justify, set_))
  }

  lemma ActiveFirstExact(vs: seq<Validator>, id: ValidatorId)
    ensures FirstIsActive(vs, id) <==> ActiveFirst(vs, id)
  {
    FindFirst(vs, id);
  }

  lemma ExtendsExact(st: EngineState, block: Block)
    ensures ExtendsHighestQc(st, block) && ExtendsParent(st, block.header) <==> Extends(st, block)
  {
  }

  lemma AcceptsIs(env: Env, set_: ValidatorSet, st: EngineState, block: Block, leads: bool, active: bool,
                  extends_: bool, certified: bool)
    requires leads <==> SelectLeader(set_, st.view) == Some(block.header.proposer)
    requires active <==> FirstIsActive(set_.validators, block.header.proposer)
    requires extends_ <==> ExtendsHighestQc(st, block) && ExtendsParent(st, block.header)
    requires certified <==> VerifyQc(env.bls, block.justify, set_) == Accept
    ensures AcceptsBlock(env, set_, st, block)
       <==> leads && active && extends_ && (block.header.height > 0 ==> certified)
  {
  }

  lemma AdmitsExact(env: Env, set_: ValidatorSet, st: EngineState, block: Block)
    ensures AcceptsBlock(env, set_, st, block) <==> Admits(env, st, block, set_)
  {
    LeaderExact(set_, st.view, block.header.proposer);
    ActiveFirstExact(set_.validators, block.header.proposer);
    ExtendsExact(st, block);
    VerifyQcExact(env.bls, block.justify, set_);
    AcceptsIs(env, set_, st, block, Leads(block.header.proposer, set_.validators, st.view),
              ActiveFirst(set_.validators, block.header.proposer), Extends(st, block),
              Certified(env.bls, block.justify, set_));
  }

  // ---- The history of a run ----

  /** What one step contributed. */
  datatype Mark = Nothing | Genesis(block: Block) | Accepted(block: Block) | Finalised(qc: QuorumCertificate)

  ghost predicate HasBlock(m: Mark) {
    m.Genesis? || m.Accepted?
  }

  /** A genesis of height 0, an admitted block, or a vote on which a certified
      certificate for its digest was obtained. */
  ghost predicate Marked(env: Env, n: Node, op: Op, m: Mark) {
    match op
    case SetGenesis(block) => m == if block.header.height == 0 then Genesis(block) else Nothing
    case ReceiveBlock(block, set_) => m == if Admits(env, n.st, block, set_) then Accepted(block) else Nothing
    case ReceiveVote(vote, set_) =>
      var qc := CertificateOnVote(env, n.aggSet, n.st, vote);
      if qc.Some? && Certified(env.bls, qc.value, set_)
      then m == Finalised(qc.value) && qc.value.hash == vote.hash && qc.value.height == vote.height
      else m == Nothing
    case _ => m == Nothing
  }

  /** `marks` is the run's history, step by step. */
  ghost predicate History(env: Env, n: Node, ops: seq<Op>, marks: seq<Mark>) {
    && |marks| == |ops|
    && forall k :: 0 <= k < |ops| ==> Marked(env, Run(env, n, ops[..k]), ops[k], marks[k])
  }

  // ---- What the state holds after a history ----

  ghost predicate LatestDigest(hashOf: BlockHeader -> Hash, marks: seq<Mark>, h: Hash, k: int) {
    && 0 <= k < |marks| && HasBlock(marks[k]) && hashOf(marks[k].block.header) == h
    && forall j :: k < j < |marks| && HasBlock(marks[j]) ==> hashOf(marks[j].block.header) != h
  }

  ghost predicate LatestHeight(marks: seq<Mark>, n: u64, k: int) {
    && 0 <= k < |marks| && HasBlock(marks[k]) && marks[k].block.header.height == n
    && forall j :: k < j < |marks| && HasBlock(marks[j]) ==> marks[j].block.header.height != n
  }

  /** The store maps a digest to the last genesis or admitted block with it, the
      index a height to the digest of the last one at it; nothing else is stored. */
  ghost predicate StoreHolds(hashOf: BlockHeader -> Hash, marks: seq<Mark>, st: EngineState) {
    && (forall h :: h in st.blocks <==> exists k :: LatestDigest(hashOf, marks, h, k))
    && (forall h, k :: LatestDigest(hashOf, marks, h, k) && h in st.blocks ==> st.blocks[h] == marks[k].block)
    && (forall n: u64 :: n in st.heightIndex <==> exists k :: LatestHeight(marks, n, k))
    && (forall n: u64, k :: LatestHeight(marks, n, k) && n in st.heightIndex ==>
          st.heightIndex[n] == hashOf(marks[k].block.header))
  }

  ghost predicate SinceGenesis(marks: seq<Mark>, k: int) {
    0 <= k < |marks| && forall j :: k < j < |marks| ==> !marks[j].Genesis?
  }

  /** The current height is the greatest height admitted since the last genesis. */
  ghost predicate HeightHolds(marks: seq<Mark>, st: EngineState) {
    && (forall k :: SinceGenesis(marks, k) && marks[k].Accepted? ==> marks[k].block.header.height <= st.currentHeight)
    && (st.currentHeight > 0 ==>
          exists k :: SinceGenesis(marks, k) && marks[k].Accepted? && marks[k].block.header.height == st.currentHeight)
  }

  ghost predicate Finalises(hashOf: BlockHeader -> Hash, m: Mark, h: Hash) {
    (m.Genesis? && hashOf(m.block.header) == h) || (m.Finalised? && m.qc.hash == h)
  }

  /** Finalised are the genesis digests and the certified ones; the highest
      certificate is a highest certified one since the last genesis. */
  ghost predicate FinalityHolds(hashOf: BlockHeader -> Hash, marks: seq<Mark>, st: EngineState) {
    && (forall h :: h in st.finalized <==> exists k :: 0 <= k < |marks| && Finalises(hashOf, marks[k], h))
    && (forall k :: SinceGenesis(marks, k) && marks[k].Finalised? ==> marks[k].qc.height <= st.finalizedHeight)
    && st.highestQc.height == st.finalizedHeight
    && (st.finalizedHeight > 0 ==>
          exists k :: SinceGenesis(marks, k) && marks[k].Finalised? && marks[k].qc == st.highestQc)
  }

  // ---- One step ----

  lemma StoreStep(hashOf: BlockHeader -> Hash, marks: seq<Mark>, m: Mark, st: EngineState, st': EngineState)
    requires StoreHolds(hashOf, marks, st) && HasBlock(m)
    requires st'.blocks == st.blocks[hashOf(m.block.header) := m.block]
    requires st'.heightIndex == st.heightIndex[m.block.header.height := hashOf(m.block.header)]
    ensures StoreHolds(hashOf, marks + [m], st')
  {
    var marks', h0, n0 := marks + [m], hashOf(m.block.header), m.block.header.height;
    forall h, k ensures LatestDigest(hashOf, marks', h, k)
                   <==> if h == h0 then k == |marks| else LatestDigest(hashOf, marks, h, k) {
      LatestDigestSnoc(hashOf, marks, m, h, k);
    }
    assert LatestDigest(hashOf, marks', h0, |marks|);
    forall n: u64, k ensures LatestHeight(marks', n, k)
                        <==> if n == n0 then k == |marks| else LatestHeight(marks, n, k) {
      LatestHeightSnoc(marks, m, n, k);
    }
    assert LatestHeight(marks', n0, |marks|);
  }

  lemma LatestDigestSnoc(hashOf: BlockHeader -> Hash, marks: seq<Mark>, m: Mark, h: Hash, k: int)
    ensures LatestDigest(hashOf, marks + [m], h, k)
       <==> if HasBlock(m) && hashOf(m.block.header) == h then k == |marks| else LatestDigest(hashOf, marks, h, k)
  {
    var marks' := marks + [m];
    assert marks'[|marks|] == m;
    assert forall j :: 0 <= j < |marks| ==> marks'[j] == marks[j];
  }

  lemma LatestHeightSnoc(marks: seq<Mark>, m: Mark, n: u64, k: int)
    ensures LatestHeight(marks + [m], n, k)
       <==> if HasBlock(m) && m.block.header.height == n then k == |marks| else LatestHeight(marks, n, k)
  {
    var marks' := marks + [m];
    assert marks'[|marks|] == m;
    assert forall j :: 0 <= j < |marks| ==> marks'[j] == marks[j];
  }

  lemma SinceSnoc(marks: seq<Mark>, m: Mark, k: int)
    ensures SinceGenesis(marks + [m], k) <==> k == |marks| || (!m.Genesis? && SinceGenesis(marks, k))
  {
    var marks' := marks + [m];
    assert marks'[|marks|] == m;
    assert forall j :: 0 <= j < |marks| ==> marks'[j] == marks[j];
  }

  lemma HeightStep(marks: seq<Mark>, m: Mark, st: EngineState, st': EngineState)
    requires HeightHolds(marks, st)
    requires m.Genesis? ==> st'.currentHeight == 0
    requires m.Accepted? ==> st'.currentHeight
                             == if m.block.header.height > st.currentHeight then m.block.header.height
                                else st.currentHeight
    requires !HasBlock(m) ==> st'.currentHeight == st.currentHeight
    ensures HeightHolds(marks + [m], st')
  {
    forall k ensures SinceGenesis(marks + [m], k) <==> k == |marks| || (!m.Genesis? && SinceGenesis(marks, k)) {
      SinceSnoc(marks, m, k);
    }
    if st'.currentHeight > 0 {
      if st'.currentHeight == st.currentHeight {
        var k :| SinceGenesis(marks, k) && marks[k].Accepted? && marks[k].block.header.height == st.currentHeight;
        assert SinceGenesis(marks + [m], k);
      } else {
        assert SinceGenesis(marks + [m], |marks|);
      }
    }
  }

  /** A certificate replaces the highest one when it is strictly higher; a genesis block
      replaces it by an empty one for itself. */
  ghost predicate Raises(hashOf: BlockHeader -> Hash, m: Mark, st: EngineState, st': EngineState) {
    if m.Finalised? && m.qc.height > st.highestQc.height
    then st'.highestQc == m.qc && st'.finalizedHeight == m.qc.height
    else if m.Genesis? then
      st'.highestQc == QuorumCertificate(0, hashOf(m.block.header), 0, 0, [], 0) && st'.finalizedHeight == 0
    else st'.highestQc == st.highestQc && st'.finalizedHeight == st.finalizedHeight
  }

  lemma FinalityStep(hashOf: BlockHeader -> Hash, marks: seq<Mark>, m: Mark, st: EngineState, st': EngineState)
    requires FinalityHolds(hashOf, marks, st) && Raises(hashOf, m, st, st')
    requires forall h :: h in st'.finalized <==> h in st.finalized || Finalises(hashOf, m, h)
    ensures FinalityHolds(hashOf, marks + [m], st')
  {
    var marks' := marks + [m];
    forall k ensures SinceGenesis(marks', k) <==> k == |marks| || (!m.Genesis? && SinceGenesis(marks, k)) {
      SinceSnoc(marks, m, k);
    }
    forall h ensures h in st'.finalized <==> exists k :: 0 <= k < |marks'| && Finalises(hashOf, marks'[k], h) {
      assert marks'[|marks|] == m;
      if k :| 0 <= k < |marks| && Finalises(hashOf, marks[k], h) {
        assert marks'[k] == marks[k];
      }
    }
    if st'.finalizedHeight > 0 {
      if st'.highestQc == st.highestQc {
        var k :| SinceGenesis(marks, k) && marks[k].Finalised? && marks[k].qc == st.highestQc;
        assert SinceGenesis(marks', k) && marks'[k] == marks[k];
      } else {
        assert SinceGenesis(marks', |marks|) && marks'[|marks|] == m;
      }
    }
  }

  ghost predicate AllTrue(finalized: map<Hash, bool>) {
    forall h :: h in finalized ==> finalized[h]
  }

  /** What each kind of step does to the state, in terms of its mark. */
  ghost predicate StepEffect(hashOf: BlockHeader -> Hash, m: Mark, st: EngineState, st': EngineState) {
    && (if HasBlock(m) then
          && st'.blocks == st.blocks[hashOf(m.block.header) := m.block]
          && st'.heightIndex == st.heightIndex[m.block.header.height := hashOf(m.block.header)]
        else st'.blocks == st.blocks && st'.heightIndex == st.heightIndex)
    && st'.currentHeight == (match m
                             case Genesis(_) => 0
                             case Accepted(block) =>
                               if block.header.height > st.currentHeight then block.header.height else st.currentHeight
                             case _ => st.currentHeight)
    && (forall h :: h in st'.finalized <==> h in st.finalized || Finalises(hashOf, m, h))
    && Raises(hashOf, m, st, st')
    && (AllTrue(st.finalized) ==> AllTrue(st'.finalized))
  }

  lemma MarkOf(env: Env, n: Node, op: Op) returns (m: Mark)
    ensures Marked(env, n, op, m)
  {
    match op
    case SetGenesis(block) => m := if block.header.height == 0 then Genesis(block) else Nothing;
    case ReceiveBlock(block, set_) => m := if Admits(env, n.st, block, set_) then Accepted(block) else Nothing;
    case ReceiveVote(vote, set_) =>
      var qc := CertificateOnVote(env, n.aggSet, n.st, vote);
      m := if qc.Some? && Certified(env.bls, qc.value, set_) then Finalised(qc.value) else Nothing;
    case ViewChange => m := Nothing;
    case PruneVotes(_) => m := Nothing;
    case NewEpochSet(_) => m := Nothing;
  }

  lemma GenesisEffect(env: Env, n: Node, block: Block)
    requires block.header.height == 0
    ensures StepEffect(env.hashOf, Genesis(block), n.st, Apply(env, n, SetGenesis(block)).st)
  {
  }

  lemma AcceptedEffect(env: Env, st: EngineState, block: Block, set_: ValidatorSet)
    requires AcceptsBlock(env, set_, st, block)
    ensures StepEffect(env.hashOf, Accepted(block), st, AfterBlock(env, set_, st, block))
  {
  }

  lemma BlockEffect(env: Env, n: Node, block: Block, set_: ValidatorSet, m: Mark)
    requires Marked(env, n, ReceiveBlock(block, set_), m)
    ensures StepEffect(env.hashOf, m, n.st, AfterBlock(env, set_, n.st, block))
  {
    AdmitsExact(env, set_, n.st, block);
    if AcceptsBlock(env, set_, n.st, block) {
      AcceptedEffect(env, n.st, block, set_);
    } else {
      assert AfterBlock(env, set_, n.st, block) == n.st;
    }
  }

  lemma VoteEffect(env: Env, n: Node, vote: Vote, set_: ValidatorSet, m: Mark)
    requires Marked(env, n, ReceiveVote(vote, set_), m)
    ensures StepEffect(env.hashOf, m, n.st, AfterVote(env, n.aggSet, set_, n.st, vote))
  {
    var qc := CertificateOnVote(env, n.aggSet, n.st, vote);
    if qc.Some? { VerifyQcExact(env.bls, qc.value, set_); }
  }

  /** One step of a node, whatever it is: a refused block or vote leaves store, heights
      and finality as they were; an admitted block is stored under its digest and
      height and nothing else changes there; a certified certificate finalises its
      digest and is the highest if strictly higher. */
  lemma StepExact(env: Env, n: Node, op: Op, m: Mark)
    requires Marked(env, n, op, m)
    ensures StepEffect(env.hashOf, m, n.st, Apply(env, n, op).st)
    ensures Apply(env, n, op).st.view == if op.ViewChange? then (n.st.view + 1) % TWO_64 else n.st.view
  {
    match op
    case SetGenesis(block) => if block.header.height == 0 { GenesisEffect(env, n, block); }
    case ReceiveBlock(block, set_) => BlockEffect(env, n, block, set_, m);
    case ReceiveVote(vote, set_) => VoteEffect(env, n, vote, set_, m);
    case ViewChange =>
    case PruneVotes(_) =>
    case NewEpochSet(_) =>
  }

  // ---- Whole runs ----

  ghost predicate StateHolds(hashOf: BlockHeader -> Hash, marks: seq<Mark>, st: EngineState) {
    StoreHolds(hashOf, marks, st) && HeightHolds(marks, st) && FinalityHolds(hashOf, marks, st)
  }

  lemma HoldsStep(hashOf: BlockHeader -> Hash, marks: seq<Mark>, m: Mark, st: EngineState, st': EngineState)
    requires StateHolds(hashOf, marks, st) && StepEffect(hashOf, m, st, st')
    ensures StateHolds(hashOf, marks + [m], st')
  {
    HeightStep(marks, m, st, st');
    FinalityStep(hashOf, marks, m, st, st');
    if HasBlock(m) {
      StoreStep(hashOf, marks, m, st, st');
    } else {
      forall h, k ensures LatestDigest(hashOf, marks + [m], h, k) <==> LatestDigest(hashOf, marks, h, k) {
        LatestDigestSnoc(hashOf, marks, m, h, k);
      }
      forall n: u64, k ensures LatestHeight(marks + [m], n, k) <==> LatestHeight(marks, n, k) {
        LatestHeightSnoc(marks, m, n, k);
      }
    }
  }

  lemma HistorySnoc(env: Env, n: Node, ops: seq<Op>, op: Op, marks: seq<Mark>, m: Mark)
    requires History(env, n, ops, marks) && Marked(env, Run(env, n, ops), op, m)
    ensures History(env, n, ops + [op], marks + [m])
  {
    var ops' := ops + [op];
    assert ops'[..|ops|] == ops;
    forall k | 0 <= k < |ops| ensures ops'[..k] == ops[..k] && ops'[k] == ops[k] && (marks + [m])[k] == marks[k] {
    }
  }

  ghost predicate Explains(env: Env, set_: ValidatorSet, ops: seq<Op>, marks: seq<Mark>) {
    History(env, Start(set_), ops, marks) && StateHolds(env.hashOf, marks, Run(env, Start(set_), ops).st)
  }

  lemma ExplainsNext(env: Env, set_: ValidatorSet, ops: seq<Op>, op: Op, marks: seq<Mark>) returns (m: Mark)
    requires Explains(env, set_, ops, marks)
    ensures Explains(env, set_, ops + [op], marks + [m])
  {
    var n := Run(env, Start(set_), ops);
    m := MarkOf(env, n, op);
    StepExact(env, n, op, m);
    HoldsStep(env.hashOf, marks, m, n.st, Apply(env, n, op).st);
    HistorySnoc(env, Start(set_), ops, op, marks, m);
    assert (ops + [op])[..|ops|] == ops;
  }

  /** Every run has its history, and the node's store, height and finality are what
      that history says. */
  lemma RunHistory(env: Env, set_: ValidatorSet, ops: seq<Op>) returns (marks: seq<Mark>)
    ensures History(env, Start(set_), ops, marks)
    ensures StateHolds(env.hashOf, marks, Run(env, Start(set_), ops).st)
  {
    var holds := (s: seq<Op>) => exists marks :: Explains(env, set_, s, marks);
    assert Explains(env, set_, [], []);
    forall init, op | holds(init) ensures holds(init + [op]) {
      var before :| Explains(env, set_, init, before);
      var m := ExplainsNext(env, set_, init, op, before);
    }
    ByAppending(holds, ops);
    marks :| Explains(env, set_, ops, marks);
  }

  // ---- What a reader of the store gets ----

  ghost predicate StoresAt(env: Env, set_: ValidatorSet, ops: seq<Op>, k: int, block: Block) {
    && 0 <= k < |ops|
    && match ops[k]
       case SetGenesis(b) => b == block && block.header.height == 0
       case ReceiveBlock(b, s) => b == block && Admits(env, Run(env, Start(set_), ops[..k]).st, block, s)
       case _ => false
  }

  lemma MarkStores(env: Env, set_: ValidatorSet, ops: seq<Op>, marks: seq<Mark>, k: nat, block: Block)
    requires History(env, Start(set_), ops, marks) && k < |ops|
    ensures StoresAt(env, set_, ops, k, block) <==> HasBlock(marks[k]) && marks[k].block == block
  {
    assert Marked(env, Run(env, Start(set_), ops[..k]), ops[k], marks[k]);
  }

  ghost predicate Records(env: Env, set_: ValidatorSet, ops: seq<Op>, marks: seq<Mark>) {
    && |marks| == |ops|
    && forall k, b :: 0 <= k < |ops| ==>
         (StoresAt(env, set_, ops, k, b) <==> HasBlock(marks[k]) && marks[k].block == b)
  }

  /** The run stores this block at step k, and none at its height later. */
  ghost predicate LastStored(env: Env, set_: ValidatorSet, ops: seq<Op>, k: int, block: Block) {
    && StoresAt(env, set_, ops, k, block)
    && forall j, b :: k < j && StoresAt(env, set_, ops, j, b) ==> b.header.height != block.header.height
  }

  lemma KeptByMarks(env: Env, set_: ValidatorSet, ops: seq<Op>, marks: seq<Mark>, k: int, block: Block)
    requires CollisionFree(env.hashOf) && Records(env, set_, ops, marks) && StoresAt(env, set_, ops, k, block)
    requires StoreHolds(env.hashOf, marks, Run(env, Start(set_), ops).st)
    ensures var st := Run(env, Start(set_), ops).st;
            var h := env.hashOf(block.header);
            h in st.blocks && st.blocks[h].header == block.header
  {
    assert HasBlock(marks[k]) && marks[k].block == block;
    var j := LastWith(env.hashOf, marks, k);
  }

  lemma LastIsReturned(env: Env, set_: ValidatorSet, ops: seq<Op>, marks: seq<Mark>, k: int, block: Block)
    requires CollisionFree(env.hashOf) && Records(env, set_, ops, marks) && LastStored(env, set_, ops, k, block)
    requires StoreHolds(env.hashOf, marks, Run(env, Start(set_), ops).st)
    ensures GetBlockByHeight(Run(env, Start(set_), ops).st, block.header.height) == Some(block)
  {
    assert HasBlock(marks[k]) && marks[k].block == block;
    assert forall i :: k < i < |marks| && HasBlock(marks[i]) ==> StoresAt(env, set_, ops, i, marks[i].block);
    LastReturned(env.hashOf, marks, Run(env, Start(set_), ops).st, k);
  }

  lemma LastReturned(hashOf: BlockHeader -> Hash, marks: seq<Mark>, st: EngineState, k: int)
    requires CollisionFree(hashOf) && StoreHolds(hashOf, marks, st)
    requires 0 <= k < |marks| && HasBlock(marks[k])
    requires forall i :: k < i < |marks| && HasBlock(marks[i]) ==>
               marks[i].block.header.height != marks[k].block.header.height
    ensures GetBlockByHeight(st, marks[k].block.header.height) == Some(marks[k].block)
  {
    var header := marks[k].block.header;
    assert LatestHeight(marks, header.height, k);
    assert LatestDigest(hashOf, marks, hashOf(header), k);
  }

  lemma OnlyMarked(env: Env, set_: ValidatorSet, ops: seq<Op>, marks: seq<Mark>, h: Hash)
    requires Records(env, set_, ops, marks) && h in Run(env, Start(set_), ops).st.blocks
    requires StoreHolds(env.hashOf, marks, Run(env, Start(set_), ops).st)
    ensures var block := Run(env, Start(set_), ops).st.blocks[h];
            env.hashOf(block.header) == h && exists k :: StoresAt(env, set_, ops, k, block)
  {
    var k :| LatestDigest(env.hashOf, marks, h, k);
    assert StoresAt(env, set_, ops, k, marks[k].block);
  }

  /** Nothing accepted is lost and nothing else is stored: the stored headers are those
      of the genesis and admitted blocks of the run, and the block returned at a height
      is the last of them at it. */
  lemma StoredExactly(env: Env, set_: ValidatorSet, ops: seq<Op>)
    requires CollisionFree(env.hashOf)
    ensures var st := Run(env, Start(set_), ops).st;
            && (forall k, b :: StoresAt(env, set_, ops, k, b) ==>
                  env.hashOf(b.header) in st.blocks && st.blocks[env.hashOf(b.header)].header == b.header)
            && (forall h :: h in st.blocks ==>
                  env.hashOf(st.blocks[h].header) == h && exists k :: StoresAt(env, set_, ops, k, st.blocks[h]))
            && (forall k, b :: LastStored(env, set_, ops, k, b) ==> GetBlockByHeight(st, b.header.height) == Some(b))
  {
    var st := Run(env, Start(set_), ops).st;
    var marks := RunHistory(env, set_, ops);
    forall k, b | 0 <= k < |ops|
      ensures StoresAt(env, set_, ops, k, b) <==> HasBlock(marks[k]) && marks[k].block == b
    {
      MarkStores(env, set_, ops, marks, k, b);
    }
    forall k, b | StoresAt(env, set_, ops, k, b)
      ensures env.hashOf(b.header) in st.blocks && st.blocks[env.hashOf(b.header)].header == b.header
      ensures LastStored(env, set_, ops, k, b) ==> GetBlockByHeight(st, b.header.height) == Some(b)
    {
      KeptByMarks(env, set_, ops, marks, k, b);
      if LastStored(env, set_, ops, k, b) { LastIsReturned(env, set_, ops, marks, k, b); }
    }
    forall h | h in st.blocks
      ensures env.hashOf(st.blocks[h].header) == h && exists k :: StoresAt(env, set_, ops, k, st.blocks[h])
    {
      OnlyMarked(env, set_, ops, marks, h);
    }
  }

  lemma {:induction false} LastWith(hashOf: BlockHeader -> Hash, marks: seq<Mark>, k: nat) returns (j: nat)
    requires k < |marks| && HasBlock(marks[k])
    ensures j < |marks| && LatestDigest(hashOf, marks, hashOf(marks[k].block.header), j)
    decreases |marks| - k
  {
    if i :| k < i < |marks| && HasBlock(marks[i]) && hashOf(marks[i].block.header) == hashOf(marks[k].block.header) {
      j := LastWith(hashOf, marks, i);
    } else {
      j := k;
    }
  }

  /** At step k a genesis had this digest, or a vote for it completed a certificate that
      is certified: two thirds of the stake claimed, every signer in the set, and the
      aggregate verified on this digest under exactly the signers' keys. */
  ghost predicate FinalisedAt(env: Env, set_: ValidatorSet, ops: seq<Op>, k: int, h: Hash) {
    && 0 <= k < |ops|
    && match ops[k]
       case SetGenesis(b) => b.header.height == 0 && env.hashOf(b.header) == h
       case ReceiveVote(vote, s) =>
         var n := Run(env, Start(set_), ops[..k]);
         var qc := CertificateOnVote(env, n.aggSet, n.st, vote);
         && vote.hash == h && qc.Some? && qc.value.hash == h && qc.value.height == vote.height
         && Certified(env.bls, qc.value, s)
       case _ => false
  }

  /** A digest is finalised in a run exactly when it is that of a genesis or was
      certified at some step. */
  lemma FinalizedExactly(env: Env, set_: ValidatorSet, ops: seq<Op>, h: Hash)
    ensures h in Run(env, Start(set_), ops).st.finalized <==> exists k :: FinalisedAt(env, set_, ops, k, h)
  {
    var marks := RunHistory(env, set_, ops);
    forall k | 0 <= k < |ops|
      ensures FinalisedAt(env, set_, ops, k, h) <==> Finalises(env.hashOf, marks[k], h)
    {
      assert Marked(env, Run(env, Start(set_), ops[..k]), ops[k], marks[k]);
    }
  }

  /** Every stored block above height 0 came with a certificate that was certified under
      the validator set it was received under. */
  lemma StoredIsCertified(env: Env, set_: ValidatorSet, ops: seq<Op>, h: Hash)
    requires CollisionFree(env.hashOf) && h in Run(env, Start(set_), ops).st.blocks
    ensures var block := Run(env, Start(set_), ops).st.blocks[h];
            block.header.height > 0 ==>
              exists k :: 0 <= k < |ops| && ops[k].ReceiveBlock? && ops[k].block == block
                          && Certified(env.bls, block.justify, ops[k].set_)
  {
    StoredExactly(env, set_, ops);
    var block := Run(env, Start(set_), ops).st.blocks[h];
    var k :| StoresAt(env, set_, ops, k, block);
    assert block.header.height > 0 ==> ops[k].ReceiveBlock?;
  }
}
