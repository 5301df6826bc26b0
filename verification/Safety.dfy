/** No conflicting certificates below a third of Byzantine stake, and convictions of a
    third of the stake otherwise. */
module Safety {
  import opened Types
  import opened StakeWeight
  import opened Sorting
  import opened VoteAggregation
  import opened QcVerification
  import opened Consensus
  import opened SlashingDetection
  import opened Agreement

  /** The equivocators behind two conflicting certificates. */
  ghost function Equivocators(a: QuorumCertificate, b: QuorumCertificate): set<ValidatorId> {
    Members(a.signers) * Members(b.signers)
  }

  ghost predicate Convicts(v1: Vote, v2: Vote, id: ValidatorId) {
    var e := DetectSurroundVote(v1, v2);
    e.Some? && e.value.validator == id && e.value.reason == SurroundVote
  }

  /** Two cast votes of this validator, one for each of the two certified blocks at
      their one height, that vote detection convicts. */
  ghost predicate ConvictedBy(sent: set<Vote>, id: ValidatorId, a: QuorumCertificate, b: QuorumCertificate,
                              v1: Vote, v2: Vote) {
    && v1 in sent && v2 in sent && v1.validator == id && v2.validator == id
    && v1.height == v2.height == a.height && v1.hash == a.hash && v2.hash == b.hash
    && Convicts(v1, v2, id)
  }

  lemma ConflictConvicts(cfg: Config, sent: set<Vote>, a: QuorumCertificate, b: QuorumCertificate, id: ValidatorId)
    requires Backed(cfg, sent, a) && Backed(cfg, sent, b)
    requires a.height == b.height && a.hash != b.hash && id in Equivocators(a, b)
    ensures exists v1, v2 :: ConvictedBy(sent, id, a, b, v1, v2)
    ensures !VotesOncePerHeight(sent, id)
  {
    BackedHasVotes(cfg, sent, a, id);
    BackedHasVotes(cfg, sent, b, id);
    var v1 :| v1 in sent && v1.validator == id && v1.height == a.height && v1.hash == a.hash;
    var v2 :| v2 in sent && v2.validator == id && v2.height == b.height && v2.hash == b.hash;
    assert ConvictedBy(sent, id, a, b, v1, v2);
  }

  /** Accountable safety, with no assumption on who is honest: in every reachable
      state, behind two certificates for different blocks at one height stand
      validators with at least a third of the stake, each convicted by two of its own
      cast votes, one for each block at that height; none of them voted once per
      height. */
  lemma AccountableSafety(cfg: Config, ids: set<NodeId>, events: seq<Event>,
                          n1: NodeId, a: QuorumCertificate, n2: NodeId, b: QuorumCertificate)
    requires WellFormedSet(cfg.set_) && cfg.set_.totalStake * 2 + 2 < TWO_64
    requires Reach(cfg, ids, events).Some?
    requires (n1, a) in Reach(cfg, ids, events).value.issued && (n2, b) in Reach(cfg, ids, events).value.issued
    requires a.height == b.height && a.hash != b.hash
    ensures 3 * Weight(cfg.set_.validators, Equivocators(a, b)) >= cfg.set_.totalStake
    ensures forall id :: id in Equivocators(a, b) ==>
              && (exists v1, v2 :: ConvictedBy(Reach(cfg, ids, events).value.sent, id, a, b, v1, v2))
              && !VotesOncePerHeight(Reach(cfg, ids, events).value.sent, id)
  {
    ReachableInvariant(cfg, ids, events);
    var s := Reach(cfg, ids, events).value;
    assert Backed(cfg, s.sent, (n1, a).1) && Backed(cfg, s.sent, (n2, b).1);
    QuorumsOverlap(cfg.set_.validators, cfg.set_.totalStake, Members(a.signers), Members(b.signers));
    forall id | id in Equivocators(a, b)
      ensures (exists v1, v2 :: ConvictedBy(s.sent, id, a, b, v1, v2)) && !VotesOncePerHeight(s.sent, id)
    {
      ConflictConvicts(cfg, s.sent, a, b, id);
    }
  }

  /** No conflicting finalisation: with less than a third of the stake Byzantine,
      all certificates any nodes ever obtain at one height name one block. */
  lemma NoConflictingCertificates(cfg: Config, ids: set<NodeId>, events: seq<Event>,
                                  n1: NodeId, a: QuorumCertificate, n2: NodeId, b: QuorumCertificate)
    requires WellFormedSet(cfg.set_) && cfg.set_.totalStake * 2 + 2 < TWO_64
    requires 3 * Weight(cfg.set_.validators, cfg.byzantine) < cfg.set_.totalStake
    requires Reach(cfg, ids, events).Some?
    requires (n1, a) in Reach(cfg, ids, events).value.issued && (n2, b) in Reach(cfg, ids, events).value.issued
    requires a.height == b.height
    ensures a.hash == b.hash
  {
    if a.hash != b.hash {
      ReachableInvariant(cfg, ids, events);
      AccountableSafety(cfg, ids, events, n1, a, n2, b);
      WeightMonotone(cfg.set_.validators, Equivocators(a, b), cfg.byzantine);
    }
  }

  /** Two nodes whose highest certificates are at one positive height have
      finalised the same block there. */
  lemma HighestCertificatesAgree(cfg: Config, ids: set<NodeId>, events: seq<Event>, n1: NodeId, n2: NodeId)
    requires WellFormedSet(cfg.set_) && cfg.set_.totalStake * 2 + 2 < TWO_64
    requires 3 * Weight(cfg.set_.validators, cfg.byzantine) < cfg.set_.totalStake
    requires Reach(cfg, ids, events).Some?
    requires n1 in Reach(cfg, ids, events).value.nodes && n2 in Reach(cfg, ids, events).value.nodes
    ensures var nodes := Reach(cfg, ids, events).value.nodes;
            var qc1, qc2 := nodes[n1].highestQc, nodes[n2].highestQc;
            qc1.height == qc2.height > 0 ==> qc1.hash == qc2.hash
  {
    ReachableInvariant(cfg, ids, events);
    var s := Reach(cfg, ids, events).value;
    var qc1, qc2 := s.nodes[n1].highestQc, s.nodes[n2].highestQc;
    if qc1.height == qc2.height > 0 {
      NoConflictingCertificates(cfg, ids, events, n1, qc1, n2, qc2);
    }
  }
}
