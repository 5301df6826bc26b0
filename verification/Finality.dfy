/** What a certificate obtained at one node means everywhere: every verifier accepts
    it, its block is finalised, and nothing else is. */
module Finality {
  import opened Types
  import opened StakeWeight
  import opened Sorting
  import opened VoteAggregation
  import opened QcVerification
  import opened Consensus
  import opened Agreement
  import opened Safety

  // ---- Certificates are accepted everywhere ----

  /** Every cast vote of a known validator carries its valid signature. */
  ghost predicate SignedVotes(cfg: Config, sent: set<Vote>) {
    forall v :: v in sent && Find(cfg.set_.validators, v.validator).Some? ==>
      cfg.env.bls.validSignature(v.signature, v.hash, Find(cfg.set_.validators, v.validator).value.consensusKey)
  }

  lemma BackedIsAccepted(cfg: Config, sent: set<Vote>, qc: QuorumCertificate)
    requires WellFormedSet(cfg.set_) && cfg.env.bls.Complete() && SignedVotes(cfg, sent) && Backed(cfg, sent, qc)
    ensures VerifyQc(cfg.env.bls, qc, cfg.set_) == Accept
    ensures SignerStake(qc.signers, cfg.set_.validators) == qc.stakeSigned
    ensures MeetsEpochQuorum(qc, cfg.set_)
  {
    var votes :| CutFrom(cfg, sent, qc, votes);
    var vs := cfg.set_.validators;
    SignerSumsAreWeight(qc.signers, cfg.set_);
    forall i | 0 <= i < |votes|
      ensures cfg.env.bls.validSignature(SignaturesOf(votes)[i], qc.hash, Find(vs, qc.signers[i]).value.consensusKey)
    {
      assert votes[i] in votes && qc.signers[i] in qc.signers;
    }
    CarriedIsAccepted(cfg.env.bls, qc, cfg.set_, SignaturesOf(votes));
  }

  ghost predicate IssuedFinalized(s: System) {
    forall c :: c in s.issued ==> c.0 in s.nodes && c.1.hash in s.nodes[c.0].finalized
  }

  lemma DeliverFinalizes(cfg: Config, s: System, node: NodeId, vote: Vote)
    requires WellFormedSet(cfg.set_) && cfg.env.bls.Complete() && SignedVotes(cfg, s.sent)
    requires SystemInvariant(cfg, s) && IssuedFinalized(s) && Enabled(cfg, s, Deliver(node, vote))
    ensures IssuedFinalized(Next(cfg, s, Deliver(node, vote)))
  {
    NewIsFinalized(cfg, s.sent, s.nodes[node], vote);
    OldStaysFinalized(cfg, s, node, vote);
  }

  lemma NewIsFinalized(cfg: Config, sent: set<Vote>, st: EngineState, vote: Vote)
    requires WellFormedSet(cfg.set_) && cfg.env.bls.Complete() && SignedVotes(cfg, sent)
    requires NodeInvariant(cfg, sent, st) && vote in sent
    ensures var qc := CertificateOnVote(cfg.env, cfg.set_, st, vote);
            qc.Some? ==> qc.value.hash in AfterVote(cfg.env, cfg.set_, cfg.set_, st, vote).finalized
  {
    CertificateIsBacked(cfg, sent, st, vote);
    var qc := CertificateOnVote(cfg.env, cfg.set_, st, vote);
    if qc.Some? {
      BackedIsAccepted(cfg, sent, qc.value);
    }
  }

  lemma OldStaysFinalized(cfg: Config, s: System, node: NodeId, vote: Vote)
    requires IssuedFinalized(s) && Enabled(cfg, s, Deliver(node, vote))
    ensures forall c :: c in s.issued ==>
              c.0 in s.nodes && c.1.hash in Next(cfg, s, Deliver(node, vote)).nodes[c.0].finalized
  {
  }

  lemma {:induction false} ReachableFinalized(cfg: Config, ids: set<NodeId>, events: seq<Event>)
    requires WellFormedSet(cfg.set_) && cfg.env.bls.Complete()
    requires Reach(cfg, ids, events).Some? && SignedVotes(cfg, Reach(cfg, ids, events).value.sent)
    ensures IssuedFinalized(Reach(cfg, ids, events).value)
  {
    if events != [] {
      var s := Reach(cfg, ids, events[..|events| - 1]).value;
      var e := events[|events| - 1];
      assert Reach(cfg, ids, events).value == Next(cfg, s, e);
      ReachableFinalized(cfg, ids, events[..|events| - 1]);
      if e.Deliver? {
        ReachableInvariant(cfg, ids, events[..|events| - 1]);
        DeliverFinalizes(cfg, s, e.node, e.vote);
      }
    }
  }

  /** A certificate obtained anywhere in any reachable state has distinct active
      signers, claims exactly the stake they hold, passes verification and the
      epoch-transition check at every node, and its block is finalised where it was
      obtained. */
  lemma CertificatesAcceptedEverywhere(cfg: Config, ids: set<NodeId>, events: seq<Event>,
                                       n: NodeId, qc: QuorumCertificate)
    requires WellFormedSet(cfg.set_) && cfg.env.bls.Complete()
    requires Reach(cfg, ids, events).Some? && SignedVotes(cfg, Reach(cfg, ids, events).value.sent)
    requires (n, qc) in Reach(cfg, ids, events).value.issued
    ensures qc.signers != [] && NoDuplicates(qc.signers)
    ensures forall id :: id in qc.signers ==> IsActive(cfg.set_.validators, id)
    ensures SignerStake(qc.signers, cfg.set_.validators) == qc.stakeSigned
    ensures VerifyQc(cfg.env.bls, qc, cfg.set_) == Accept && MeetsEpochQuorum(qc, cfg.set_)
    ensures n in Reach(cfg, ids, events).value.nodes && qc.hash in Reach(cfg, ids, events).value.nodes[n].finalized
  {
    ReachableInvariant(cfg, ids, events);
    ReachableFinalized(cfg, ids, events);
    assert Backed(cfg, Reach(cfg, ids, events).value.sent, (n, qc).1);
    BackedIsAccepted(cfg, Reach(cfg, ids, events).value.sent, qc);
  }

  // ---- Nothing else is finalised ----

  ghost predicate CertifiedAt(s: System, n: NodeId, h: Hash) {
    exists c :: c in s.issued && c.0 == n && c.1.hash == h
  }

  /** The node was given this digest's block as its genesis. */
  ghost predicate GenesisAt(cfg: Config, events: seq<Event>, n: NodeId, h: Hash) {
    exists k :: 0 <= k < |events| && events[k].Local? && events[k].node == n && events[k].op.SetGenesis?
                && cfg.env.hashOf(events[k].op.block.header) == h
  }

  lemma StepFinalizes(cfg: Config, s: System, e: Event, n: NodeId, h: Hash)
    requires Enabled(cfg, s, e) && n in s.nodes && h in Next(cfg, s, e).nodes[n].finalized
    ensures n in Next(cfg, s, e).nodes
    ensures h in s.nodes[n].finalized || CertifiedAt(Next(cfg, s, e), n, h)
            || (e.Local? && e.node == n && e.op.SetGenesis? && cfg.env.hashOf(e.op.block.header) == h)
  {
    if e.Deliver? && e.node == n && h !in s.nodes[n].finalized {
      var qc := CertificateOnVote(cfg.env, cfg.set_, s.nodes[n], e.vote);
      assert qc.Some? && (n, qc.value) in Next(cfg, s, e).issued && qc.value.hash == h;
      assert (n, qc.value).0 == n && (n, qc.value).1.hash == h;
    }
  }

  lemma NodesStay(cfg: Config, s: System, e: Event)
    requires Enabled(cfg, s, e)
    ensures Next(cfg, s, e).nodes.Keys == s.nodes.Keys && s.issued <= Next(cfg, s, e).issued
  {
  }

  /** A digest in a node's finalised map is that of a genesis block it was given, or
      of a certificate issued there. */
  lemma {:induction false} FinalizedIsJustified(cfg: Config, ids: set<NodeId>, events: seq<Event>, n: NodeId, h: Hash)
    requires Reach(cfg, ids, events).Some? && n in Reach(cfg, ids, events).value.nodes
    requires h in Reach(cfg, ids, events).value.nodes[n].finalized
    ensures CertifiedAt(Reach(cfg, ids, events).value, n, h) || GenesisAt(cfg, events, n, h)
  {
    if events != [] {
      var before, e := events[..|events| - 1], events[|events| - 1];
      var s := Reach(cfg, ids, before).value;
      NodesStay(cfg, s, e);
      StepFinalizes(cfg, s, e, n, h);
      if h in s.nodes[n].finalized {
        FinalizedIsJustified(cfg, ids, before, n, h);
        if GenesisAt(cfg, before, n, h) {
          var k :| 0 <= k < |before| && before[k].Local? && before[k].node == n && before[k].op.SetGenesis?
                   && cfg.env.hashOf(before[k].op.block.header) == h;
          assert events[k] == before[k];
        }
      }
    }
  }

  /** Finality agrees: what two nodes finalised beyond their genesis blocks was
      certified at each, and certificates at one height name one block. */
  lemma FinalityAgrees(cfg: Config, ids: set<NodeId>, events: seq<Event>, n1: NodeId, h1: Hash, n2: NodeId, h2: Hash)
    requires WellFormedSet(cfg.set_) && cfg.set_.totalStake * 2 + 2 < TWO_64
    requires 3 * Weight(cfg.set_.validators, cfg.byzantine) < cfg.set_.totalStake
    requires Reach(cfg, ids, events).Some?
    requires n1 in Reach(cfg, ids, events).value.nodes && h1 in Reach(cfg, ids, events).value.nodes[n1].finalized
    requires n2 in Reach(cfg, ids, events).value.nodes && h2 in Reach(cfg, ids, events).value.nodes[n2].finalized
    requires !GenesisAt(cfg, events, n1, h1) && !GenesisAt(cfg, events, n2, h2)
    ensures CertifiedAt(Reach(cfg, ids, events).value, n1, h1) && CertifiedAt(Reach(cfg, ids, events).value, n2, h2)
    ensures forall a, b ::
              (n1, a) in Reach(cfg, ids, events).value.issued && a.hash == h1
              && (n2, b) in Reach(cfg, ids, events).value.issued && b.hash == h2 && a.height == b.height
              ==> h1 == h2
  {
    var s := Reach(cfg, ids, events).value;
    FinalizedIsJustified(cfg, ids, events, n1, h1);
    FinalizedIsJustified(cfg, ids, events, n2, h2);
    forall a, b | (n1, a) in s.issued && a.hash == h1 && (n2, b) in s.issued && b.hash == h2 && a.height == b.height
      ensures h1 == h2
    {
      NoConflictingCertificates(cfg, ids, events, n1, a, n2, b);
    }
  }
}
