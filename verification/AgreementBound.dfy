/** The third of the stake is tight: with exactly a third Byzantine, agreement fails. */
module AgreementBound {
  import opened Types
  import opened StakeWeight
  import opened Sorting
  import opened VoteAggregation
  import opened QcVerification
  import opened Consensus
  import opened Agreement

  // ---- The bound is tight ----

  lemma ReachStep(cfg: Config, ids: set<NodeId>, events: seq<Event>, e: Event) returns (s: System)
    requires Reach(cfg, ids, events).Some? && Enabled(cfg, Reach(cfg, ids, events).value, e)
    ensures s == Next(cfg, Reach(cfg, ids, events).value, e)
    ensures Reach(cfg, ids, events + [e]) == Some(s)
  {
    assert (events + [e])[..|events|] == events;
    s := Next(cfg, Reach(cfg, ids, events).value, e);
  }

  function Unit(id: ValidatorId): Validator {
    Validator(id, 0, 0, 1, Active, 0, 0, 0, 0)
  }

  function ThreeUnits(): ValidatorSet {
    ValidatorSet(0, [Unit(1), Unit(2), Unit(3)], 3, 0)
  }

  lemma ThreeUnitsWeights()
    ensures WellFormedSet(ThreeUnits()) && Weight(ThreeUnits().validators, {3}) == 1
    ensures forall id :: 1 <= id <= 3 ==>
              IsActive(ThreeUnits().validators, id) && StakeOf(ThreeUnits().validators, id) == 1
  {
    var vs := ThreeUnits().validators;
    assert vs[..2] == [Unit(1), Unit(2)];
    assert vs[..2][..1] == [Unit(1)];
    assert ActiveStake([Unit(1)]) == 1 && ActiveStake(vs[..2]) == 2;
    assert Weight([Unit(1)], {3}) == 0 && Weight(vs[..2], {3}) == 0;
    FindAt(vs, 0); FindAt(vs, 1); FindAt(vs, 2);
    assert vs[0] in vs && vs[1] in vs && vs[2] in vs;
  }

  /** Two of three equal votes are a quorum. */
  lemma TwoVotesCertify(env: Env, a: ValidatorId, b: ValidatorId, hash: Hash)
    requires 1 <= a <= 3 && 1 <= b <= 3 && a != b
    ensures var st := AfterVote(env, ThreeUnits(), ThreeUnits(), INITIAL, Vote(a, 1, hash, 0, 0));
            var qc := CertificateOnVote(env, ThreeUnits(), st, Vote(b, 1, hash, 0, 0));
            qc.Some? && qc.value.height == 1 && qc.value.hash == hash
  {
    ThreeUnitsWeights();
  }

  /** Delivering two of the three votes for one digest to an untouched node. */
  lemma NodeCertifies(cfg: Config, ids: set<NodeId>, events: seq<Event>, node: NodeId,
                      a: ValidatorId, b: ValidatorId, hash: Hash)
      returns (events': seq<Event>, qc: QuorumCertificate)
    requires cfg.set_ == ThreeUnits() && 1 <= a <= 3 && 1 <= b <= 3 && a != b
    requires Reach(cfg, ids, events).Some?
    requires var s := Reach(cfg, ids, events).value;
             && node in s.nodes && s.nodes[node] == INITIAL
             && Vote(a, 1, hash, 0, 0) in s.sent && Vote(b, 1, hash, 0, 0) in s.sent
    ensures Reach(cfg, ids, events').Some?
    ensures var s, s' := Reach(cfg, ids, events).value, Reach(cfg, ids, events').value;
            && s'.sent == s.sent && s.issued <= s'.issued && (node, qc) in s'.issued
            && s'.nodes - {node} == s.nodes - {node}
            && qc.height == 1 && qc.hash == hash
  {
    TwoVotesCertify(cfg.env, a, b, hash);
    var x, y := Vote(a, 1, hash, 0, 0), Vote(b, 1, hash, 0, 0);
    var s1 := ReachStep(cfg, ids, events, Deliver(node, x));
    var s2 := ReachStep(cfg, ids, events + [Deliver(node, x)], Deliver(node, y));
    events' := events + [Deliver(node, x)] + [Deliver(node, y)];
    qc := CertificateOnVote(cfg.env, cfg.set_, s1.nodes[node], y).value;
  }

  lemma FourVotesCast(cfg: Config, ids: set<NodeId>) returns (events: seq<Event>)
    requires cfg.byzantine == {3}
    ensures Reach(cfg, ids, events).Some?
    ensures var s := Reach(cfg, ids, events).value;
            && s.nodes == Initial(ids).nodes
            && s.sent == {Vote(1, 1, 10, 0, 0), Vote(3, 1, 10, 0, 0), Vote(2, 1, 20, 0, 0), Vote(3, 1, 20, 0, 0)}
  {
    var c1, c2 := Cast(Vote(1, 1, 10, 0, 0)), Cast(Vote(3, 1, 10, 0, 0));
    var c3, c4 := Cast(Vote(2, 1, 20, 0, 0)), Cast(Vote(3, 1, 20, 0, 0));
    events := [];
    var s := ReachStep(cfg, ids, events, c1);
    events := events + [c1];
    s := ReachStep(cfg, ids, events, c2);
    events := events + [c2];
    s := ReachStep(cfg, ids, events, c3);
    events := events + [c3];
    s := ReachStep(cfg, ids, events, c4);
    events := events + [c4];
  }

  /** With exactly a third of the stake Byzantine the promise fails: of three
      validators of stake one, the third votes for both blocks, and two nodes
      obtain certificates for different blocks at height 1. */
  lemma OneThirdByzantineConflicts(env: Env)
    ensures exists cfg, ids, events, a, b ::
              && cfg == Config(env, ThreeUnits(), {3})
              && WellFormedSet(cfg.set_) && 3 * Weight(cfg.set_.validators, cfg.byzantine) == cfg.set_.totalStake
              && Reach(cfg, ids, events).Some?
              && (0, a) in Reach(cfg, ids, events).value.issued && (1, b) in Reach(cfg, ids, events).value.issued
              && a.height == b.height == 1 && a.hash != b.hash
  {
    var cfg := Config(env, ThreeUnits(), {3});
    ThreeUnitsWeights();
    var ids: set<NodeId> := {0, 1};
    var cast := FourVotesCast(cfg, ids);
    var mid, a := NodeCertifies(cfg, ids, cast, 0, 1, 3, 10);
    assert 1 in Reach(cfg, ids, mid).value.nodes - {0};
    var events, b := NodeCertifies(cfg, ids, mid, 1, 2, 3, 20);
  }
}
