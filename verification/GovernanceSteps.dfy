/** Every governance call in plain terms, and whose votes a run counts. */
module GovernanceSteps {
  import opened Types
  import opened Places
  import opened Governance
  import opened GovernanceRuns

  lemma WrapProduct(a: u64, b: nat, k: nat)
    requires a == b % TWO_64
    ensures Wrap(a * k) == (b * k) % TWO_64
  {
    var q := b / TWO_64;
    assert b * k == a * k + (q * k) * TWO_64;
    ModShift(a * k, q * k);
  }

  lemma ModShift(a: nat, q: nat)
    ensures (a + q * TWO_64) % TWO_64 == a % TWO_64
  {
  }

  lemma {:induction false} BackingWraps(backers: seq<nat>, stakes: map<nat, u64>)
    ensures Backing(backers, stakes) == Wrap(PlainBacking(backers, stakes))
  {
    if backers != [] {
      var init, b := backers[..|backers| - 1], backers[|backers| - 1];
      BackingWraps(init, stakes);
      WrapSum(PlainBacking(init, stakes), if b in stakes then stakes[b] else 0);
    }
  }

  // ---- Each call ----

  /** A submission within the bounds and backed by a thousandth of the total, modulo 2^64
      and with each listed backer counted as often as listed, opens the next proposal with
      seven days to vote. */
  ghost predicate Submits(cfg: GovConfig, st: GovState, st': GovState, op: Op)
    requires op.Submit?
  {
    var backing := PlainBacking(op.backers, op.stakes);
    if cfg.validValue(op.parameter, op.value) && (backing * 1000) % TWO_64 >= op.total then
      && st'.nextId == (st.nextId + 1) % TWO_64
      && st'.proposals == st.proposals[st.nextId :=
           Proposal(st.nextId, op.parameter, op.description, op.value, op.proposer, backing % TWO_64, op.height,
                    (op.height + (7 * cfg.blocksPerDay) % TWO_64) % TWO_64, 0, Open, 0, 0, map[])]
    else st' == st
  }

  /** A vote counts on an open proposal before its end, once per voter, with any stake. */
  ghost predicate Casts(st: GovState, st': GovState, op: Op)
    requires op.Cast?
  {
    if && op.id in st.proposals && st.proposals[op.id].status == Open && op.height < st.proposals[op.id].votingEndsAt
       && op.voter !in st.proposals[op.id].votes && op.stake > 0 then
      var p := st.proposals[op.id];
      st' == st.(proposals := st.proposals[op.id := p.(
                   votes := p.votes[op.voter := op.inFavor],
                   votesFor := if op.inFavor then (p.votesFor + op.stake) % TWO_64 else p.votesFor,
                   votesAgainst := if op.inFavor then p.votesAgainst else (p.votesAgainst + op.stake) % TWO_64)])
    else st' == st
  }

  /** Voting closes on an open proposal once its end is reached: approved with a tenth of
      the total voting and 0.667 of it in favour, and then locked for its days. */
  ghost predicate Closes(cfg: GovConfig, st: GovState, st': GovState, op: Op)
    requires op.Finalize?
  {
    if op.id in st.proposals && st.proposals[op.id].status == Open && op.height >= st.proposals[op.id].votingEndsAt then
      var p := st.proposals[op.id];
      var voted := (p.votesFor + p.votesAgainst) % TWO_64;
      var q := if voted > 0 && 10 * voted >= op.total && 1000 * p.votesFor >= 667 * voted
               then p.(status := Approved,
                       timelockEndsAt := (op.height + (DaysFor(p.parameter) * cfg.blocksPerDay) % TWO_64) % TWO_64)
               else p.(status := Rejected);
      st' == st.(proposals := st.proposals[op.id := q])
    else st' == st
  }

  /** An approved proposal past its timelock whose value is still within bounds is executed. */
  ghost predicate Executes(cfg: GovConfig, st: GovState, st': GovState, op: Op)
    requires op.Execute?
  {
    if && op.id in st.proposals && st.proposals[op.id].status == Approved
       && op.height >= st.proposals[op.id].timelockEndsAt
       && cfg.validValue(st.proposals[op.id].parameter, st.proposals[op.id].newValue)
    then st' == st.(proposals := st.proposals[op.id := st.proposals[op.id].(status := Executed)])
    else st' == st
  }

  lemma SubmitExact(cfg: GovConfig, st: GovState, op: Op)
    requires op.Submit?
    ensures Submits(cfg, st, Apply(cfg, st, op), op)
  {
    BackingWraps(op.backers, op.stakes);
    WrapProduct(Backing(op.backers, op.stakes), PlainBacking(op.backers, op.stakes), 1000);
  }

  lemma CastExact(cfg: GovConfig, st: GovState, op: Op)
    requires op.Cast?
    ensures Casts(st, Apply(cfg, st, op), op)
  {
  }

  lemma CloseExact(cfg: GovConfig, st: GovState, op: Op)
    requires op.Finalize?
    ensures Closes(cfg, st, Apply(cfg, st, op), op)
  {
    if MayFinalize(st, op.id, op.height) {
      var p := st.proposals[op.id];
      assert TimelockDays(p.parameter) == DaysFor(p.parameter);
    }
  }

  lemma ExecuteExact(cfg: GovConfig, st: GovState, op: Op)
    requires op.Execute?
    ensures Executes(cfg, st, Apply(cfg, st, op), op)
  {
  }

  // ---- Whose votes count ----

  /** A vote with stake on this proposal, delivered at step k while it was open and
      before its end. */
  ghost predicate CastAt(cfg: GovConfig, ops: seq<Op>, id: u64, voter: nat, k: int) {
    && 0 <= k < |ops| && ops[k].Cast? && ops[k].id == id && ops[k].voter == voter && ops[k].stake > 0
    && var st := Run(cfg, ops[..k]);
       id in st.proposals && st.proposals[id].status == Open && ops[k].height < st.proposals[id].votingEndsAt
  }

  ghost predicate HasVoted(st: GovState, id: u64, voter: nat) {
    id in st.proposals && voter in st.proposals[id].votes
  }

  ghost predicate CastNow(st: GovState, op: Op, id: u64, voter: nat) {
    && op.Cast? && op.id == id && op.voter == voter && op.stake > 0
    && id in st.proposals && st.proposals[id].status == Open && op.height < st.proposals[id].votingEndsAt
  }

  lemma CastSnoc(cfg: GovConfig, ops: seq<Op>, op: Op, id: u64, voter: nat, k: int)
    ensures CastAt(cfg, ops + [op], id, voter, k)
       <==> if k == |ops| then CastNow(Run(cfg, ops), op, id, voter) else CastAt(cfg, ops, id, voter, k)
  {
    var after := ops + [op];
    assert after[|ops|] == op && after[..|ops|] == ops;
    assert forall j :: 0 <= j < |ops| ==> after[j] == ops[j];
    if 0 <= k < |ops| {
      assert after[..k] == ops[..k];
    }
  }

  lemma VotedStep(cfg: GovConfig, st: GovState, op: Op, id: u64, voter: nat)
    requires st.nextId !in st.proposals
    ensures HasVoted(Apply(cfg, st, op), id, voter) <==> HasVoted(st, id, voter) || CastNow(st, op, id, voter)
  {
    match op
    case Submit(_, _, _, _, _, _, _, _) => SubmitExact(cfg, st, op);
    case Cast(_, _, _, _, _) => CastExact(cfg, st, op);
    case Finalize(_, _, _) => CloseExact(cfg, st, op);
    case Execute(_, _) => ExecuteExact(cfg, st, op);
  }

  lemma VotersNext(cfg: GovConfig, ops: seq<Op>, op: Op, id: u64, voter: nat)
    requires |ops| + 2 < TWO_64
    requires HasVoted(Run(cfg, ops), id, voter) <==> exists k :: CastAt(cfg, ops, id, voter, k)
    ensures HasVoted(Run(cfg, ops + [op]), id, voter) <==> exists k :: CastAt(cfg, ops + [op], id, voter, k)
  {
    var st := Run(cfg, ops);
    assert (ops + [op])[..|ops|] == ops;
    RunTracks(cfg, ops, st.nextId);
    VotedStep(cfg, st, op, id, voter);
    CastSnoc(cfg, ops, op, id, voter, |ops|);
    forall k | k != |ops| ensures CastAt(cfg, ops + [op], id, voter, k) <==> CastAt(cfg, ops, id, voter, k) {
      CastSnoc(cfg, ops, op, id, voter, k);
    }
    if k :| CastAt(cfg, ops, id, voter, k) {
      assert k != |ops|;
    }
  }

  /** After any run, the voters of a proposal are exactly those whose vote with stake came
      while it was open and before its end: a later vote is never counted. */
  lemma VotersExact(cfg: GovConfig, ops: seq<Op>, id: u64, voter: nat)
    requires |ops| + 2 < TWO_64
    ensures HasVoted(Run(cfg, ops), id, voter) <==> exists k :: CastAt(cfg, ops, id, voter, k)
  {
    var holds := (s: seq<Op>) =>
      |s| + 2 < TWO_64 ==> (HasVoted(Run(cfg, s), id, voter) <==> exists k :: CastAt(cfg, s, id, voter, k));
    forall init, op | holds(init) ensures holds(init + [op]) {
      if |init + [op]| + 2 < TWO_64 {
        VotersNext(cfg, init, op, id, voter);
      }
    }
    ByAppending(holds, ops);
  }
}
