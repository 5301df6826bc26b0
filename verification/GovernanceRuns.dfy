/** Any sequence of governance calls, at any heights: who voted what, when a
    proposal was approved and executed, and which way its status can go. */
module GovernanceRuns {
  import opened Types
  import opened Governance
  import opened Sums

  datatype Op =
    | Submit(parameter: ParameterType, value: seq<nat>, description: string, proposer: Address,
             backers: seq<nat>, stakes: map<nat, u64>, total: u64, height: u64)
    | Cast(id: u64, voter: nat, inFavor: bool, stake: u64, height: u64)
    | Finalize(id: u64, total: u64, height: u64)
    | Execute(id: u64, height: u64)

  function Apply(cfg: GovConfig, st: GovState, op: Op): GovState {
    match op
    case Submit(parameter, value, description, proposer, backers, stakes, total, height) =>
      WithProposal(cfg, st, parameter, value, description, proposer, backers, stakes, total, height)
    case Cast(id, voter, inFavor, stake, height) => WithVote(st, id, voter, inFavor, stake, height)
    case Finalize(id, total, height) => WithFinalized(cfg, st, id, total, height)
    case Execute(id, height) => WithExecuted(cfg, st, id, height)
  }

  function Run(cfg: GovConfig, ops: seq<Op>): GovState {
    if ops == [] then GovState(map[], 1) else Apply(cfg, Run(cfg, ops[..|ops| - 1]), ops[|ops| - 1])
  }

  // ---- What a run recorded about one proposal ----

  datatype Ballot = Ballot(voter: nat, inFavor: bool, stake: u64)

  /** The votes accepted, the height that approved and the height that executed. */
  datatype Record = Record(ballots: seq<Ballot>, approvedAt: Option<u64>, executedAt: Option<u64>)

  function Recorded(cfg: GovConfig, st: GovState, op: Op, id: u64, r: Record): Record {
    match op
    case Submit(_, _, _, _, _, _, _, _) => r
    case Cast(i, voter, inFavor, stake, height) =>
      if i == id && MayVote(st, id, voter, stake, height)
      then r.(ballots := r.ballots + [Ballot(voter, inFavor, stake)]) else r
    case Finalize(i, total, height) =>
      if i == id && MayFinalize(st, id, height) && Finalized(cfg, st.proposals[id], total, height).status == Approved
      then r.(approvedAt := Some(height)) else r
    case Execute(i, height) =>
      if i == id && MayExecute(cfg, st, id, height) then r.(executedAt := Some(height)) else r
  }

  function RecordOf(cfg: GovConfig, ops: seq<Op>, id: u64): Record {
    if ops == [] then Record([], None, None)
    else
      var before := ops[..|ops| - 1];
      Recorded(cfg, Run(cfg, before), ops[|ops| - 1], id, RecordOf(cfg, before, id))
  }

  function Tally(ballots: seq<Ballot>, side: bool): nat {
    if ballots == [] then 0
    else
      var b := ballots[|ballots| - 1];
      Tally(ballots[..|ballots| - 1], side) + if b.inFavor == side then b.stake else 0
  }

  /** One ballot per voter, and the proposal's map is those ballots. */
  ghost predicate Ballots(p: Proposal, ballots: seq<Ballot>) {
    && Listed(p.votes, ballots)
    && p.votesFor == Wrap(Tally(ballots, true)) && p.votesAgainst == Wrap(Tally(ballots, false))
  }

  ghost predicate Listed(votes: map<nat, bool>, ballots: seq<Ballot>) {
    && (forall i, j :: 0 <= i < j < |ballots| ==> ballots[i].voter != ballots[j].voter)
    && (forall b :: b in ballots ==> b.voter in votes && votes[b.voter] == b.inFavor && b.stake > 0)
    && |votes| == |ballots|
  }

  /** Status, heights and tallies fit the record. */
  ghost predicate Consistent(cfg: GovConfig, p: Proposal, r: Record) {
    && Ballots(p, r.ballots)
    && p.votingEndsAt == Wrap(p.createdAt + Days(cfg, 7))
    && p.status != Pending
    && (p.status == Approved || p.status == Executed <==> r.approvedAt.Some?)
    && (r.approvedAt.Some? ==>
          && r.approvedAt.value >= p.votingEndsAt
          && p.timelockEndsAt == Wrap(r.approvedAt.value + Days(cfg, TimelockDays(p.parameter)))
          && MeetsApproval(p.votesFor, Wrap(p.votesFor + p.votesAgainst)))
    && (p.status == Executed <==> r.executedAt.Some?)
    && (r.executedAt.Some? ==> r.executedAt.value >= p.timelockEndsAt && cfg.validValue(p.parameter, p.newValue))
  }

  ghost predicate Tracks(cfg: GovConfig, st: GovState, id: u64, r: Record) {
    && (id in st.proposals ==> st.proposals[id].id == id < st.nextId && Consistent(cfg, st.proposals[id], r))
    && (id !in st.proposals ==> r == Record([], None, None))
    && (id >= st.nextId ==> id !in st.proposals)
  }

  lemma TallySnoc(ballots: seq<Ballot>, b: Ballot, side: bool)
    ensures Tally(ballots + [b], side) == Tally(ballots, side) + if b.inFavor == side then b.stake else 0
  {
    assert (ballots + [b])[..|ballots|] == ballots;
  }

  lemma WrapSum(a: int, b: int)
    ensures Wrap(Wrap(a) + b) == Wrap(a + b)
  {
  }

  lemma VotedBallots(p: Proposal, ballots: seq<Ballot>, voter: nat, inFavor: bool, stake: u64)
    requires Ballots(p, ballots) && voter !in p.votes && stake > 0
    ensures Ballots(Voted(p, voter, inFavor, stake), ballots + [Ballot(voter, inFavor, stake)])
  {
    TallyMoves(p.votesFor, ballots, Ballot(voter, inFavor, stake), true);
    TallyMoves(p.votesAgainst, ballots, Ballot(voter, inFavor, stake), false);
    ListedOneMore(p.votes, ballots, Ballot(voter, inFavor, stake));
  }

  lemma TallyMoves(tally: u64, ballots: seq<Ballot>, b: Ballot, side: bool)
    requires tally == Wrap(Tally(ballots, side))
    ensures (if b.inFavor == side then Wrap(tally + b.stake) else tally) == Wrap(Tally(ballots + [b], side))
  {
    TallySnoc(ballots, b, side);
    WrapSum(Tally(ballots, side), b.stake);
  }

  lemma ListedOneMore(votes: map<nat, bool>, ballots: seq<Ballot>, b: Ballot)
    requires Listed(votes, ballots) && b.voter !in votes && b.stake > 0
    ensures Listed(votes[b.voter := b.inFavor], ballots + [b])
  {
    assert forall x :: x in ballots ==> x.voter != b.voter;
  }

  lemma SubmitTracks(cfg: GovConfig, st: GovState, p: Proposal, id: u64, r: Record)
    requires Tracks(cfg, st, id, r) && st.nextId + 1 < TWO_64
    requires p.id == st.nextId && p.votingEndsAt == Wrap(p.createdAt + Days(cfg, 7)) && p.status == Open
    requires p.votesFor == p.votesAgainst == 0 && p.votes == map[]
    ensures Tracks(cfg, GovState(st.proposals[st.nextId := p], st.nextId + 1), id, r)
  {
  }

  /** A change of one proposal that keeps its id tracks it with the new record. */
  lemma ChangeTracks(cfg: GovConfig, st: GovState, p: Proposal, i: u64, id: u64, r: Record, r': Record)
    requires Tracks(cfg, st, id, r) && i in st.proposals && (i != id ==> r' == r)
    requires i == id ==> p.id == id && Consistent(cfg, p, r')
    ensures Tracks(cfg, st.(proposals := st.proposals[i := p]), id, r')
  {
  }

  lemma VotedConsistent(cfg: GovConfig, p: Proposal, r: Record, voter: nat, inFavor: bool, stake: u64)
    requires Consistent(cfg, p, r) && p.status == Open && voter !in p.votes && stake > 0
    ensures Consistent(cfg, Voted(p, voter, inFavor, stake), r.(ballots := r.ballots + [Ballot(voter, inFavor, stake)]))
  {
    VotedBallots(p, r.ballots, voter, inFavor, stake);
  }

  lemma FinalizedConsistent(cfg: GovConfig, p: Proposal, r: Record, total: u64, height: u64)
    requires Consistent(cfg, p, r) && p.status == Open && height >= p.votingEndsAt
    ensures var q := Finalized(cfg, p, total, height);
            Consistent(cfg, q, if q.status == Approved then r.(approvedAt := Some(height)) else r)
  {
  }

  lemma ExecutedConsistent(cfg: GovConfig, p: Proposal, r: Record, height: u64)
    requires Consistent(cfg, p, r) && p.status == Approved && height >= p.timelockEndsAt
    requires cfg.validValue(p.parameter, p.newValue)
    ensures Consistent(cfg, p.(status := Executed), r.(executedAt := Some(height)))
  {
  }

  lemma CastTracks(cfg: GovConfig, st: GovState, op: Op, id: u64, r: Record)
    requires Tracks(cfg, st, id, r) && op.Cast?
    ensures Tracks(cfg, Apply(cfg, st, op), id, Recorded(cfg, st, op, id, r))
  {
    if MayVote(st, op.id, op.voter, op.stake, op.height) {
      if op.id == id {
        VotedConsistent(cfg, st.proposals[id], r, op.voter, op.inFavor, op.stake);
      }
      ChangeTracks(cfg, st, Voted(st.proposals[op.id], op.voter, op.inFavor, op.stake), op.id, id, r,
                   Recorded(cfg, st, op, id, r));
    }
  }

  lemma FinalizeTracks(cfg: GovConfig, st: GovState, op: Op, id: u64, r: Record)
    requires Tracks(cfg, st, id, r) && op.Finalize?
    ensures Tracks(cfg, Apply(cfg, st, op), id, Recorded(cfg, st, op, id, r))
  {
    if MayFinalize(st, op.id, op.height) {
      var p := st.proposals[op.id];
      if op.id == id {
        FinalizedConsistent(cfg, p, r, op.total, op.height);
      }
      ChangeTracks(cfg, st, Finalized(cfg, p, op.total, op.height), op.id, id, r, Recorded(cfg, st, op, id, r));
    }
  }

  lemma ExecuteTracks(cfg: GovConfig, st: GovState, op: Op, id: u64, r: Record)
    requires Tracks(cfg, st, id, r) && op.Execute?
    ensures Tracks(cfg, Apply(cfg, st, op), id, Recorded(cfg, st, op, id, r))
  {
    if MayExecute(cfg, st, op.id, op.height) {
      if op.id == id {
        ExecutedConsistent(cfg, st.proposals[id], r, op.height);
      }
      ChangeTracks(cfg, st, st.proposals[op.id].(status := Executed), op.id, id, r, Recorded(cfg, st, op, id, r));
    }
  }

  lemma StepTracks(cfg: GovConfig, st: GovState, op: Op, id: u64, r: Record)
    requires Tracks(cfg, st, id, r) && st.nextId + 1 < TWO_64
    ensures Tracks(cfg, Apply(cfg, st, op), id, Recorded(cfg, st, op, id, r))
  {
    match op
    case Submit(parameter, value, description, proposer, backers, stakes, total, height) =>
      SubmitTracks(cfg, st, NewProposal(cfg, st.nextId, parameter, value, description, proposer,
                                        Backing(backers, stakes), height), id, r);
    case Cast(_, _, _, _, _) => CastTracks(cfg, st, op, id, r);
    case Finalize(_, _, _) => FinalizeTracks(cfg, st, op, id, r);
    case Execute(_, _) => ExecuteTracks(cfg, st, op, id, r);
  }

  lemma NextIdMoves(cfg: GovConfig, st: GovState, op: Op)
    requires st.nextId + 1 < TWO_64
    ensures st.nextId <= Apply(cfg, st, op).nextId <= st.nextId + 1
  {
  }

  /** Whatever was called before, every proposal's tallies are the summed stakes of
      its distinct recorded voters, and its status agrees with when it was approved
      and executed. */
  lemma {:induction false} RunTracks(cfg: GovConfig, ops: seq<Op>, id: u64)
    requires |ops| + 2 < TWO_64
    ensures Tracks(cfg, Run(cfg, ops), id, RecordOf(cfg, ops, id)) && Run(cfg, ops).nextId <= |ops| + 1
  {
    if ops != [] {
      var before := ops[..|ops| - 1];
      RunTracks(cfg, before, id);
      StepTracks(cfg, Run(cfg, before), ops[|ops| - 1], id, RecordOf(cfg, before, id));
      NextIdMoves(cfg, Run(cfg, before), ops[|ops| - 1]);
    }
  }

  /** A deadline computed as start plus n days, all in 64-bit arithmetic, is one that no
      height before the real deadline passes, if and only if the days and the sum fit
      in 64 bits. */
  lemma DeadlineExact(cfg: GovConfig, start: u64, n: u64)
    ensures NeverEarly(Wrap(start + Days(cfg, n)), start + n * cfg.blocksPerDay)
       <==> start + n * cfg.blocksPerDay < TWO_64
  {
    var period := n * cfg.blocksPerDay;
    if start + period >= TWO_64 {
      var early: u64 := Wrap(start + Days(cfg, n));
      assert Reaches(early, Wrap(start + Days(cfg, n))) && !Reaches(early, start + period);
    } else {
      DaysExact(cfg, n);
    }
  }

  predicate Reaches(h: u64, deadline: int) {
    h >= deadline
  }

  /** No height that reaches the checked deadline misses the real one. */
  ghost predicate NeverEarly(checked: int, due: int) {
    forall h: u64 :: Reaches(h, checked) ==> Reaches(h, due)
  }

  lemma DaysExact(cfg: GovConfig, n: u64)
    requires n * cfg.blocksPerDay < TWO_64
    ensures Days(cfg, n) == n * cfg.blocksPerDay
  {
  }

  /** The timelock of a parameter, by how much of the protocol it governs. */
  ghost function DaysFor(p: ParameterType): u64 {
    if p in {IssuanceCoefficient, SlashingAlpha, SlashingBeta} then 14
    else if p in {ValidatorSetSize, MinimumSelfBond} then 7
    else 3
  }

  lemma InTime(cfg: GovConfig, p: Proposal, r: Record)
    requires Consistent(cfg, p, r) && p.status == Executed
    ensures r.executedAt.Some? && r.approvedAt.Some?
    ensures p.createdAt + 7 * cfg.blocksPerDay < TWO_64 ==>
              r.approvedAt.value >= p.createdAt + 7 * cfg.blocksPerDay
    ensures r.approvedAt.value + DaysFor(p.parameter) * cfg.blocksPerDay < TWO_64 ==>
              r.executedAt.value >= r.approvedAt.value + DaysFor(p.parameter) * cfg.blocksPerDay
  {
    assert TimelockDays(p.parameter) == DaysFor(p.parameter);
    DeadlineExact(cfg, p.createdAt, 7);
    DeadlineExact(cfg, r.approvedAt.value, TimelockDays(p.parameter));
    assert Reaches(r.approvedAt.value, p.votingEndsAt) && Reaches(r.executedAt.value, p.timelockEndsAt);
  }

  /** An executed proposal was approved and then executed. The approval came no earlier
      than seven days after creation if that deadline fits in 64 bits, and the execution
      no earlier than the timelock after the approval if that one does. */
  lemma ExecutedInTime(cfg: GovConfig, ops: seq<Op>, id: u64)
    requires |ops| + 2 < TWO_64
    requires id in Run(cfg, ops).proposals && Run(cfg, ops).proposals[id].status == Executed
    ensures var p := Run(cfg, ops).proposals[id];
            var r := RecordOf(cfg, ops, id);
            && r.executedAt.Some? && r.approvedAt.Some?
            && (p.createdAt + 7 * cfg.blocksPerDay < TWO_64 ==>
                  r.approvedAt.value >= p.createdAt + 7 * cfg.blocksPerDay)
            && (r.approvedAt.value + DaysFor(p.parameter) * cfg.blocksPerDay < TWO_64 ==>
                  r.executedAt.value >= r.approvedAt.value + DaysFor(p.parameter) * cfg.blocksPerDay)
  {
    RunTracks(cfg, ops, id);
    InTime(cfg, Run(cfg, ops).proposals[id], RecordOf(cfg, ops, id));
  }

  /** Approval, now or earlier, means two thirds of the recorded stake voted for. */
  lemma ApprovedByTwoThirds(cfg: GovConfig, ops: seq<Op>, id: u64)
    requires |ops| + 2 < TWO_64
    requires id in Run(cfg, ops).proposals
    requires var p := Run(cfg, ops).proposals[id]; p.status == Approved || p.status == Executed
    requires var b := RecordOf(cfg, ops, id).ballots; Tally(b, true) + Tally(b, false) < TWO_64
    ensures var b := RecordOf(cfg, ops, id).ballots;
            3 * Tally(b, true) >= 2 * (Tally(b, true) + Tally(b, false)) > 0
  {
    RunTracks(cfg, ops, id);
  }

  // ---- One step ----

  /** Status only moves from open to approved or rejected and from approved to
      executed; once voting is over the tallies are frozen. */
  lemma StatusMoves(cfg: GovConfig, ops: seq<Op>, op: Op, id: u64)
    requires |ops| + 2 < TWO_64 && id in Run(cfg, ops).proposals
    ensures var p := Run(cfg, ops).proposals[id];
            id in Apply(cfg, Run(cfg, ops), op).proposals
            && var q := Apply(cfg, Run(cfg, ops), op).proposals[id];
               && (q.status == p.status
                   || (p.status == Open && (q.status == Approved || q.status == Rejected))
                   || (p.status == Approved && q.status == Executed))
               && (p.status != Open ==>
                     q.votes == p.votes && q.votesFor == p.votesFor && q.votesAgainst == p.votesAgainst)
  {
    RunTracks(cfg, ops, id);
  }

  // ---- What the thresholds really are ----

  /** Approval in plain terms: some stake voted, at least a tenth of the total did,
      and those in favour outweigh those against by 667 to 333. Then the timelock
      starts at the finalising height; otherwise the proposal is rejected. */
  lemma FinalizedExactly(cfg: GovConfig, p: Proposal, total: u64, height: u64)
    requires p.votesFor + p.votesAgainst < TWO_64
    ensures var q := Finalized(cfg, p, total, height);
            var approved := p.votesFor > 0 && 10 * (p.votesFor + p.votesAgainst) >= total
                            && 333 * p.votesFor >= 667 * p.votesAgainst;
            && q.status == (if approved then Approved else Rejected)
            && (approved ==> q.timelockEndsAt == (height + (DaysFor(p.parameter) * cfg.blocksPerDay) % TWO_64) % TWO_64)
            && q.votesFor == p.votesFor && q.votesAgainst == p.votesAgainst && q.votes == p.votes
  {
  }

  /** Approval at 0.667 is stricter than the two thirds the documentation promises:
      a two-thirds majority is turned down exactly when its rate is below 0.667. */
  lemma TwoThirdsTurnedDown(cfg: GovConfig, p: Proposal, total: u64, height: u64)
    requires p.votesFor + p.votesAgainst < TWO_64 && !MissesQuorum(p.votesFor + p.votesAgainst, total)
    requires p.votesFor + p.votesAgainst > 0 && 3 * p.votesFor >= 2 * (p.votesFor + p.votesAgainst)
    ensures Finalized(cfg, p, total, height).status == Rejected <==> 333 * p.votesFor < 667 * p.votesAgainst
    ensures p.votesFor == 2 * p.votesAgainst ==> Finalized(cfg, p, total, height).status == Rejected
  {
  }

  // ---- The proposal threshold ----

  /** The backers' stakes as an unbounded sum, each as often as it is listed. */
  function PlainBacking(backers: seq<nat>, stakes: map<nat, u64>): nat {
    if backers == [] then 0
    else
      var b := backers[|backers| - 1];
      PlainBacking(backers[..|backers| - 1], stakes) + if b in stakes then stakes[b] else 0
  }

  function BackerStakes(backers: seq<nat>, stakes: map<nat, u64>): map<nat, int> {
    map b | b in backers && b in stakes :: stakes[b]
  }

  /** The stake of the distinct backers. */
  ghost function DistinctBacking(backers: seq<nat>, stakes: map<nat, u64>): int {
    SumMap(BackerStakes(backers, stakes))
  }

  ghost predicate RepeatedOnlyWithoutStake(backers: seq<nat>, stakes: map<nat, u64>) {
    forall i, j :: 0 <= i < j < |backers| && backers[i] == backers[j] && backers[i] in stakes ==>
      stakes[backers[i]] == 0
  }

  lemma {:induction false} BackingIsPlain(backers: seq<nat>, stakes: map<nat, u64>)
    requires PlainBacking(backers, stakes) < TWO_64
    ensures Backing(backers, stakes) == PlainBacking(backers, stakes)
  {
    if backers != [] {
      BackingIsPlain(backers[..|backers| - 1], stakes);
    }
  }

  lemma DistinctSnoc(backers: seq<nat>, b: nat, stakes: map<nat, u64>)
    ensures DistinctBacking(backers + [b], stakes)
         == DistinctBacking(backers, stakes) + if b in stakes && b !in backers then stakes[b] else 0
  {
    var m := BackerStakes(backers, stakes);
    if b in stakes {
      assert BackerStakes(backers + [b], stakes) == m[b := stakes[b]];
      SumMapUpdate(m, b, stakes[b]);
    } else {
      assert BackerStakes(backers + [b], stakes) == m;
    }
  }

  lemma RepeatedSnoc(backers: seq<nat>, b: nat, stakes: map<nat, u64>)
    ensures RepeatedOnlyWithoutStake(backers + [b], stakes)
       <==> RepeatedOnlyWithoutStake(backers, stakes) && (b in backers && b in stakes ==> stakes[b] == 0)
  {
    var all := backers + [b];
    if RepeatedOnlyWithoutStake(all, stakes) {
      assert forall i :: 0 <= i < |backers| ==> all[i] == backers[i];
      if b in backers {
        var i :| 0 <= i < |backers| && backers[i] == b;
        assert all[i] == all[|backers|];
      }
    }
  }

  lemma {:induction false} PlainAgainstDistinct(backers: seq<nat>, stakes: map<nat, u64>)
    ensures PlainBacking(backers, stakes) >= DistinctBacking(backers, stakes)
    ensures PlainBacking(backers, stakes) == DistinctBacking(backers, stakes)
       <==> RepeatedOnlyWithoutStake(backers, stakes)
  {
    if backers == [] {
      assert BackerStakes(backers, stakes) == map[];
    } else {
      var init, b := backers[..|backers| - 1], backers[|backers| - 1];
      PlainAgainstDistinct(init, stakes);
      assert backers == init + [b];
      DistinctSnoc(init, b, stakes);
      RepeatedSnoc(init, b, stakes);
    }
  }

  /** The backing the program computes is the distinct backers' stake if and only if no
      backer with stake is listed twice, for every list whose plain sum fits in 64 bits;
      and then the threshold is a thousandth of the total stake. */
  lemma BackingExact(backers: seq<nat>, stakes: map<nat, u64>)
    requires PlainBacking(backers, stakes) < TWO_64
    ensures Backing(backers, stakes) == DistinctBacking(backers, stakes) <==> RepeatedOnlyWithoutStake(backers, stakes)
    ensures Backing(backers, stakes) >= DistinctBacking(backers, stakes)
  {
    BackingIsPlain(backers, stakes);
    PlainAgainstDistinct(backers, stakes);
  }

  /** Submission in plain terms. */
  lemma SubmissionExact(cfg: GovConfig, parameter: ParameterType, value: seq<nat>,
                        backers: seq<nat>, stakes: map<nat, u64>, total: u64)
    requires 1000 * PlainBacking(backers, stakes) < TWO_64 && RepeatedOnlyWithoutStake(backers, stakes)
    ensures MaySubmit(cfg, parameter, value, backers, stakes, total)
       <==> cfg.validValue(parameter, value) && 1000 * DistinctBacking(backers, stakes) >= total
  {
    BackingIsPlain(backers, stakes);
    PlainAgainstDistinct(backers, stakes);
    assert Wrap(Backing(backers, stakes) as int * 1000) == 1000 * PlainBacking(backers, stakes);
  }

  lemma BackingSnoc(backers: seq<nat>, b: nat, stakes: map<nat, u64>)
    ensures Backing(backers + [b], stakes)
         == if b in stakes then Wrap(Backing(backers, stakes) + stakes[b]) else Backing(backers, stakes)
  {
    assert (backers + [b])[..|backers|] == backers;
  }

  function Repeated(b: nat, k: nat): (r: seq<nat>)
    ensures |r| == k
  {
    if k == 0 then [] else Repeated(b, k - 1) + [b]
  }

  lemma OneMore(k: nat, stake: nat)
    requires k > 0
    ensures 0 <= (k - 1) * stake == k * stake - stake
  {
  }

  /** A backer listed k times backs with k times its stake. */
  lemma {:induction false} RepeatedBackerCounts(b: nat, stake: u64, k: nat)
    requires k * stake < TWO_64
    ensures Backing(Repeated(b, k), map[b := stake]) == k * stake
  {
    if k > 0 {
      OneMore(k, stake);
      RepeatedBackerCounts(b, stake, k - 1);
      BackingSnoc(Repeated(b, k - 1), b, map[b := stake]);
    }
  }

  /** So a submission is accepted that the distinct backers could not make: a validator
      with a two-thousandth of the stake, listed twice. */
  lemma RepeatedBackerAccepted(cfg: GovConfig, parameter: ParameterType, value: seq<nat>, b: nat)
    requires cfg.validValue(parameter, value)
    ensures MaySubmit(cfg, parameter, value, Repeated(b, 2), map[b := 1], 2000)
    ensures 1000 * DistinctBacking(Repeated(b, 2), map[b := 1]) < 2000
  {
    RepeatedBackerCounts(b, 1, 2);
    assert Repeated(b, 0) == [] && Repeated(b, 1) == [] + [b] && Repeated(b, 2) == Repeated(b, 1) + [b];
    DistinctSnoc([], b, map[b := 1]);
    DistinctSnoc(Repeated(b, 1), b, map[b := 1]);
    assert BackerStakes([], map[b := 1]) == map[];
  }
}
