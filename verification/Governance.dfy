/** Governance proposals: submission, voting, tally, timelock, execution. */
module Governance {
  import opened Types

  datatype ParameterType =
    | BlockSize | GasLimit | IssuanceCoefficient | SlashingAlpha | SlashingBeta
    | ValidatorSetSize | MinimumSelfBond | BaseFeeAdjustment

  /** Open is the program's Active: voting is in progress. */
  datatype ProposalStatus = Pending | Open | Approved | Rejected | Executed

  datatype Proposal = Proposal(
    id: u64,
    parameter: ParameterType,
    description: string,
    newValue: seq<nat>,
    proposer: Address,
    stakeBacking: u64,
    createdAt: u64,
    votingEndsAt: u64,
    timelockEndsAt: u64,
    status: ProposalStatus,
    votesFor: u64,
    votesAgainst: u64,
    votes: map<nat, bool>)

  /** `validValue` is the bounds check on a parameter's encoded value. */
  datatype GovConfig = GovConfig(blocksPerDay: u64, validValue: (ParameterType, seq<nat>) -> bool)

  datatype GovState = GovState(proposals: map<u64, Proposal>, nextId: u64)

  // ---- Specification ----

  function Days(cfg: GovConfig, n: u64): u64 {
    Wrap(n * cfg.blocksPerDay)
  }

  function TimelockDays(p: ParameterType): (r: u64)
    ensures 3 <= r <= 14
  {
    match p
    case IssuanceCoefficient => 14
    case SlashingAlpha => 14
    case SlashingBeta => 14
    case ValidatorSetSize => 7
    case MinimumSelfBond => 7
    case BlockSize => 3
    case GasLimit => 3
    case BaseFeeAdjustment => 3
  }

  /** Backing stake as the loop sums it; a backer listed twice counts twice. */
  function Backing(backers: seq<nat>, stakes: map<nat, u64>): u64 {
    if backers == [] then 0
    else
      var before := Backing(backers[..|backers| - 1], stakes);
      var b := backers[|backers| - 1];
      if b in stakes then Wrap(before + stakes[b]) else before
  }

  predicate MaySubmit(cfg: GovConfig, parameter: ParameterType, value: seq<nat>,
                      backers: seq<nat>, stakes: map<nat, u64>, total: u64) {
    cfg.validValue(parameter, value) && Wrap(Backing(backers, stakes) * 1000) >= total
  }

  function NewProposal(cfg: GovConfig, id: u64, parameter: ParameterType, value: seq<nat>, description: string,
                       proposer: Address, backing: u64, height: u64): Proposal {
    Proposal(id, parameter, description, value, proposer, backing, height, Wrap(height + Days(cfg, 7)), 0,
             Open, 0, 0, map[])
  }

  function WithProposal(cfg: GovConfig, st: GovState, parameter: ParameterType, value: seq<nat>, description: string,
                        proposer: Address, backers: seq<nat>, stakes: map<nat, u64>, total: u64, height: u64)
    : GovState
  {
    if !MaySubmit(cfg, parameter, value, backers, stakes, total) then st
    else
      GovState(st.proposals[st.nextId := NewProposal(cfg, st.nextId, parameter, value, description, proposer,
                                                     Backing(backers, stakes), height)],
               Wrap(st.nextId + 1))
  }

  predicate MayVote(st: GovState, id: u64, voter: nat, stake: u64, height: u64) {
    && id in st.proposals && st.proposals[id].status == Open && height < st.proposals[id].votingEndsAt
    && voter !in st.proposals[id].votes && stake != 0
  }

  function Voted(p: Proposal, voter: nat, inFavor: bool, stake: u64): Proposal {
    p.(votes := p.votes[voter := inFavor],
       votesFor := if inFavor then Wrap(p.votesFor + stake) else p.votesFor,
       votesAgainst := if inFavor then p.votesAgainst else Wrap(p.votesAgainst + stake))
  }

  function WithVote(st: GovState, id: u64, voter: nat, inFavor: bool, stake: u64, height: u64): GovState {
    if !MayVote(st, id, voter, stake, height) then st
    else st.(proposals := st.proposals[id := Voted(st.proposals[id], voter, inFavor, stake)])
  }

  predicate MayFinalize(st: GovState, id: u64, height: u64) {
    id in st.proposals && st.proposals[id].status == Open && height >= st.proposals[id].votingEndsAt
  }

  /** Fewer than a tenth of the stake voted. A zero total makes the ratio infinite
      or undefined, and no comparison with an undefined ratio holds. */
  predicate MissesQuorum(votes: u64, total: u64) {
    total > 0 && 10 * votes < total
  }

  /** The rate of votes in favour reaches 0.667. */
  predicate MeetsApproval(votesFor: u64, votes: u64) {
    votes > 0 && 1000 * votesFor >= 667 * votes
  }

  function Finalized(cfg: GovConfig, p: Proposal, total: u64, height: u64): Proposal {
    var votes := Wrap(p.votesFor + p.votesAgainst);
    if !MissesQuorum(votes, total) && MeetsApproval(p.votesFor, votes)
    then p.(status := Approved, timelockEndsAt := Wrap(height + Days(cfg, TimelockDays(p.parameter))))
    else p.(status := Rejected)
  }

  function WithFinalized(cfg: GovConfig, st: GovState, id: u64, total: u64, height: u64): GovState {
    if !MayFinalize(st, id, height) then st
    else st.(proposals := st.proposals[id := Finalized(cfg, st.proposals[id], total, height)])
  }

  predicate MayExecute(cfg: GovConfig, st: GovState, id: u64, height: u64) {
    && id in st.proposals && st.proposals[id].status == Approved && height >= st.proposals[id].timelockEndsAt
    && cfg.validValue(st.proposals[id].parameter, st.proposals[id].newValue)
  }

  function WithExecuted(cfg: GovConfig, st: GovState, id: u64, height: u64): GovState {
    if !MayExecute(cfg, st, id, height) then st
    else st.(proposals := st.proposals[id := st.proposals[id].(status := Executed)])
  }

  // ---- Object ----

  class GovernanceModule {
    const config: GovConfig
    var proposals: map<u64, Proposal>
    var nextProposalId: u64

    ghost function Abs(): GovState
      reads this
    {
      GovState(proposals, nextProposalId)
    }

    constructor (config: GovConfig)
      ensures this.config == config && Abs() == GovState(map[], 1)
    {
      this.config := config;
      proposals, nextProposalId := map[], 1;
    }

    method BackingStake(backers: seq<nat>, stakes: map<nat, u64>) returns (backing: u64)
      ensures backing == Backing(backers, stakes)
    {
      backing := 0;
      var i := 0;
      while i < |backers|
        invariant 0 <= i <= |backers| && backing == Backing(backers[..i], stakes)
      {
        assert backers[..i + 1][..i] == backers[..i];
        if backers[i] in stakes {
          backing := Wrap(backing + stakes[backers[i]]);
        }
        i := i + 1;
      }
      assert backers[..i] == backers;
    }

    method SubmitProposal(parameter: ParameterType, value: seq<nat>, description: string, proposer: Address,
                          backers: seq<nat>, stakes: map<nat, u64>, total: u64, height: u64) returns (id: Option<u64>)
      modifies this
      ensures id == if MaySubmit(config, parameter, value, backers, stakes, total)
                    then Some(old(nextProposalId)) else None
      ensures Abs() == WithProposal(config, old(Abs()), parameter, value, description, proposer,
                                    backers, stakes, total, height)
    {
      if !config.validValue(parameter, value) {
        return None;
      }
      var backing := BackingStake(backers, stakes);
      if Wrap(backing as int * 1000) < total {
        return None;
      }
      var created := nextProposalId;
      nextProposalId := Wrap(nextProposalId + 1);
      var proposal := NewProposal(config, created, parameter, value, description, proposer, backing, height);
      proposals := proposals[created := proposal];
      return Some(created);
    }

    method Vote(id: u64, voter: nat, inFavor: bool, stake: u64, height: u64) returns (ok: bool)
      modifies this`proposals
      ensures ok == MayVote(old(Abs()), id, voter, stake, height)
      ensures Abs() == WithVote(old(Abs()), id, voter, inFavor, stake, height)
    {
      if id !in proposals {
        return false;
      }
      var p := proposals[id];
      if p.status != Open {
        return false;
      }
      if height >= p.votingEndsAt {
        return false;
      }
      if voter in p.votes {
        return false;
      }
      if stake == 0 {
        return false;
      }
      p := p.(votes := p.votes[voter := inFavor]);
      if inFavor {
        p := p.(votesFor := Wrap(p.votesFor + stake));
      } else {
        p := p.(votesAgainst := Wrap(p.votesAgainst + stake));
      }
      proposals := proposals[id := p];
      return true;
    }

    method FinalizeVoting(id: u64, total: u64, height: u64) returns (ok: bool)
      modifies this`proposals
      ensures ok == MayFinalize(old(Abs()), id, height)
      ensures Abs() == WithFinalized(config, old(Abs()), id, total, height)
    {
      if id !in proposals {
        return false;
      }
      var p := proposals[id];
      if p.status != Open {
        return false;
      }
      if height < p.votingEndsAt {
        return false;
      }
      var votes := Wrap(p.votesFor + p.votesAgainst);
      if MissesQuorum(votes, total) {
        proposals := proposals[id := p.(status := Rejected)];
        return true;
      }
      if MeetsApproval(p.votesFor, votes) {
        var timelock := Days(config, TimelockDays(p.parameter));
        proposals := proposals[id := p.(status := Approved, timelockEndsAt := Wrap(height + timelock))];
      } else {
        proposals := proposals[id := p.(status := Rejected)];
      }
      return true;
    }

    method ExecuteProposal(id: u64, height: u64) returns (ok: bool)
      modifies this`proposals
      ensures ok == MayExecute(config, old(Abs()), id, height)
      ensures Abs() == WithExecuted(config, old(Abs()), id, height)
    {
      if id !in proposals {
        return false;
      }
      var p := proposals[id];
      if p.status != Approved {
        return false;
      }
      if height < p.timelockEndsAt {
        return false;
      }
      if !config.validValue(p.parameter, p.newValue) {
        return false;
      }
      proposals := proposals[id := p.(status := Executed)];
      return true;
    }
  }
}
