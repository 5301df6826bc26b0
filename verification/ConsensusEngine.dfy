/** The block store, vote handling and finalisation of one node. */
module Consensus {
  import opened Types
  import opened StakeWeight
  import opened VoteAggregation
  import opened QcVerification

  datatype Env = Env(hashOf: BlockHeader -> Hash, bls: Bls)

  datatype EngineState = EngineState(
    book: VoteBook,
    view: u64,
    highestQc: QuorumCertificate,
    finalizedHeight: u64,
    currentHeight: u64,
    blocks: map<Hash, Block>,
    heightIndex: map<u64, Hash>,
    finalized: map<Hash, bool>)

  const NO_QC := QuorumCertificate(0, 0, 0, 0, [], 0)

  const INITIAL := EngineState(map[], 0, NO_QC, 0, 0, map[], map[], map[])

  // ---- The operations on values ----

  function WithFinalized(env: Env, set_: ValidatorSet, st: EngineState, hash: Hash, qc: QuorumCertificate)
    : (r: EngineState)
    ensures r.book == st.book && r.blocks == st.blocks && r.heightIndex == st.heightIndex
    ensures r.highestQc == st.highestQc || (r.highestQc == qc && qc.height > st.highestQc.height)
    ensures st.finalized.Keys <= r.finalized.Keys
    ensures VerifyQc(env.bls, qc, set_) == Accept ==> hash in r.finalized
  {
    if VerifyQc(env.bls, qc, set_) != Accept then st
    else
      var st' := if qc.height > st.highestQc.height then st.(highestQc := qc, finalizedHeight := qc.height) else st;
      st'.(finalized := st'.finalized[hash := true])
  }

  function CertificateOnVote(env: Env, aggSet: ValidatorSet, st: EngineState, vote: Vote): Option<QuorumCertificate> {
    if !Counts(aggSet.validators, st.book, vote) then None
    else
      CertificateFor(aggSet, env.bls.aggregate, WithVote(aggSet.validators, st.book, vote),
                     BlockKey(vote.height, vote.hash), vote.view)
  }

  function AfterVote(env: Env, aggSet: ValidatorSet, set_: ValidatorSet, st: EngineState, vote: Vote): (r: EngineState)
    ensures r.book == WithVote(aggSet.validators, st.book, vote)
    ensures r.blocks == st.blocks && r.heightIndex == st.heightIndex
    ensures r.highestQc == st.highestQc || Some(r.highestQc) == CertificateOnVote(env, aggSet, st, vote)
    ensures st.finalized.Keys <= r.finalized.Keys
    ensures var qc := CertificateOnVote(env, aggSet, st, vote);
            qc.Some? && VerifyQc(env.bls, qc.value, set_) == Accept ==> vote.hash in r.finalized
  {
    var qc := CertificateOnVote(env, aggSet, st, vote);
    var st' := st.(book := WithVote(aggSet.validators, st.book, vote));
    if qc.Some? then WithFinalized(env, set_, st', vote.hash, qc.value) else st'
  }

  function SelectLeader(set_: ValidatorSet, view: u64): Option<ValidatorId> {
    var active := ActiveOf(set_.validators);
    if active == [] then None else Some(active[view % |active|].id)
  }

  predicate ExtendsHighestQc(st: EngineState, block: Block) {
    block.header.height == 0
    || (&& !(block.justify.height == 0 && st.highestQc.height > 0)
        && block.justify.height >= st.highestQc.height
        && block.header.height > block.justify.height)
  }

  predicate ExtendsParent(st: EngineState, header: BlockHeader) {
    header.height == 0
    || (&& header.previousHash in st.blocks
        && header.height == st.blocks[header.previousHash].header.height + 1
        && header.timestamp > st.blocks[header.previousHash].header.timestamp)
  }

  predicate FirstIsActive(vs: seq<Validator>, id: ValidatorId) {
    Find(vs, id).Some? && Find(vs, id).value.status == Active
  }

  predicate AcceptsBlock(env: Env, set_: ValidatorSet, st: EngineState, block: Block) {
    && ExtendsHighestQc(st, block)
    && SelectLeader(set_, st.view) == Some(block.header.proposer)
    && ExtendsParent(st, block.header)
    && FirstIsActive(set_.validators, block.header.proposer)
    && (block.header.height > 0 ==> VerifyQc(env.bls, block.justify, set_) == Accept)
  }

  function Stored(env: Env, st: EngineState, block: Block): EngineState {
    var h := env.hashOf(block.header);
    st.(blocks := st.blocks[h := block], heightIndex := st.heightIndex[block.header.height := h])
  }

  function AfterBlock(env: Env, set_: ValidatorSet, st: EngineState, block: Block): EngineState {
    if !AcceptsBlock(env, set_, st, block) then st
    else
      var st' := Stored(env, st, block);
      if block.header.height > st'.currentHeight then st'.(currentHeight := block.header.height) else st'
  }

  function WithGenesis(env: Env, st: EngineState, block: Block): EngineState {
    if block.header.height != 0 then st
    else
      var h := env.hashOf(block.header);
      Stored(env, st, block).(
        currentHeight := 0,
        finalizedHeight := 0,
        finalized := st.finalized[h := true],
        highestQc := QuorumCertificate(0, h, 0, 0, [], 0))
  }

  function GetBlockByHeight(st: EngineState, height: u64): Option<Block> {
    if height in st.heightIndex && st.heightIndex[height] in st.blocks
    then Some(st.blocks[st.heightIndex[height]])
    else None
  }

  // ---- The engine object ----

  class ConsensusEngine {
    const env: Env
    const aggregator: VoteAggregator
    var currentView: u64
    var highestQc: QuorumCertificate
    var finalizedHeight: u64
    var currentHeight: u64
    var blockStore: map<Hash, Block>
    var heightIndex: map<u64, Hash>
    var finalizedBlocks: map<Hash, bool>

    ghost predicate Valid()
      reads this
    {
      aggregator.aggregate == env.bls.aggregate
    }

    ghost function Abs(): EngineState
      reads this, aggregator
    {
      EngineState(aggregator.votesByBlock, currentView, highestQc, finalizedHeight, currentHeight,
                  blockStore, heightIndex, finalizedBlocks)
    }

    constructor (env: Env, set_: ValidatorSet)
      ensures Valid() && fresh(aggregator) && this.env == env
      ensures Abs() == INITIAL && aggregator.validatorSet == set_
    {
      this.env := env;
      aggregator := new VoteAggregator(set_, env.bls.aggregate);
      currentView, highestQc, finalizedHeight, currentHeight := 0, NO_QC, 0, 0;
      blockStore, heightIndex, finalizedBlocks := map[], map[], map[];
    }

    method VerifyQcNow(qc: QuorumCertificate, set_: ValidatorSet) returns (verdict: Verdict)
      ensures verdict == VerifyQc(env.bls, qc, set_)
    {
      if !CheckSupermajority(qc, set_) {
        return Reject;
      }
      var known := VerifySignersInSet(qc, set_.validators);
      if !known {
        return Reject;
      }
      verdict := VerifyAggregatedSignature(env.bls, qc, set_.validators);
    }

    method MarkFinalized(hash: Hash, qc: QuorumCertificate, set_: ValidatorSet)
      requires Valid()
      modifies this
      ensures Valid() && Abs() == WithFinalized(env, set_, old(Abs()), hash, qc)
    {
      var verdict := VerifyQcNow(qc, set_);
      if verdict != Accept {
        return;
      }
      if qc.height > highestQc.height {
        highestQc := qc;
        finalizedHeight := qc.height;
      }
      finalizedBlocks := finalizedBlocks[hash := true];
    }

    method OnReceiveVote(vote: Vote, set_: ValidatorSet) returns (qc: Option<QuorumCertificate>)
      requires Valid()
      modifies this, aggregator
      ensures Valid() && aggregator.validatorSet == old(aggregator.validatorSet)
      ensures qc == CertificateOnVote(env, old(aggregator.validatorSet), old(Abs()), vote)
      ensures Abs() == AfterVote(env, old(aggregator.validatorSet), set_, old(Abs()), vote)
    {
      var added := aggregator.AddVote(vote);
      if !added {
        return None;
      }
      qc := aggregator.AggregateVotes(vote.height, vote.hash, vote.view);
      if qc.Some? {
        MarkFinalized(vote.hash, qc.value, set_);
      }
    }

    method TriggerViewChange(set_: ValidatorSet) returns (ok: bool)
      requires Valid()
      modifies this`currentView
      ensures Valid() && Abs() == old(Abs()).(view := Wrap(old(currentView) + 1))
      ensures ok == SelectLeader(set_, currentView).Some?
    {
      currentView := Wrap(currentView + 1);
      var active := GetActiveValidators(set_.validators);
      return active != [];
    }

    method ExtendsHighest(block: Block) returns (ok: bool)
      ensures ok == ExtendsHighestQc(Abs(), block)
    {
      if block.header.height == 0 {
        return true;
      }
      if block.justify.height == 0 && highestQc.height > 0 {
        return false;
      }
      if block.justify.height < highestQc.height {
        return false;
      }
      return block.header.height > block.justify.height;
    }

    method IsCurrentLeader(proposer: ValidatorId, set_: ValidatorSet) returns (ok: bool)
      ensures ok == (SelectLeader(set_, currentView) == Some(proposer))
    {
      var active := GetActiveValidators(set_.validators);
      if active == [] {
        return false;
      }
      return active[currentView % |active|].id == proposer;
    }

    method FollowsParent(header: BlockHeader) returns (ok: bool)
      ensures ok == ExtendsParent(Abs(), header)
    {
      if header.height == 0 {
        return true;
      }
      if header.previousHash !in blockStore {
        return false;
      }
      var parent := blockStore[header.previousHash].header;
      return header.height == parent.height + 1 && header.timestamp > parent.timestamp;
    }

    method VerifyBlock(block: Block, set_: ValidatorSet) returns (ok: bool)
      ensures ok == AcceptsBlock(env, set_, Abs(), block)
    {
      ok := ExtendsHighest(block);
      if !ok { return; }
      ok := IsCurrentLeader(block.header.proposer, set_);
      if !ok { return; }
      ok := FollowsParent(block.header);
      if !ok { return; }
      var proposer := FindValidator(block.header.proposer, set_.validators);
      if proposer.None? || proposer.value.status != Active {
        return false;
      }
      if block.header.height > 0 {
        var verdict := VerifyQcNow(block.justify, set_);
        return verdict == Accept;
      }
      return true;
    }

    method StoreBlock(block: Block)
      requires Valid()
      modifies this`blockStore, this`heightIndex
      ensures Valid() && Abs() == Stored(env, old(Abs()), block)
    {
      var h := env.hashOf(block.header);
      blockStore := blockStore[h := block];
      heightIndex := heightIndex[block.header.height := h];
    }

    method OnReceiveBlock(block: Block, set_: ValidatorSet) returns (accepted: bool)
      requires Valid()
      modifies this`blockStore, this`heightIndex, this`currentHeight
      ensures Valid() && accepted == AcceptsBlock(env, set_, old(Abs()), block)
      ensures Abs() == AfterBlock(env, set_, old(Abs()), block)
    {
      accepted := VerifyBlock(block, set_);
      if !accepted {
        return;
      }
      StoreBlock(block);
      if block.header.height > currentHeight {
        currentHeight := block.header.height;
      }
    }

    /** False where the program throws: a genesis block must have height 0. */
    method SetGenesisBlock(block: Block) returns (ok: bool)
      requires Valid()
      modifies this
      ensures Valid() && ok == (block.header.height == 0)
      ensures Abs() == WithGenesis(env, old(Abs()), block)
    {
      if block.header.height != 0 {
        return false;
      }
      StoreBlock(block);
      currentHeight := 0;
      finalizedHeight := 0;
      var h := env.hashOf(block.header);
      finalizedBlocks := finalizedBlocks[h := true];
      highestQc := QuorumCertificate(0, h, 0, 0, [], 0);
      return true;
    }
  }
}
