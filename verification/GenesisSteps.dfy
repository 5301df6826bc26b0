/** What a builder has after any run of calls: which allocations it granted, whom the
    validator set seats, and the block it builds. */
module GenesisSteps {
  import opened Types
  import opened Places
  import opened Sorting
  import opened MerkleTree
  import opened Shares
  import opened StakeWeight
  import opened ValidatorRegistry
  import opened EpochSelection
  import opened Accounts
  import opened Execution
  import opened StateMachine
  import opened Genesis
  import opened GenesisHandover

  // ---- Allocations ----

  /** The entry a call asks for: vesting for the duration given, or over a year when the
      amount is above the threshold. */
  ghost function EntryOf(cfg: GenesisConfig, op: BuildOp): GenesisAllocation
    requires !op.CreateSet?
  {
    if op.AllocateVesting? then
      GenesisAllocation(op.address, op.amount, op.category,
                        Some(VestingSchedule(op.amount, 0, cfg.timestamp, op.duration)))
    else if op.amount > cfg.vestingThreshold then
      GenesisAllocation(op.address, op.amount, op.category,
                        Some(VestingSchedule(op.amount, 0, cfg.timestamp, 31536000)))
    else GenesisAllocation(op.address, op.amount, op.category, None)
  }

  /** An allocation is granted within the cap and within what is left of the supply. */
  ghost function NextGranted(cfg: GenesisConfig, granted: seq<GenesisAllocation>, op: BuildOp): seq<GenesisAllocation> {
    if !op.CreateSet? && op.amount <= cfg.cap && AllocatedSum(granted) + op.amount <= cfg.totalSupply
    then granted + [EntryOf(cfg, op)] else granted
  }

  ghost function Granted(cfg: GenesisConfig, ops: seq<BuildOp>): seq<GenesisAllocation> {
    if ops == [] then [] else NextGranted(cfg, Granted(cfg, ops[..|ops| - 1]), ops[|ops| - 1])
  }

  lemma GrantStep(cfg: GenesisConfig, st: BuilderState, op: BuildOp)
    requires cfg.totalSupply + cfg.cap < TWO_64
    requires st.totalAllocated == AllocatedSum(st.allocations) <= cfg.totalSupply
    ensures Perform(cfg, st, op).allocations == NextGranted(cfg, st.allocations, op)
  {
  }

  lemma GrantNext(cfg: GenesisConfig, ops: seq<BuildOp>, op: BuildOp)
    requires cfg.totalSupply + cfg.cap < TWO_64 && Construct(cfg, ops).allocations == Granted(cfg, ops)
    ensures Construct(cfg, ops + [op]).allocations == Granted(cfg, ops + [op])
  {
    assert (ops + [op])[..|ops|] == ops;
    ConstructedIsValid(cfg, ops);
    GrantStep(cfg, Construct(cfg, ops), op);
  }

  /** After any run, the allocations are exactly those granted, in order: each within the
      cap and, with those before it, within the supply. */
  lemma AllocationsExact(cfg: GenesisConfig, ops: seq<BuildOp>)
    requires cfg.totalSupply + cfg.cap < TWO_64
    ensures Construct(cfg, ops).allocations == Granted(cfg, ops)
  {
    var holds := (s: seq<BuildOp>) => Construct(cfg, s).allocations == Granted(cfg, s);
    forall init, op | holds(init) ensures holds(init + [op]) {
      GrantNext(cfg, init, op);
    }
    ByAppending(holds, ops);
  }

  // ---- The validator set ----

  /** The validators before this one: more stake, or as much and a smaller id. */
  ghost function Before(vs: seq<Validator>, v: Validator): set<ValidatorId> {
    set w | w in vs && (w.stake > v.stake || (w.stake == v.stake && w.id < v.id)) :: w.id
  }

  lemma PlaceOf(vs: seq<Validator>, ranked: seq<Validator>, i: nat)
    requires DistinctIds(ranked) && multiset(ranked) == multiset(vs) && InRankOrder(ranked) && i < |ranked|
    ensures |Before(vs, ranked[i])| == i
  {
    PrefixIdsSize(ranked, i);
    forall id ensures id in Before(vs, ranked[i]) <==> id in PrefixIds(ranked, i) {
      if id in Before(vs, ranked[i]) {
        var v := ranked[i];
        var w :| w in vs && w.id == id && (w.stake > v.stake || (w.stake == v.stake && w.id < v.id));
        assert w in multiset(ranked);
        var j :| 0 <= j < |ranked| && ranked[j] == w;
        assert j < i;
      }
      if id in PrefixIds(ranked, i) {
        var j :| 0 <= j < i && ranked[j].id == id;
        assert ranked[j] in multiset(vs);
      }
    }
    assert Before(vs, ranked[i]) == PrefixIds(ranked, i);
  }

  /** Seated at genesis: Active within the first N, with every counter cleared. */
  ghost function SeatOf(cfg: GenesisConfig, v: Validator, place: nat): Validator {
    v.(status := if place < cfg.validatorSetSize then Active else Standby,
       jailedUntil := 0, downtimeEpochs := 0, signed := 0, missed := 0)
  }

  /** The set seats every given validator at its place by rank, under the initial epoch
      and with the Merkle root of its entries. */
  ghost predicate Seats(cfg: GenesisConfig, vs: seq<Validator>, s: ValidatorSet) {
    && |s.validators| == |vs| && s.epoch == cfg.initialEpoch
    && (forall v :: v in vs ==>
          |Before(vs, v)| < |vs| && s.validators[|Before(vs, v)|] == SeatOf(cfg, v, |Before(vs, v)|))
    && s.merkleRoot == Root(cfg.hashPair, HashesOf(cfg.hashOf, s.validators))
  }

  /** Every validator is in the ranked list at its place. */
  ghost predicate AtPlaces(vs: seq<Validator>, ranked: seq<Validator>) {
    && |ranked| == |vs|
    && (forall i :: 0 <= i < |ranked| ==> ranked[i] in vs && |Before(vs, ranked[i])| == i)
    && (forall v :: v in vs ==> |Before(vs, v)| < |ranked| && ranked[|Before(vs, v)|] == v)
  }

  lemma RankedAtPlaces(vs: seq<Validator>)
    requires DistinctIds(vs)
    ensures AtPlaces(vs, Sort(Outranks, vs))
  {
    var ranked := Sort(Outranks, vs);
    RankedDistinct(vs);
    RankedInOrder(vs);
    forall i | 0 <= i < |ranked| ensures |Before(vs, ranked[i])| == i && ranked[i] in vs {
      PlaceOf(vs, ranked, i);
      assert ranked[i] in multiset(vs);
    }
    forall v | v in vs ensures |Before(vs, v)| < |ranked| && ranked[|Before(vs, v)|] == v {
      assert v in multiset(ranked);
      var i :| 0 <= i < |ranked| && ranked[i] == v;
    }
  }

  ghost predicate TopBonded(cfg: GenesisConfig, vs: seq<Validator>) {
    forall v :: v in vs && |Before(vs, v)| < cfg.validatorSetSize ==> v.stake >= cfg.minimumSelfBond
  }

  lemma EnoughIsTopBonded(cfg: GenesisConfig, vs: seq<Validator>, ranked: seq<Validator>)
    requires AtPlaces(vs, ranked)
    ensures EnoughStake(cfg, ranked) <==> TopBonded(cfg, vs)
  {
    if TopBonded(cfg, vs) {
      forall i | 0 <= i < |ranked| && i < cfg.validatorSetSize ensures ranked[i].stake >= cfg.minimumSelfBond {
        assert ranked[i] in vs;
      }
    }
  }

  lemma SeatedAtPlaces(cfg: GenesisConfig, vs: seq<Validator>, ranked: seq<Validator>, v: Validator)
    requires AtPlaces(vs, ranked) && v in vs
    ensures |Before(vs, v)| < |vs| && AllSeated(cfg, ranked)[|Before(vs, v)|] == SeatOf(cfg, v, |Before(vs, v)|)
  {
  }

  /** The set exists exactly if there are validators and those with a place among the
      first N have bonded the minimum; and then it seats them. */
  lemma GenesisSetExact(cfg: GenesisConfig, vs: seq<Validator>)
    requires DistinctIds(vs)
    ensures GenesisSet(cfg, vs).Some? <==> vs != [] && TopBonded(cfg, vs)
    ensures GenesisSet(cfg, vs).Some? ==> Seats(cfg, vs, GenesisSet(cfg, vs).value)
  {
    var ranked := Sort(Outranks, vs);
    RankedAtPlaces(vs);
    EnoughIsTopBonded(cfg, vs, ranked);
    forall v | v in vs
      ensures |Before(vs, v)| < |vs| && AllSeated(cfg, ranked)[|Before(vs, v)|] == SeatOf(cfg, v, |Before(vs, v)|)
    {
      SeatedAtPlaces(cfg, vs, ranked, v);
    }
  }

  // ---- The block and vesting ----

  /** What is built after any run that created a set: a block of height 0 for the
      configured time and epoch that carries the set's root and nothing else. */
  lemma BuiltExact(cfg: GenesisConfig, ops: seq<BuildOp>)
    requires cfg.totalSupply + cfg.cap < TWO_64
    ensures var st := Construct(cfg, ops);
            && (Built(cfg, st).Some? <==> st.initialized)
            && (st.initialized ==>
                  var b := Built(cfg, st).value;
                  && b.header.height == 0 && b.header.timestamp == cfg.timestamp && b.header.epoch == cfg.initialEpoch
                  && b.header.validatorSetRoot == st.validatorSet.merkleRoot
                  && b.header.previousHash == 0 && b.header.proposer == 0 && b.header.transactionsRoot == 0
                  && b.transactions == [] && b.justify == QuorumCertificate(0, 0, 0, 0, [], 0))
  {
    ConstructedIsValid(cfg, ops);
  }

  /** What the state machine does with a genesis block, whatever allocations come with it.
      A block of another height or epoch changes nothing. Otherwise everything before it is
      forgotten; if the root of the new accounts is the block's, they are kept, each
      address with the amount of its last allocation and nonce 0, and the root is recorded
      for height 0; if not, nothing is left. */
  lemma StartExact(chain: ChainConfig, c: ChainState, block: Block, allocations: seq<GenesisAllocation>, a: Address)
    ensures var c' := AfterGenesis(chain, c, block, allocations);
            if block.header.height != 0 || block.header.epoch != 0 then c' == c
            else
              && c'.receipts == map[] && c'.height == 0 && c'.ledger.burned == 0 && c'.ledger.priorityFees == 0
              && if StateRoot(chain, GenesisAccounts(allocations)) == block.header.stateRoot
                 then
                   && GotFrom(allocations, a, BalanceIn(c'.ledger.accounts, a)) && NonceIn(c'.ledger.accounts, a) == 0
                   && c'.snapshots == map[0 := block.header.stateRoot]
                 else c'.ledger.accounts == map[] && c'.snapshots == map[]
  {
    BalanceSource(allocations, a);
    FreshNonces(allocations, a);
  }

  lemma {:induction false} FreshNonces(allocations: seq<GenesisAllocation>, a: Address)
    ensures NonceIn(GenesisAccounts(allocations), a) == 0
  {
    if allocations != [] {
      FreshNonces(allocations[..|allocations| - 1], a);
    }
  }

  /** Nothing before the start, then linearly, rounded down, and everything at the end. */
  lemma VestingExact(s: VestingSchedule, t: u64)
    ensures VestedAmount(s, t)
         == if t < s.start then 0
            else if t < s.start + s.duration then (t - s.start) * s.total / s.duration
            else s.total
  {
    if s.start <= t < s.start + s.duration {
      FloorIsQuotient(t - s.start, s.duration, s.total);
    }
  }
}
