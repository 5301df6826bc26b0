/** How far the epoch's snapshot, which quorums count by, runs ahead of the registry:
    exactly by what each validator unbonded or lost to downtime since the last
    transition. */
module SnapshotStake {
  import opened Types
  import opened StakeWeight
  import opened ValidatorRegistry
  import opened RegistryRuns
  import opened StakingLedger

  /** What this step takes from the validator's registry stake and not from its
      snapshot stake. */
  function TakenApart(cfg: Config, st: RegistryState, op: Op, id: ValidatorId): nat {
    match op
    case Unbond(i, amount, _) => if i == id && MayUnbond(cfg, st, id, amount) then amount else 0
    case Downtime(epoch, blocks) =>
      if blocks != 0 && id in st.validators && id in IdsOf(ActiveOf(st.currentSet.validators))
      then PenaltyOf(cfg, st.validators[id], epoch, blocks) else 0
    case _ => 0
  }

  /** The sum of these since the last transition. */
  function SinceTransition(cfg: Config, ops: seq<Op>, id: ValidatorId): nat {
    if ops == [] || ops[|ops| - 1].Epoch? then 0
    else
      var before := ops[..|ops| - 1];
      SinceTransition(cfg, before, id) + TakenApart(cfg, Run(cfg, before), ops[|ops| - 1], id)
  }

  ghost predicate Ahead(st: RegistryState, id: ValidatorId, gap: nat) {
    forall v :: v in st.currentSet.validators && v.id == id ==>
      id in st.validators && v.stake == st.validators[id].stake + gap
  }

  /** A bond to this validator does not wrap its snapshot stake. */
  ghost predicate BondClear(st: RegistryState, op: Op, id: ValidatorId) {
    op.Bond? && op.id == id ==> forall v :: v in st.currentSet.validators && v.id == id ==> v.stake + op.amount < TWO_64
  }

  /** One snapshot entry and one registry entry change by the same amount. */
  lemma EntryMoves(st: RegistryState, st': RegistryState, changed: ValidatorId, id: ValidatorId, gap: nat)
    requires Structured(st) && Ahead(st, id, gap)
    requires changed in st.validators && changed in st'.validators
    requires st'.validators == st.validators[changed := st'.validators[changed]]
    requires var i := FirstIndex(st.currentSet.validators, changed);
             if i == |st.currentSet.validators| then st'.currentSet.validators == st.currentSet.validators
             else
               && |st'.currentSet.validators| == |st.currentSet.validators|
               && st'.currentSet.validators == st.currentSet.validators[i := st'.currentSet.validators[i]]
               && st'.currentSet.validators[i].id == changed
               && (changed == id ==> st'.currentSet.validators[i].stake - st.currentSet.validators[i].stake
                                     == st'.validators[id].stake - st.validators[id].stake)
    ensures Ahead(st', id, gap)
  {
    var vs, vs' := st.currentSet.validators, st'.currentSet.validators;
    var i := FirstIndex(vs, changed);
    forall v | v in vs' && v.id == id ensures id in st'.validators && v.stake == st'.validators[id].stake + gap {
      var k :| 0 <= k < |vs'| && vs'[k] == v;
      assert vs[k] in vs;
      assert k != i && i < |vs| ==> vs[k].id != vs[i].id;
    }
  }

  lemma BondAhead(st: RegistryState, changed: ValidatorId, amount: u64, id: ValidatorId, gap: nat)
    requires Structured(st) && Ahead(st, id, gap) && BondClear(st, Bond(changed, amount), id)
    ensures Ahead(WithBond(st, changed, amount), id, gap)
  {
    if changed in st.validators {
      var i := FirstIndex(st.currentSet.validators, changed);
      assert i < |st.currentSet.validators| ==> st.currentSet.validators[i] in st.currentSet.validators;
      EntryMoves(st, WithBond(st, changed, amount), changed, id, gap);
    }
  }

  lemma SlashAhead(st: RegistryState, changed: ValidatorId, amount: u64, id: ValidatorId, gap: nat)
    requires Structured(st) && Ahead(st, id, gap)
    ensures Ahead(WithSlash(st, changed, amount), id, gap)
  {
    if changed in st.validators {
      var i := FirstIndex(st.currentSet.validators, changed);
      assert i < |st.currentSet.validators| ==> st.currentSet.validators[i] in st.currentSet.validators;
      EntryMoves(st, WithSlash(st, changed, amount), changed, id, gap);
    }
  }

  lemma UpdateAhead(st: RegistryState, changed: ValidatorId, ck: Option<PublicKey>, wk: Option<PublicKey>,
                    status: Option<ValidatorStatus>, id: ValidatorId, gap: nat)
    requires Structured(st) && Ahead(st, id, gap)
    ensures Ahead(WithUpdate(st, changed, ck, wk, status), id, gap)
  {
    if changed in st.validators {
      EntryMoves(st, WithUpdate(st, changed, ck, wk, status), changed, id, gap);
    }
  }

  lemma DowntimeAhead(cfg: Config, st: RegistryState, epoch: u64, blocks: u64, id: ValidatorId, gap: nat)
    requires Structured(st) && Ahead(st, id, gap)
    ensures Ahead(WithDowntime(cfg, st, epoch, blocks), id, gap + TakenApart(cfg, st, Downtime(epoch, blocks), id))
  {
    if id in st.validators {
      PenaltyExact(cfg, st.validators[id], epoch, blocks);
    }
  }

  lemma StepAhead(cfg: Config, st: RegistryState, op: Op, id: ValidatorId, gap: nat)
    requires Structured(st) && Ahead(st, id, gap) && BondClear(st, op, id) && !op.Epoch?
    ensures Ahead(Apply(cfg, st, op), id, gap + TakenApart(cfg, st, op, id))
  {
    match op
    case Update(i, ck, wk, status) => UpdateAhead(st, i, ck, wk, status, id, gap);
    case Bond(i, amount) => BondAhead(st, i, amount, id, gap);
    case Slash(i, amount) => SlashAhead(st, i, amount, id, gap);
    case Downtime(epoch, blocks) => DowntimeAhead(cfg, st, epoch, blocks, id, gap);
    case _ =>
  }

  /** Every bond to this validator, when it is made, is clear. */
  ghost predicate BondsClear(cfg: Config, ops: seq<Op>, id: ValidatorId) {
    ops == []
    || (BondsClear(cfg, ops[..|ops| - 1], id) && BondClear(Run(cfg, ops[..|ops| - 1]), ops[|ops| - 1], id))
  }

  /** Over every run, with any status writes: the validator's snapshot stake is its
      registry stake plus what it unbonded and lost to downtime since the last
      transition. */
  lemma {:induction false} SnapshotStakeExact(cfg: Config, ops: seq<Op>, id: ValidatorId)
    requires BondsClear(cfg, ops, id)
    ensures Ahead(Run(cfg, ops), id, SinceTransition(cfg, ops, id))
  {
    if ops != [] {
      var before, op := ops[..|ops| - 1], ops[|ops| - 1];
      SnapshotStakeExact(cfg, before, id);
      RunStructured(cfg, before);
      if op.Epoch? {
        EpochSnapshot(cfg, Run(cfg, before), op.epoch, op.blocks);
      } else {
        StepAhead(cfg, Run(cfg, before), op, id, SinceTransition(cfg, before, id));
      }
    }
  }

  /** So one stake can be counted twice until the next transition: unbonding an amount
      and bonding it again leaves the registry stake where it was and raises an Active
      validator's snapshot stake, and the total that quorums are taken of, by it. */
  lemma RebondInflates(cfg: Config, st: RegistryState, id: ValidatorId, amount: u64, height: u64)
    requires RegistryInvariant(st) && MayUnbond(cfg, st, id, amount)
    requires var i := FirstIndex(st.currentSet.validators, id);
             && i < |st.currentSet.validators| && st.currentSet.validators[i].status == Active
             && st.currentSet.totalStake + amount < TWO_64
    ensures var i := FirstIndex(st.currentSet.validators, id);
            var st' := WithBond(WithUnbond(cfg, st, id, amount, height), id, amount);
            && RegistryInvariant(st')
            && st'.validators[id].stake == st.validators[id].stake
            && st'.currentSet.validators[i].stake == st.currentSet.validators[i].stake + amount
            && st'.currentSet.totalStake == st.currentSet.totalStake + amount
  {
    SaturationUnreachable(st, id);
    ActiveWithinTotal(st.currentSet, FirstIndex(st.currentSet.validators, id));
    RebondMoves(cfg, st, id, amount, height);
    RebondKeepsInvariant(cfg, st, id, amount, height);
  }

  lemma ActiveWithinTotal(s: ValidatorSet, i: nat)
    requires WellFormedSet(s) && i < |s.validators| && s.validators[i].status == Active
    ensures s.validators[i].stake <= s.totalStake
  {
    ActiveStakeUpdate(s.validators, i, s.validators[i]);
  }

  lemma RebondMoves(cfg: Config, st: RegistryState, id: ValidatorId, amount: u64, height: u64)
    requires MayUnbond(cfg, st, id, amount)
    requires var i := FirstIndex(st.currentSet.validators, id);
             && i < |st.currentSet.validators| && st.currentSet.validators[i].status == Active
             && st.currentSet.totalStake + amount < TWO_64 && st.currentSet.validators[i].stake + amount < TWO_64
    ensures var i := FirstIndex(st.currentSet.validators, id);
            var st' := WithBond(WithUnbond(cfg, st, id, amount, height), id, amount);
            && id in st'.validators && st'.validators[id].stake == st.validators[id].stake
            && |st'.currentSet.validators| == |st.currentSet.validators|
            && st'.currentSet.validators[i].stake == st.currentSet.validators[i].stake + amount
            && st'.currentSet.totalStake == st.currentSet.totalStake + amount
  {
  }

  lemma RebondKeepsInvariant(cfg: Config, st: RegistryState, id: ValidatorId, amount: u64, height: u64)
    requires RegistryInvariant(st) && MayUnbond(cfg, st, id, amount)
    requires BondFits(WithUnbond(cfg, st, id, amount, height), id, amount)
    ensures RegistryInvariant(WithBond(WithUnbond(cfg, st, id, amount, height), id, amount))
  {
    RegistryOnlyKeepsInvariant(st, WithUnbond(cfg, st, id, amount, height));
    BondKeepsInvariant(WithUnbond(cfg, st, id, amount, height), id, amount);
  }
}
