/** Who is active after an epoch transition, and how permanent a tombstone is. */
module EpochSelection {
  import opened Types
  import opened StakeWeight
  import opened ValidatorRegistry
  import opened RegistryRuns

  /** May be active: not tombstoned, not jailed beyond this epoch, bonded enough. */
  predicate Eligible(cfg: Config, v: Validator, epoch: u64) {
    && v.status != Tombstoned
    && !(v.status == Jailed && v.jailedUntil > epoch)
    && v.stake >= cfg.minimumBond
  }

  ghost function Above(m: map<ValidatorId, Validator>, v: Validator): set<ValidatorId> {
    set id | id in m && (m[id].stake > v.stake || (m[id].stake == v.stake && m[id].id < v.id))
  }

  /** How many validators outrank this one, whatever their status. */
  ghost function Rank(m: map<ValidatorId, Validator>, v: Validator): nat {
    |Above(m, v)|
  }

  ghost function PrefixIds(vs: seq<Validator>, n: nat): set<ValidatorId>
    requires n <= |vs|
  {
    set i | 0 <= i < n :: vs[i].id
  }

  lemma {:induction false} PrefixIdsSize(vs: seq<Validator>, n: nat)
    requires DistinctIds(vs) && n <= |vs|
    ensures |PrefixIds(vs, n)| == n
  {
    if n == 0 {
      assert PrefixIds(vs, 0) == {};
    } else {
      PrefixIdsSize(vs, n - 1);
      assert PrefixIds(vs, n) == PrefixIds(vs, n - 1) + {vs[n - 1].id};
      assert vs[n - 1].id !in PrefixIds(vs, n - 1);
    }
  }

  /** The sort puts each validator at the position its rank says. */
  lemma PositionIsRank(m: map<ValidatorId, Validator>, ranked: seq<Validator>, i: nat)
    requires Lists(ranked, m) && Keyed(m) && i < |ranked|
    requires forall j, k :: 0 <= j < k < |ranked| ==> Outranks(ranked[j], ranked[k])
    ensures Rank(m, ranked[i]) == i
  {
    PrefixIdsSize(ranked, i);
    forall id ensures id in Above(m, ranked[i]) <==> id in PrefixIds(ranked, i) {
      if id in Above(m, ranked[i]) {
        assert m[id] in ranked;
        var j :| 0 <= j < |ranked| && ranked[j] == m[id];
        assert j < i;
      }
      if id in PrefixIds(ranked, i) {
        var j :| 0 <= j < i && ranked[j].id == id;
        assert ranked[j] in ranked;
      }
    }
    assert Above(m, ranked[i]) == PrefixIds(ranked, i);
  }

  lemma {:induction false} ActiveCountBound(vs: seq<Validator>, n: nat)
    requires forall i :: 0 <= i < |vs| && vs[i].status == Active ==> i < n
    ensures |ActiveOf(vs)| <= n
    ensures |ActiveOf(vs)| <= |vs|
  {
    if vs != [] {
      var init := vs[..|vs| - 1];
      ActiveCountBound(init, n);
      if vs[|vs| - 1].status == Active {
        assert |vs| - 1 < n;
      }
    }
  }

  lemma RankPosition(m: map<ValidatorId, Validator>, ranked: seq<Validator>, id: ValidatorId) returns (i: nat)
    requires Lists(ranked, m) && Keyed(m) && id in m
    requires forall j, k :: 0 <= j < k < |ranked| ==> Outranks(ranked[j], ranked[k])
    ensures i < |ranked| && ranked[i] == m[id] && Rank(m, m[id]) == i
  {
    assert m[id] in ranked;
    i :| 0 <= i < |ranked| && ranked[i] == m[id];
    PositionIsRank(m, ranked, i);
  }

  lemma OverlayPlacedAt(cfg: Config, m: map<ValidatorId, Validator>, ranked: seq<Validator>, epoch: u64, i: nat)
    requires DistinctIds(ranked) && i < |ranked|
    ensures var m' := Overlay(m, AllPlaced(cfg, ranked, epoch));
            ranked[i].id in m' && m'[ranked[i].id] == Placed(cfg, ranked[i], i, epoch)
  {
    var vs := AllPlaced(cfg, ranked, epoch);
    assert forall k :: 0 <= k < |vs| ==> vs[k].id == ranked[k].id;
    OverlayAt(m, vs);
    assert vs[i] == Placed(cfg, ranked[i], i, epoch);
  }

  lemma PlacedStatus(cfg: Config, v: Validator, i: nat, epoch: u64)
    ensures var v' := Placed(cfg, v, i, epoch);
            && v'.stake == v.stake
            && (v'.status == Active <==> Eligible(cfg, v, epoch) && i < cfg.activeCount)
            && (v'.status == Tombstoned <==> v.status == Tombstoned)
  {
  }

  ghost predicate SelectedFrom(cfg: Config, m: map<ValidatorId, Validator>, m': map<ValidatorId, Validator>,
                               epoch: u64, id: ValidatorId)
  {
    && id in m && id in m' && m'[id].stake == m[id].stake
    && (m'[id].status == Active <==> Eligible(cfg, m[id], epoch) && Rank(m, m[id]) < cfg.activeCount)
    && (m'[id].status == Tombstoned <==> m[id].status == Tombstoned)
  }

  /** The transition places each validator by its rank. */
  lemma EpochPlaces(cfg: Config, st: RegistryState, epoch: u64, blocks: u64, id: ValidatorId)
    requires Keyed(st.validators) && id in st.validators
    ensures var m := BeforeRanking(cfg, st, epoch, blocks).validators;
            var m' := WithEpoch(cfg, st, epoch, blocks).validators;
            && id in m && id in m' && m'[id] == Placed(cfg, m[id], Rank(m, m[id]), epoch)
  {
    var m := BeforeRanking(cfg, st, epoch, blocks).validators;
    RankingBaseKeyed(cfg, st, epoch, blocks);
    RankedLists(m);
    var i := RankPosition(m, Ranked(m), id);
    OverlayPlacedAt(cfg, m, Ranked(m), epoch, i);
  }

  /** The whole selection rule, in any registry keyed by id: a validator is active in
      the new epoch exactly when it is eligible and fewer than N validators outrank
      it. Tombstoned and jailed validators keep their place in the ranking. */
  lemma SelectionExact(cfg: Config, st: RegistryState, epoch: u64, blocks: u64, id: ValidatorId)
    requires Keyed(st.validators) && id in st.validators
    ensures SelectedFrom(cfg, BeforeRanking(cfg, st, epoch, blocks).validators,
                         WithEpoch(cfg, st, epoch, blocks).validators, epoch, id)
  {
    var m := BeforeRanking(cfg, st, epoch, blocks).validators;
    EpochPlaces(cfg, st, epoch, blocks, id);
    PlacedStatus(cfg, m[id], Rank(m, m[id]), epoch);
  }

  /** At most N validators are active. */
  lemma AtMostNActive(cfg: Config, st: RegistryState, epoch: u64, blocks: u64)
    ensures |ActiveOf(WithEpoch(cfg, st, epoch, blocks).currentSet.validators)| <= cfg.activeCount
  {
    var vs := AllPlaced(cfg, Ranked(BeforeRanking(cfg, st, epoch, blocks).validators), epoch);
    ActiveCountBound(vs, cfg.activeCount);
  }

  /** Every active validator outranks every eligible one that is not. */
  lemma ActiveOutrankEligible(cfg: Config, st: RegistryState, epoch: u64, blocks: u64, a: ValidatorId, b: ValidatorId)
    requires Keyed(st.validators) && a in st.validators && b in st.validators
    ensures var m := BeforeRanking(cfg, st, epoch, blocks).validators;
            var m' := WithEpoch(cfg, st, epoch, blocks).validators;
            && a in m && b in m && a in m' && b in m'
            && (m'[a].status == Active && m'[b].status != Active && Eligible(cfg, m[b], epoch) ==>
                  m[a].stake > m[b].stake || (m[a].stake == m[b].stake && a < b))
  {
    SelectionExact(cfg, st, epoch, blocks, a);
    SelectionExact(cfg, st, epoch, blocks, b);
    var m := BeforeRanking(cfg, st, epoch, blocks).validators;
    RankingBaseKeyed(cfg, st, epoch, blocks);
    if Rank(m, m[a]) < Rank(m, m[b]) {
      HigherRankOutranks(m, a, b);
    }
  }

  lemma HigherRankOutranks(m: map<ValidatorId, Validator>, a: ValidatorId, b: ValidatorId)
    requires Keyed(m) && a in m && b in m && Rank(m, m[a]) < Rank(m, m[b])
    ensures Outranks(m[a], m[b])
  {
    if !Outranks(m[a], m[b]) {
      assert Above(m, m[b]) <= Above(m, m[a]);
      SubsetSize(Above(m, m[b]), Above(m, m[a]));
    }
  }

  lemma {:induction false} SubsetSize(a: set<ValidatorId>, b: set<ValidatorId>)
    requires a <= b
    ensures |a| <= |b|
  {
    if x :| x in a {
      SubsetSize(a - {x}, b - {x});
    }
  }

  /** A first downtime violation found by the transition itself jails the validator
      until this very epoch, so the same transition releases it: it is active again
      exactly if its rank and bond allow. */
  lemma FirstJailIsLifted(cfg: Config, st: RegistryState, epoch: u64, blocks: u64, id: ValidatorId)
    requires Keyed(st.validators) && id in st.validators && id in IdsOf(ActiveOf(st.currentSet.validators))
    requires epoch > 1 && blocks != 0
    requires st.validators[id].downtimeEpochs == 0 && Violates(cfg, st.validators[id], blocks)
    ensures var m := BeforeRanking(cfg, st, epoch, blocks).validators;
            var m' := WithEpoch(cfg, st, epoch, blocks).validators;
            && id in m && id in m'
            && m[id].status == Jailed && m[id].jailedUntil == epoch && m[id].stake == st.validators[id].stake
            && m'[id].status == (if Rank(m, m[id]) < cfg.activeCount && st.validators[id].stake >= cfg.minimumBond
                                 then Active else Standby)
            && m'[id].jailedUntil == 0
  {
    EpochPlaces(cfg, st, epoch, blocks, id);
  }

  // ---- Tombstones ----

  /** A validator tombstoned in the registry is tombstoned in the snapshot too. */
  ghost predicate TombstonesAgree(st: RegistryState) {
    forall v :: v in st.currentSet.validators && v.id in st.validators && st.validators[v.id].status == Tombstoned
      ==> v.status == Tombstoned
  }

  /** The two steps that lift a tombstone: unbonding everything, and writing
      another status. */
  predicate Spares(cfg: Config, st: RegistryState, op: Op, id: ValidatorId) {
    && !(op.Unbond? && op.id == id && MayUnbond(cfg, st, id, op.amount) && st.validators[id].stake == op.amount)
    && !(op.Update? && op.id == id && op.status.Some? && op.status.value != Tombstoned)
  }

  lemma TombstonedNotActive(st: RegistryState, id: ValidatorId)
    requires Structured(st) && TombstonesAgree(st)
    requires id in st.validators && st.validators[id].status == Tombstoned
    ensures id !in IdsOf(ActiveOf(st.currentSet.validators))
  {
  }

  lemma DowntimeSparesTombstone(cfg: Config, st: RegistryState, epoch: u64, blocks: u64, id: ValidatorId)
    requires Structured(st) && TombstonesAgree(st) && id in st.validators
    ensures st.validators[id].status == Tombstoned
       <==> WithDowntime(cfg, st, epoch, blocks).validators[id].status == Tombstoned
  {
    if st.validators[id].status == Tombstoned {
      TombstonedNotActive(st, id);
    }
  }

  /** One step keeps a tombstone exactly when it is neither of those two. */
  lemma TombstoneStepExact(cfg: Config, st: RegistryState, op: Op, id: ValidatorId)
    requires Structured(st) && TombstonesAgree(st)
    requires id in st.validators && st.validators[id].status == Tombstoned
    ensures id in Apply(cfg, st, op).validators
    ensures Apply(cfg, st, op).validators[id].status == Tombstoned <==> Spares(cfg, st, op, id)
  {
    match op
    case Downtime(epoch, blocks) => DowntimeSparesTombstone(cfg, st, epoch, blocks, id);
    case Epoch(epoch, blocks) =>
      SelectionExact(cfg, st, epoch, blocks, id);
      if epoch > 1 { DowntimeSparesTombstone(cfg, st, epoch - 1, blocks, id); }
    case _ =>
  }

  lemma UpdateKeepsAgreement(cfg: Config, st: RegistryState, op: Op)
    requires Structured(st) && TombstonesAgree(st) && op.Update?
    ensures TombstonesAgree(Apply(cfg, st, op))
  {
    var st' := Apply(cfg, st, op);
    var vs, vs' := st.currentSet.validators, st'.currentSet.validators;
    var i := FirstIndex(vs, op.id);
    forall v | v in vs' && v.id in st'.validators && st'.validators[v.id].status == Tombstoned
      ensures v.status == Tombstoned
    {
      var k :| 0 <= k < |vs'| && vs'[k] == v;
      assert vs[k] in vs && vs'[k].id == vs[k].id;
      assert k != i && i < |vs| ==> vs[k].id != vs[i].id;
    }
  }

  lemma StakeChangeKeepsAgreement(st: RegistryState, st': RegistryState)
    requires Structured(st) && TombstonesAgree(st)
    requires |st'.currentSet.validators| == |st.currentSet.validators|
    requires forall k :: 0 <= k < |st.currentSet.validators| ==>
               && st'.currentSet.validators[k].id == st.currentSet.validators[k].id
               && st'.currentSet.validators[k].status == st.currentSet.validators[k].status
    requires forall id :: id in st'.validators && st'.validators[id].status == Tombstoned
               ==> id in st.validators && st.validators[id].status == Tombstoned
    ensures TombstonesAgree(st')
  {
    var vs, vs' := st.currentSet.validators, st'.currentSet.validators;
    forall v | v in vs' && v.id in st'.validators && st'.validators[v.id].status == Tombstoned
      ensures v.status == Tombstoned
    {
      var k :| 0 <= k < |vs'| && vs'[k] == v;
      assert vs[k] in vs;
    }
  }

  lemma ApplyKeepsAgreement(cfg: Config, st: RegistryState, op: Op)
    requires Structured(st) && TombstonesAgree(st)
    ensures TombstonesAgree(Apply(cfg, st, op))
  {
    match op
    case Update(_, _, _, _) => UpdateKeepsAgreement(cfg, st, op);
    case Epoch(epoch, blocks) => EpochSnapshot(cfg, st, epoch, blocks);
    case Downtime(epoch, blocks) =>
      forall id | id in st.validators
        ensures Apply(cfg, st, op).validators[id].status == Tombstoned ==> st.validators[id].status == Tombstoned
      {
        DowntimeSparesTombstone(cfg, st, epoch, blocks, id);
      }
      StakeChangeKeepsAgreement(st, Apply(cfg, st, op));
    case _ => StakeChangeKeepsAgreement(st, Apply(cfg, st, op));
  }

  function RunFrom(cfg: Config, st: RegistryState, ops: seq<Op>): RegistryState {
    if ops == [] then st else Apply(cfg, RunFrom(cfg, st, ops[..|ops| - 1]), ops[|ops| - 1])
  }

  /** Every step spares `id`, at the state it is taken in. */
  ghost predicate SparingRun(cfg: Config, st: RegistryState, ops: seq<Op>, id: ValidatorId) {
    ops == []
    || var before := RunFrom(cfg, st, ops[..|ops| - 1]);
       SparingRun(cfg, st, ops[..|ops| - 1], id) && Spares(cfg, before, ops[|ops| - 1], id)
  }

  /** A tombstone outlasts every run without those two steps, whatever else is bonded,
      slashed or written: the validator stays tombstoned and is never in the active
      set, through any number of epochs. */
  lemma {:induction false} TombstoneIsPermanent(cfg: Config, st: RegistryState, ops: seq<Op>, id: ValidatorId)
    requires Structured(st) && TombstonesAgree(st)
    requires id in st.validators && st.validators[id].status == Tombstoned
    requires SparingRun(cfg, st, ops, id)
    ensures var st' := RunFrom(cfg, st, ops);
            && Structured(st') && TombstonesAgree(st')
            && id in st'.validators && st'.validators[id].status == Tombstoned
            && id !in IdsOf(ActiveOf(st'.currentSet.validators))
  {
    if ops == [] {
      TombstonedNotActive(st, id);
    } else {
      var before := RunFrom(cfg, st, ops[..|ops| - 1]);
      var op := ops[|ops| - 1];
      TombstoneIsPermanent(cfg, st, ops[..|ops| - 1], id);
      StructureKept(cfg, before, op);
      ApplyKeepsAgreement(cfg, before, op);
      TombstoneStepExact(cfg, before, op, id);
      TombstonedNotActive(Apply(cfg, before, op), id);
    }
  }

  /** Registry and snapshot agree on tombstones in every run from the empty registry. */
  lemma {:induction false} RunAgrees(cfg: Config, ops: seq<Op>)
    ensures Structured(Run(cfg, ops)) && TombstonesAgree(Run(cfg, ops))
  {
    if ops != [] {
      RunAgrees(cfg, ops[..|ops| - 1]);
      StructureKept(cfg, Run(cfg, ops[..|ops| - 1]), ops[|ops| - 1]);
      ApplyKeepsAgreement(cfg, Run(cfg, ops[..|ops| - 1]), ops[|ops| - 1]);
    }
  }

  /** Unbonding everything does lift it: after bonding the minimum again the validator
      is active at the next transition exactly if its rank allows. */
  lemma TombstoneEscapes(cfg: Config, st: RegistryState, id: ValidatorId, amount: u64, height: u64)
    requires Keyed(st.validators) && id in st.validators && st.validators[id].status == Tombstoned
    requires amount >= cfg.minimumBond
    ensures var back := WithBond(WithUnbond(cfg, st, id, st.validators[id].stake, height), id, amount);
            && id in back.validators && id in WithEpoch(cfg, back, 1, 0).validators
            && (WithEpoch(cfg, back, 1, 0).validators[id].status == Active
                <==> Rank(back.validators, back.validators[id]) < cfg.activeCount)
  {
    var back := WithBond(WithUnbond(cfg, st, id, st.validators[id].stake, height), id, amount);
    FreshBond(cfg, st, id, amount, height);
    SelectionExact(cfg, back, 1, 0, id);
  }

  lemma FreshBond(cfg: Config, st: RegistryState, id: ValidatorId, amount: u64, height: u64)
    requires Keyed(st.validators) && id in st.validators
    ensures var back := WithBond(WithUnbond(cfg, st, id, st.validators[id].stake, height), id, amount);
            && Keyed(back.validators) && id in back.validators
            && back.validators[id].stake == amount && back.validators[id].status == Standby
  {
  }
}
