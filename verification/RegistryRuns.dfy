/** Runs of the validator registry: the cached total stays the exact sum of Active
    stakes, and the snapshot never holds less than the registry. */
module RegistryRuns {
  import opened Types
  import opened StakeWeight
  import opened Sorting
  import opened KeyOrder
  import opened MerkleTree
  import opened ValidatorRegistry

  // ---- The invariant ----

  ghost predicate Keyed(m: map<ValidatorId, Validator>) {
    forall id :: id in m ==> m[id].id == id
  }

  /** The structural half: every validator under its own id, one snapshot entry per
      validator. Every step keeps it, whatever its arguments (StructureKept). */
  ghost predicate Structured(st: RegistryState) {
    Keyed(st.validators) && DistinctIds(st.currentSet.validators)
  }

  /** The structure together with the accounting half: the cached total is exact and
      the snapshot holds no less than the registry. */
  ghost predicate RegistryInvariant(st: RegistryState) {
    && Keyed(st.validators)
    && WellFormedSet(st.currentSet)
    && Dominates(st.currentSet.validators, st.validators)
  }

  function Share(v: Validator): nat {
    if v.status == Active then v.stake else 0
  }

  lemma {:induction false} ActiveStakeUpdate(vs: seq<Validator>, i: nat, v: Validator)
    requires i < |vs|
    ensures ActiveStake(vs[i := v]) == ActiveStake(vs) - Share(vs[i]) + Share(v)
    ensures Share(vs[i]) <= ActiveStake(vs)
  {
    var init := vs[..|vs| - 1];
    if i < |vs| - 1 {
      ActiveStakeUpdate(init, i, v);
      assert vs[i := v][..|vs| - 1] == init[i := v];
    } else {
      assert vs[i := v][..|vs| - 1] == init;
    }
  }

  /** The saturating branches of slashing and tombstoning are dead code: what is
      subtracted never exceeds what is there. */
  lemma SaturationUnreachable(st: RegistryState, id: ValidatorId)
    requires RegistryInvariant(st) && id in st.validators
    ensures var s := st.currentSet;
            var i := FirstIndex(s.validators, id);
            i < |s.validators| ==>
              && s.validators[i].stake >= st.validators[id].stake
              && (s.validators[i].status == Active ==> s.totalStake >= s.validators[i].stake)
  {
    var i := FirstIndex(st.currentSet.validators, id);
    if i < |st.currentSet.validators| {
      assert st.currentSet.validators[i] in st.currentSet.validators;
      ActiveStakeUpdate(st.currentSet.validators, i, st.currentSet.validators[i]);
    }
  }

  ghost predicate Dominates(vs: seq<Validator>, m: map<ValidatorId, Validator>) {
    forall v :: v in vs ==> v.id in m && v.stake >= m[v.id].stake
  }

  lemma EntryChangeKeepsDomination(vs: seq<Validator>, i: nat, v: Validator,
                                   m: map<ValidatorId, Validator>, w: Validator)
    requires DistinctIds(vs) && Dominates(vs, m)
    requires i < |vs| && v.id == w.id == vs[i].id && v.stake >= w.stake
    ensures Dominates(vs[i := v], m[w.id := w]) && DistinctIds(vs[i := v])
  {
    var vs' := vs[i := v];
    forall x | x in vs' ensures x.id in m[w.id := w] && x.stake >= m[w.id := w][x.id].stake {
      var k :| 0 <= k < |vs'| && vs'[k] == x;
      if k != i {
        assert vs[k] in vs && vs[k].id != vs[i].id;
      }
    }
  }

  /** A change of one snapshot entry and one registry entry of the same id that
      keeps the total exact and the snapshot above keeps the invariant. */
  lemma EntryChangeKeepsInvariant(st: RegistryState, st': RegistryState, id: ValidatorId)
    requires RegistryInvariant(st) && id in st.validators && id in st'.validators
    requires st'.validators == st.validators[id := st'.validators[id]] && st'.validators[id].id == id
    requires var i := FirstIndex(st.currentSet.validators, id);
             if i == |st.currentSet.validators| then st'.currentSet == st.currentSet
             else
               && |st'.currentSet.validators| == |st.currentSet.validators|
               && st'.currentSet.validators == st.currentSet.validators[i := st'.currentSet.validators[i]]
               && st'.currentSet.validators[i].id == id
               && st'.currentSet.validators[i].stake >= st'.validators[id].stake
               && st'.currentSet.totalStake
                  == st.currentSet.totalStake - Share(st.currentSet.validators[i]) + Share(st'.currentSet.validators[i])
    ensures RegistryInvariant(st')
  {
    var vs, vs' := st.currentSet.validators, st'.currentSet.validators;
    var i := FirstIndex(vs, id);
    if i < |vs| {
      ActiveStakeUpdate(vs, i, vs'[i]);
      EntryChangeKeepsDomination(vs, i, vs'[i], st.validators, st'.validators[id]);
    } else {
      assert forall k :: 0 <= k < |vs| ==> vs[k].id != id;
    }
  }

  // ---- One lemma per mutator ----

  ghost predicate BondFits(st: RegistryState, id: ValidatorId, amount: u64) {
    id in st.validators ==>
      && st.validators[id].stake + amount < TWO_64
      && var i := FirstIndex(st.currentSet.validators, id);
         i < |st.currentSet.validators| ==>
           && st.currentSet.validators[i].stake + amount < TWO_64
           && st.currentSet.totalStake + amount < TWO_64
  }

  lemma BondKeepsInvariant(st: RegistryState, id: ValidatorId, amount: u64)
    requires RegistryInvariant(st) && BondFits(st, id, amount)
    ensures RegistryInvariant(WithBond(st, id, amount))
  {
    if id in st.validators {
      SaturationUnreachable(st, id);
      EntryChangeKeepsInvariant(st, WithBond(st, id, amount), id);
    }
  }

  lemma SlashKeepsInvariant(st: RegistryState, id: ValidatorId, amount: u64)
    requires RegistryInvariant(st)
    ensures RegistryInvariant(WithSlash(st, id, amount))
  {
    if id in st.validators {
      SaturationUnreachable(st, id);
      EntryChangeKeepsInvariant(st, WithSlash(st, id, amount), id);
    }
  }

  /** Which status writes leave the cached total right: the only one the code
      compensates for is Active to Tombstoned. */
  predicate StatusKeepsTotal(st: RegistryState, id: ValidatorId, status: Option<ValidatorStatus>) {
    var i := FirstIndex(st.currentSet.validators, id);
    status.None? || i == |st.currentSet.validators|
    || st.currentSet.validators[i].stake == 0
    || (if st.currentSet.validators[i].status == Active
        then status.value == Active || status.value == Tombstoned
        else status.value != Active)
  }

  lemma UpdateKeepsInvariantExactly(st: RegistryState, id: ValidatorId,
                                    ck: Option<PublicKey>, wk: Option<PublicKey>, status: Option<ValidatorStatus>)
    requires RegistryInvariant(st) && id in st.validators
    ensures RegistryInvariant(WithUpdate(st, id, ck, wk, status)) <==> StatusKeepsTotal(st, id, status)
  {
    SaturationUnreachable(st, id);
    var st' := WithUpdate(st, id, ck, wk, status);
    var i := FirstIndex(st.currentSet.validators, id);
    if StatusKeepsTotal(st, id, status) {
      EntryChangeKeepsInvariant(st, st', id);
    } else {
      ActiveStakeUpdate(st.currentSet.validators, i, st'.currentSet.validators[i]);
    }
  }

  lemma RegistryOnlyKeepsInvariant(st: RegistryState, st': RegistryState)
    requires RegistryInvariant(st) && st'.currentSet == st.currentSet
    requires Keyed(st'.validators) && st.validators.Keys <= st'.validators.Keys
    requires forall id :: id in st.validators ==> st'.validators[id].stake <= st.validators[id].stake
    ensures RegistryInvariant(st')
  {
  }

  lemma PenaltyLowersStake(cfg: Config, v: Validator, epoch: u64, blocks: u64)
    ensures Penalised(cfg, v, epoch, blocks).id == v.id
    ensures Penalised(cfg, v, epoch, blocks).stake <= v.stake
  {
    assert v.stake * 5 < TWO_64 ==> Wrap(v.stake * 5) / 1000 <= v.stake;
  }

  lemma DowntimeKeepsKeys(cfg: Config, st: RegistryState, epoch: u64, blocks: u64)
    requires Keyed(st.validators)
    ensures Keyed(WithDowntime(cfg, st, epoch, blocks).validators)
    ensures WithDowntime(cfg, st, epoch, blocks).validators.Keys == st.validators.Keys
  {
    var m' := WithDowntime(cfg, st, epoch, blocks).validators;
    forall id | id in st.validators ensures m'[id].id == id {
      PenaltyLowersStake(cfg, st.validators[id], epoch, blocks);
    }
  }

  lemma RankingBaseKeyed(cfg: Config, st: RegistryState, epoch: u64, blocks: u64)
    requires Keyed(st.validators)
    ensures Keyed(BeforeRanking(cfg, st, epoch, blocks).validators)
    ensures BeforeRanking(cfg, st, epoch, blocks).validators.Keys == st.validators.Keys
  {
    if epoch > 1 {
      DowntimeKeepsKeys(cfg, st, epoch - 1, blocks);
    }
  }

  lemma DowntimeKeepsInvariant(cfg: Config, st: RegistryState, epoch: u64, blocks: u64)
    requires RegistryInvariant(st)
    ensures RegistryInvariant(WithDowntime(cfg, st, epoch, blocks))
    ensures WithDowntime(cfg, st, epoch, blocks).validators.Keys == st.validators.Keys
  {
    var st' := WithDowntime(cfg, st, epoch, blocks);
    forall id | id in st.validators
      ensures st'.validators[id].id == id && st'.validators[id].stake <= st.validators[id].stake
    {
      PenaltyLowersStake(cfg, st.validators[id], epoch, blocks);
    }
    RegistryOnlyKeepsInvariant(st, st');
  }

  // ---- The epoch transition ----

  lemma OutranksIsOrder()
    ensures Transitive(Outranks)
  {
  }

  lemma ValuesMembers(m: map<ValidatorId, Validator>, ids: seq<ValidatorId>)
    requires Keyed(m) && NoDuplicates(ids) && forall id :: id in ids <==> id in m
    requires forall i :: 0 <= i < |ids| ==> ids[i] in m
    ensures NoDuplicates(Values(m, ids)) && forall v :: v in Values(m, ids) <==> v.id in m && m[v.id] == v
  {
    var vs := Values(m, ids);
    forall i, j | 0 <= i < j < |vs| ensures vs[i] != vs[j] {
      assert vs[i].id == ids[i] && vs[j].id == ids[j];
    }
    forall v: Validator | v.id in m && m[v.id] == v ensures v in vs {
      var k :| 0 <= k < |ids| && ids[k] == v.id;
      assert vs[k] == v;
    }
  }

  lemma RankedMembers(m: map<ValidatorId, Validator>)
    requires Keyed(m)
    ensures NoDuplicates(Ranked(m))
    ensures forall v :: v in Ranked(m) <==> v.id in m && m[v.id] == v
  {
    AscendingIsOrder(m.Keys);
    var vs := Values(m, Ascending(m.Keys));
    ValuesMembers(m, Ascending(m.Keys));
    PermutationKeepsDistinct(vs, Ranked(m));
    assert forall v :: v in Ranked(m) <==> v in multiset(Ranked(m));
    assert forall v :: v in vs <==> v in multiset(vs);
  }

  /** `vs` lists every validator of `m` once, as `m` holds it. */
  ghost predicate Lists(vs: seq<Validator>, m: map<ValidatorId, Validator>) {
    DistinctIds(vs) && forall v :: v in vs <==> v.id in m && m[v.id] == v
  }

  /** Ranking lists every validator once, each as the registry holds it, and in
      strictly falling rank. */
  lemma RankedLists(m: map<ValidatorId, Validator>)
    requires Keyed(m)
    ensures Lists(Ranked(m), m)
    ensures forall i, j :: 0 <= i < j < |Ranked(m)| ==>
              var a, b := Ranked(m)[i], Ranked(m)[j]; a.stake > b.stake || (a.stake == b.stake && a.id < b.id)
  {
    var r := Ranked(m);
    RankedMembers(m);
    OutranksIsOrder();
    SortSorted(Outranks, Values(m, Ascending(m.Keys)));
    forall i, j | 0 <= i < j < |r| ensures r[i].id != r[j].id && Outranks(r[i], r[j]) {
      assert r[i] in r && r[j] in r;
      assert r[i] != r[j] && !Outranks(r[j], r[i]);
    }
  }

  lemma {:induction false} OverlayAt(m: map<ValidatorId, Validator>, vs: seq<Validator>)
    requires DistinctIds(vs)
    ensures forall i :: 0 <= i < |vs| ==> vs[i].id in Overlay(m, vs) && Overlay(m, vs)[vs[i].id] == vs[i]
    ensures forall id :: id in Overlay(m, vs) <==> id in m || exists i :: 0 <= i < |vs| && vs[i].id == id
  {
    if vs != [] {
      var init := vs[..|vs| - 1];
      OverlayAt(m, init);
      assert forall i :: 0 <= i < |init| ==> init[i] == vs[i];
    }
  }

  lemma {:induction false} WrappedIsActiveStake(vs: seq<Validator>)
    requires ActiveStake(vs) < TWO_64
    ensures WrappedActiveStake(vs) == ActiveStake(vs)
  {
    if vs != [] {
      WrappedIsActiveStake(vs[..|vs| - 1]);
    }
  }

  /** The sum of the new Active stakes fits in 64 bits. */
  ghost predicate EpochFits(cfg: Config, st: RegistryState, epoch: u64, blocks: u64) {
    ActiveStake(WithEpoch(cfg, st, epoch, blocks).currentSet.validators) < TWO_64
  }

  ghost predicate Covers(vs: seq<Validator>, m: map<ValidatorId, Validator>) {
    && DistinctIds(vs)
    && (forall i :: 0 <= i < |vs| ==> vs[i].id in m)
    && (forall id :: id in m ==> exists i :: 0 <= i < |vs| && vs[i].id == id)
  }

  lemma OverlayExact(m: map<ValidatorId, Validator>, vs: seq<Validator>)
    requires Covers(vs, m)
    ensures var m' := Overlay(m, vs);
            && m'.Keys == m.Keys
            && (forall v :: v in vs ==> v.id in m' && m'[v.id] == v)
            && (forall id :: id in m' ==> m'[id] in vs && m'[id].id == id)
  {
    OverlayAt(m, vs);
    var m' := Overlay(m, vs);
    forall id | id in m' ensures m'[id] in vs && m'[id].id == id {
      var i :| 0 <= i < |vs| && vs[i].id == id;
    }
  }

  lemma PlacedCovers(cfg: Config, m: map<ValidatorId, Validator>, ranked: seq<Validator>, epoch: u64)
    requires Lists(ranked, m) && Keyed(m)
    ensures Covers(AllPlaced(cfg, ranked, epoch), m)
  {
    var vs := AllPlaced(cfg, ranked, epoch);
    forall i | 0 <= i < |vs| ensures vs[i].id == ranked[i].id && vs[i].id in m {
      assert ranked[i] in ranked;
    }
    forall id | id in m ensures exists i :: 0 <= i < |vs| && vs[i].id == id {
      assert m[id] in ranked;
      var i :| 0 <= i < |ranked| && ranked[i] == m[id];
      assert vs[i].id == id;
    }
  }

  /** After the transition the snapshot is the registry, in rank order, under the new
      epoch and with the Merkle root of its entries. */
  lemma EpochSnapshot(cfg: Config, st: RegistryState, epoch: u64, blocks: u64)
    requires Keyed(st.validators)
    ensures var st' := WithEpoch(cfg, st, epoch, blocks);
            && Keyed(st'.validators) && DistinctIds(st'.currentSet.validators)
            && st'.validators.Keys == st.validators.Keys
            && (forall v :: v in st'.currentSet.validators ==> v.id in st'.validators && st'.validators[v.id] == v)
            && (forall id :: id in st'.validators ==> st'.validators[id] in st'.currentSet.validators)
            && st'.currentSet.epoch == epoch && st'.unbonding == st.unbonding
            && st'.currentSet.merkleRoot == Root(cfg.hashPair, HashesOf(cfg.hashOf, st'.currentSet.validators))
  {
    RankingBaseKeyed(cfg, st, epoch, blocks);
    var m := BeforeRanking(cfg, st, epoch, blocks).validators;
    RankedLists(m);
    PlacedCovers(cfg, m, Ranked(m), epoch);
    OverlayExact(m, AllPlaced(cfg, Ranked(m), epoch));
  }

  lemma EpochKeepsInvariant(cfg: Config, st: RegistryState, epoch: u64, blocks: u64)
    requires RegistryInvariant(st) && EpochFits(cfg, st, epoch, blocks)
    ensures RegistryInvariant(WithEpoch(cfg, st, epoch, blocks))
  {
    EpochSnapshot(cfg, st, epoch, blocks);
    WrappedIsActiveStake(WithEpoch(cfg, st, epoch, blocks).currentSet.validators);
  }

  // ---- Whole runs ----

  datatype Op =
    | Add(id: ValidatorId, ck: PublicKey, wk: PublicKey, stake: u64)
    | Update(id: ValidatorId, newCk: Option<PublicKey>, newWk: Option<PublicKey>, status: Option<ValidatorStatus>)
    | Bond(id: ValidatorId, amount: u64)
    | Unbond(id: ValidatorId, amount: u64, height: u64)
    | Process(height: u64)
    | Sign(id: ValidatorId)
    | Slash(id: ValidatorId, amount: u64)
    | Downtime(epoch: u64, blocks: u64)
    | Epoch(epoch: u64, blocks: u64)

  function Apply(cfg: Config, st: RegistryState, op: Op): RegistryState {
    match op
    case Add(id, ck, wk, stake) => WithValidator(st, id, ck, wk, stake)
    case Update(id, ck, wk, status) => WithUpdate(st, id, ck, wk, status)
    case Bond(id, amount) => WithBond(st, id, amount)
    case Unbond(id, amount, height) => WithUnbond(cfg, st, id, amount, height)
    case Process(height) => WithProcessed(st, height)
    case Sign(id) => WithSignature(st, id)
    case Slash(id, amount) => WithSlash(st, id, amount)
    case Downtime(epoch, blocks) => WithDowntime(cfg, st, epoch, blocks)
    case Epoch(epoch, blocks) => WithEpoch(cfg, st, epoch, blocks)
  }

  /** Every step keeps the structure, with no condition on stakes, totals or status
      writes. */
  lemma StructureKept(cfg: Config, st: RegistryState, op: Op)
    requires Structured(st)
    ensures Structured(Apply(cfg, st, op))
  {
    var vs, vs' := st.currentSet.validators, Apply(cfg, st, op).currentSet.validators;
    match op
    case Update(id, _, _, _) => SameIdsDistinct(vs, vs');
    case Bond(id, _) => SameIdsDistinct(vs, vs');
    case Slash(id, _) => SameIdsDistinct(vs, vs');
    case Downtime(epoch, blocks) => DowntimeKeepsKeys(cfg, st, epoch, blocks);
    case Epoch(epoch, blocks) => EpochSnapshot(cfg, st, epoch, blocks);
    case _ =>
  }

  lemma SameIdsDistinct(vs: seq<Validator>, vs': seq<Validator>)
    requires DistinctIds(vs) && |vs'| == |vs| && forall i :: 0 <= i < |vs| ==> vs'[i].id == vs[i].id
    ensures DistinctIds(vs')
  {
  }

  lemma {:induction false} RunStructured(cfg: Config, ops: seq<Op>)
    ensures Structured(Run(cfg, ops))
  {
    if ops != [] {
      RunStructured(cfg, ops[..|ops| - 1]);
      StructureKept(cfg, Run(cfg, ops[..|ops| - 1]), ops[|ops| - 1]);
    }
  }

  /** Bonded sums fit in 64 bits, and status writes are those the code
      compensates for. */
  ghost predicate Admissible(cfg: Config, st: RegistryState, op: Op) {
    match op
    case Bond(id, amount) => BondFits(st, id, amount)
    case Update(id, _, _, status) => StatusKeepsTotal(st, id, status)
    case Epoch(epoch, blocks) => EpochFits(cfg, st, epoch, blocks)
    case _ => true
  }

  const EMPTY := RegistryState(ValidatorSet(0, [], 0, 0), map[], [])

  function Run(cfg: Config, ops: seq<Op>): RegistryState {
    if ops == [] then EMPTY else Apply(cfg, Run(cfg, ops[..|ops| - 1]), ops[|ops| - 1])
  }

  ghost predicate AdmissibleRun(cfg: Config, ops: seq<Op>) {
    ops == [] || (AdmissibleRun(cfg, ops[..|ops| - 1]) && Admissible(cfg, Run(cfg, ops[..|ops| - 1]), ops[|ops| - 1]))
  }

  lemma ApplyKeepsInvariant(cfg: Config, st: RegistryState, op: Op)
    requires RegistryInvariant(st) && Admissible(cfg, st, op)
    ensures RegistryInvariant(Apply(cfg, st, op))
  {
    match op
    case Bond(id, amount) => BondKeepsInvariant(st, id, amount);
    case Update(id, ck, wk, status) =>
      if id in st.validators { UpdateKeepsInvariantExactly(st, id, ck, wk, status); }
    case Slash(id, amount) => SlashKeepsInvariant(st, id, amount);
    case Downtime(epoch, blocks) => DowntimeKeepsInvariant(cfg, st, epoch, blocks);
    case Epoch(epoch, blocks) => EpochKeepsInvariant(cfg, st, epoch, blocks);
    case Add(_, _, _, _) => RegistryOnlyKeepsInvariant(st, Apply(cfg, st, op));
    case Unbond(_, _, _) => RegistryOnlyKeepsInvariant(st, Apply(cfg, st, op));
    case Process(_) => RegistryOnlyKeepsInvariant(st, Apply(cfg, st, op));
    case Sign(_) => RegistryOnlyKeepsInvariant(st, Apply(cfg, st, op));
  }

  /** In every admissible run the cached total is exactly the sum of the Active
      stakes in the snapshot, and no snapshot stake is below the registry's. */
  lemma {:induction false} CachedStakeExact(cfg: Config, ops: seq<Op>)
    requires AdmissibleRun(cfg, ops)
    ensures RegistryInvariant(Run(cfg, ops))
  {
    if ops != [] {
      CachedStakeExact(cfg, ops[..|ops| - 1]);
      ApplyKeepsInvariant(cfg, Run(cfg, ops[..|ops| - 1]), ops[|ops| - 1]);
    }
  }
}
