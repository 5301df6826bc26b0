/** Validator stake and status, kept twice: in the registry map and in the current
    epoch's snapshot with its cached total. */
module ValidatorRegistry {
  import opened Types
  import opened StakeWeight
  import opened Sorting
  import opened KeyOrder
  import opened MerkleTree
  import opened Shares

  datatype UnbondingRequest = UnbondingRequest(validator: ValidatorId, amount: u64, completionHeight: u64)

  /** `belowThreshold` is the floating-point comparison of the signing rate (blocks
      signed over blocks in the epoch) with the threshold. */
  datatype Config = Config(
    activeCount: u64, minimumBond: u64, unbondingPeriod: u64, belowThreshold: (u64, u64) -> bool,
    hashPair: PairHash, hashOf: Validator -> Hash)

  datatype RegistryState = RegistryState(
    currentSet: ValidatorSet,
    validators: map<ValidatorId, Validator>,
    unbonding: seq<UnbondingRequest>)

  // ---- The operations on values ----

  /** The position of the first entry with this id, or the length. */
  function FirstIndex(vs: seq<Validator>, id: ValidatorId): (i: nat)
    ensures i <= |vs| && (i < |vs| ==> vs[i].id == id)
    ensures forall j :: 0 <= j < i ==> vs[j].id != id
  {
    if vs == [] || vs[0].id == id then 0 else 1 + FirstIndex(vs[1..], id)
  }

  function WithValidator(st: RegistryState, id: ValidatorId, ck: PublicKey, wk: PublicKey, stake: u64): RegistryState {
    if id in st.validators then st
    else st.(validators := st.validators[id := Validator(id, ck, wk, stake, Standby, 0, 0, 0, 0)])
  }

  function Rewritten(v: Validator, ck: Option<PublicKey>, wk: Option<PublicKey>, status: Option<ValidatorStatus>)
    : Validator
  {
    v.(consensusKey := if ck.Some? then ck.value else v.consensusKey,
       withdrawalKey := if wk.Some? then wk.value else v.withdrawalKey,
       status := if status.Some? then status.value else v.status)
  }

  function SetRewritten(s: ValidatorSet, id: ValidatorId,
                        ck: Option<PublicKey>, wk: Option<PublicKey>, status: Option<ValidatorStatus>): ValidatorSet
  {
    var i := FirstIndex(s.validators, id);
    if i == |s.validators| then s
    else
      var v := s.validators[i];
      s.(validators := s.validators[i := Rewritten(v, ck, wk, status)],
         totalStake :=
           if status == Some(Tombstoned) && v.status == Active
           then if s.totalStake >= v.stake then s.totalStake - v.stake else 0
           else s.totalStake)
  }

  function WithUpdate(st: RegistryState, id: ValidatorId,
                      ck: Option<PublicKey>, wk: Option<PublicKey>, status: Option<ValidatorStatus>): RegistryState
  {
    if id !in st.validators then st
    else st.(validators := st.validators[id := Rewritten(st.validators[id], ck, wk, status)],
             currentSet := SetRewritten(st.currentSet, id, ck, wk, status))
  }

  function SetBonded(s: ValidatorSet, id: ValidatorId, amount: u64): ValidatorSet {
    var i := FirstIndex(s.validators, id);
    if i == |s.validators| then s
    else
      var v := s.validators[i];
      s.(validators := s.validators[i := v.(stake := Wrap(v.stake + amount))],
         totalStake := if v.status == Active then Wrap(s.totalStake + amount) else s.totalStake)
  }

  function WithBond(st: RegistryState, id: ValidatorId, amount: u64): RegistryState {
    if id !in st.validators then st
    else
      var v := st.validators[id];
      st.(validators := st.validators[id := v.(stake := Wrap(v.stake + amount))],
          currentSet := SetBonded(st.currentSet, id, amount))
  }

  predicate MayUnbond(cfg: Config, st: RegistryState, id: ValidatorId, amount: u64) {
    && id in st.validators && amount <= st.validators[id].stake
    && (st.validators[id].stake == amount || st.validators[id].stake - amount >= cfg.minimumBond)
  }

  function WithUnbond(cfg: Config, st: RegistryState, id: ValidatorId, amount: u64, height: u64): RegistryState {
    if !MayUnbond(cfg, st, id, amount) then st
    else
      var v := st.validators[id];
      var v' := v.(stake := v.stake - amount, status := if v.stake == amount then Standby else v.status);
      st.(validators := st.validators[id := v'],
          unbonding := st.unbonding + [UnbondingRequest(id, amount, Wrap(height + cfg.unbondingPeriod))])
  }

  function Completed(reqs: seq<UnbondingRequest>, height: u64): seq<UnbondingRequest> {
    if reqs == [] then []
    else
      var r := reqs[|reqs| - 1];
      Completed(reqs[..|reqs| - 1], height) + if r.completionHeight <= height then [r] else []
  }

  function Pending(reqs: seq<UnbondingRequest>, height: u64): seq<UnbondingRequest> {
    if reqs == [] then []
    else
      var r := reqs[|reqs| - 1];
      Pending(reqs[..|reqs| - 1], height) + if r.completionHeight <= height then [] else [r]
  }

  function WithProcessed(st: RegistryState, height: u64): RegistryState {
    st.(unbonding := Pending(st.unbonding, height))
  }

  function WithSignature(st: RegistryState, id: ValidatorId): RegistryState {
    if id !in st.validators then st
    else st.(validators := st.validators[id := st.validators[id].(signed := Wrap(st.validators[id].signed + 1))])
  }

  function SetSlashed(s: ValidatorSet, id: ValidatorId, slash: u64): ValidatorSet {
    var i := FirstIndex(s.validators, id);
    if i == |s.validators| then s
    else
      var v := s.validators[i];
      var actual := if v.stake < slash then v.stake else slash;
      s.(validators := s.validators[i := v.(stake := v.stake - actual)],
         totalStake :=
           if v.status == Active
           then if s.totalStake >= actual then s.totalStake - actual else 0
           else s.totalStake)
  }

  function WithSlash(st: RegistryState, id: ValidatorId, amount: u64): RegistryState {
    if id !in st.validators then st
    else
      var v := st.validators[id];
      var actual := if v.stake < amount then v.stake else amount;
      st.(validators := st.validators[id := v.(stake := v.stake - actual)],
          currentSet := SetSlashed(st.currentSet, id, actual))
  }

  predicate Violates(cfg: Config, v: Validator, blocks: u64) {
    cfg.belowThreshold(v.signed, blocks)
  }

  /** One validator's downtime penalty, by how many epochs in a row it was down. */
  function Penalised(cfg: Config, v: Validator, epoch: u64, blocks: u64): Validator {
    if !Violates(cfg, v, blocks) then v.(downtimeEpochs := 0)
    else if v.downtimeEpochs > 0 && v.status == Jailed && v.jailedUntil == Wrap(epoch + 1) then v
    else if v.downtimeEpochs == 0 then
      v.(status := Jailed, jailedUntil := Wrap(epoch + 1), downtimeEpochs := 1)
    else if v.downtimeEpochs == 1 then
      v.(stake := v.stake - Wrap(v.stake * 5) / 1000, status := Standby, downtimeEpochs := 2)
    else
      v.(stake := v.stake - v.stake / 100, status := Standby, downtimeEpochs := Wrap(v.downtimeEpochs + 1))
  }

  /** The penalised ids, in the order the registry map is walked. */
  function ViolatorsAmong(cfg: Config, m: map<ValidatorId, Validator>, active: set<ValidatorId>,
                          ids: seq<ValidatorId>, blocks: u64): seq<ValidatorId>
    requires forall i :: 0 <= i < |ids| ==> ids[i] in m
  {
    if ids == [] then []
    else
      var v := m[ids[|ids| - 1]];
      ViolatorsAmong(cfg, m, active, ids[..|ids| - 1], blocks)
      + if v.id in active && Violates(cfg, v, blocks) then [v.id] else []
  }

  function Violators(cfg: Config, st: RegistryState, blocks: u64): seq<ValidatorId> {
    if blocks == 0 then []
    else
      ViolatorsAmong(cfg, st.validators, IdsOf(ActiveOf(st.currentSet.validators)),
                     Ascending(st.validators.Keys), blocks)
  }

  function IdsOf(vs: seq<Validator>): set<ValidatorId> {
    set v | v in vs :: v.id
  }

  function DowntimeOf(cfg: Config, active: set<ValidatorId>, v: Validator, epoch: u64, blocks: u64): Validator {
    if v.id in active then Penalised(cfg, v, epoch, blocks) else v
  }

  function PenalisedMap(cfg: Config, m: map<ValidatorId, Validator>, active: set<ValidatorId>, epoch: u64, blocks: u64)
    : map<ValidatorId, Validator>
  {
    map id | id in m :: DowntimeOf(cfg, active, m[id], epoch, blocks)
  }

  function WithDowntime(cfg: Config, st: RegistryState, epoch: u64, blocks: u64): RegistryState {
    if blocks == 0 then st
    else
      var active := IdsOf(ActiveOf(st.currentSet.validators));
      st.(validators := PenalisedMap(cfg, st.validators, active, epoch, blocks))
  }

  /** Penalising the listed ids, which are all of them, is penalising the map. */
  lemma DowntimeByIds(cfg: Config, m: map<ValidatorId, Validator>, m': map<ValidatorId, Validator>,
                      ids: seq<ValidatorId>, active: set<ValidatorId>, epoch: u64, blocks: u64)
    requires m'.Keys == m.Keys && forall k :: k in m ==> k in ids
    requires forall i :: 0 <= i < |ids| ==>
               ids[i] in m && m'[ids[i]] == DowntimeOf(cfg, active, m[ids[i]], epoch, blocks)
    ensures m' == PenalisedMap(cfg, m, active, epoch, blocks)
  {
    forall id | id in m ensures m'[id] == DowntimeOf(cfg, active, m[id], epoch, blocks) {
      var i :| 0 <= i < |ids| && ids[i] == id;
    }
  }

  predicate Outranks(a: Validator, b: Validator) {
    if a.stake != b.stake then a.stake > b.stake else a.id < b.id
  }

  function Values(m: map<ValidatorId, Validator>, ids: seq<ValidatorId>): (r: seq<Validator>)
    requires forall i :: 0 <= i < |ids| ==> ids[i] in m
    ensures |r| == |ids| && forall i :: 0 <= i < |ids| ==> r[i] == m[ids[i]]
  {
    seq(|ids|, i requires 0 <= i < |ids| => m[ids[i]])
  }

  function Ranked(m: map<ValidatorId, Validator>): seq<Validator> {
    Sort(Outranks, Values(m, Ascending(m.Keys)))
  }

  /** One ranked validator after the epoch change, `i` being its rank. */
  function Placed(cfg: Config, v: Validator, i: nat, epoch: u64): Validator {
    var reset := v.(signed := 0, missed := 0);
    var freed := if reset.status == Jailed && reset.jailedUntil <= epoch
                 then reset.(status := Standby, jailedUntil := 0) else reset;
    if freed.status == Tombstoned then freed
    else if i < cfg.activeCount && freed.stake >= cfg.minimumBond && freed.status != Jailed
    then freed.(status := Active)
    else if freed.status == Active then freed.(status := Standby)
    else freed
  }

  function AllPlaced(cfg: Config, ranked: seq<Validator>, epoch: u64): (r: seq<Validator>)
    ensures |r| == |ranked| && forall i :: 0 <= i < |ranked| ==> r[i] == Placed(cfg, ranked[i], i, epoch)
  {
    seq(|ranked|, i requires 0 <= i < |ranked| => Placed(cfg, ranked[i], i, epoch))
  }

  /** The map after assigning each listed validator under its id, in order. */
  function Overlay(m: map<ValidatorId, Validator>, vs: seq<Validator>): map<ValidatorId, Validator> {
    if vs == [] then m
    else Overlay(m, vs[..|vs| - 1])[vs[|vs| - 1].id := vs[|vs| - 1]]
  }

  function HashesOf(hashOf: Validator -> Hash, vs: seq<Validator>): (r: seq<Hash>)
    ensures |r| == |vs| && forall i :: 0 <= i < |vs| ==> r[i] == hashOf(vs[i])
  {
    seq(|vs|, i requires 0 <= i < |vs| => hashOf(vs[i]))
  }

  function BeforeRanking(cfg: Config, st: RegistryState, epoch: u64, blocks: u64): RegistryState {
    if epoch > 1 then WithDowntime(cfg, st, epoch - 1, blocks) else st
  }

  function WithEpoch(cfg: Config, st: RegistryState, epoch: u64, blocks: u64): RegistryState {
    var st1 := BeforeRanking(cfg, st, epoch, blocks);
    var vs := AllPlaced(cfg, Ranked(st1.validators), epoch);
    st1.(validators := Overlay(st1.validators, vs),
         currentSet := ValidatorSet(epoch, vs, WrappedActiveStake(vs), Root(cfg.hashPair, HashesOf(cfg.hashOf, vs))))
  }

  /** The sum of Active stakes as the loop accumulates it. */
  function WrappedActiveStake(vs: seq<Validator>): u64 {
    if vs == [] then 0
    else
      var v := vs[|vs| - 1];
      var before := WrappedActiveStake(vs[..|vs| - 1]);
      if v.status == Active then Wrap(before + v.stake) else before
  }

  lemma ActiveStakeSnoc(vs: seq<Validator>, v: Validator)
    ensures WrappedActiveStake(vs + [v])
         == if v.status == Active then Wrap(WrappedActiveStake(vs) + v.stake) else WrappedActiveStake(vs)
  {
    assert (vs + [v])[..|vs|] == vs;
  }

  lemma PlacedSnoc(m: map<ValidatorId, Validator>, vs: seq<Validator>, v: Validator)
    ensures Overlay(m, vs + [v]) == Overlay(m, vs)[v.id := v]
    ensures WrappedActiveStake(vs + [v])
         == if v.status == Active then Wrap(WrappedActiveStake(vs) + v.stake) else WrappedActiveStake(vs)
  {
    assert (vs + [v])[..|vs|] == vs;
    ActiveStakeSnoc(vs, v);
  }

  function StakesOf(vs: seq<Validator>): (r: seq<u64>)
    ensures |r| == |vs| && forall i :: 0 <= i < |vs| ==> r[i] == vs[i].stake
  {
    seq(|vs|, i requires 0 <= i < |vs| => vs[i].stake)
  }

  /** The rewards of the first k active validators; a zero share makes no entry. */
  function RewardMap(active: seq<Validator>, total: u64, amount: u64, k: nat): map<ValidatorId, u64>
    requires total > 0 && k <= |active|
  {
    if k == 0 then map[]
    else
      var before := RewardMap(active, total, amount, k - 1);
      var share := ShareAt(StakesOf(active), total, amount, k - 1);
      if share > 0 then before[active[k - 1].id := share] else before
  }

  /** What recipient k adds to the rewards, and to the sum dealt before the next one. */
  lemma RewardStep(active: seq<Validator>, total: u64, amount: u64, k: nat, dealt: u64, reward: u64,
                   before: map<ValidatorId, u64>)
    requires total > 0 && k < |active|
    requires dealt == Dealt(StakesOf(active), total, amount, k) && before == RewardMap(active, total, amount, k)
    requires reward == if k == |active| - 1 then Wrap(amount - dealt) else Floor(active[k].stake, total, amount)
    ensures RewardMap(active, total, amount, k + 1) == if reward > 0 then before[active[k].id := reward] else before
    ensures k + 1 < |active| ==> Dealt(StakesOf(active), total, amount, k + 1) == Wrap(dealt + reward)
  {
    assert reward == ShareAt(StakesOf(active), total, amount, k);
  }

  function RewardsOf(s: ValidatorSet, amount: u64): map<ValidatorId, u64> {
    var active := ActiveOf(s.validators);
    if amount == 0 || s.totalStake == 0 || active == [] then map[]
    else RewardMap(active, s.totalStake, amount, |active|)
  }

  // ---- The registry object ----

  class ValidatorRegistry {
    const config: Config
    var currentSet: ValidatorSet
    var validators: map<ValidatorId, Validator>
    var unbondingRequests: seq<UnbondingRequest>

    ghost function Abs(): RegistryState
      reads this
    {
      RegistryState(currentSet, validators, unbondingRequests)
    }

    constructor (config: Config)
      ensures this.config == config
      ensures Abs() == RegistryState(ValidatorSet(0, [], 0, 0), map[], [])
    {
      this.config := config;
      currentSet, validators, unbondingRequests := ValidatorSet(0, [], 0, 0), map[], [];
    }

    method AddValidator(id: ValidatorId, ck: PublicKey, wk: PublicKey, stake: u64) returns (ok: bool)
      modifies this`validators
      ensures ok == (id !in old(validators))
      ensures Abs() == WithValidator(old(Abs()), id, ck, wk, stake)
    {
      if id in validators {
        return false;
      }
      var v := Validator(id, ck, wk, stake, Standby, 0, 0, 0, 0);
      validators := validators[id := v];
      return true;
    }

    method FindInSet(id: ValidatorId) returns (i: nat)
      ensures i == FirstIndex(currentSet.validators, id)
    {
      i := 0;
      while i < |currentSet.validators|
        invariant i <= |currentSet.validators|
        invariant FirstIndex(currentSet.validators, id) == i + FirstIndex(currentSet.validators[i..], id)
      {
        assert currentSet.validators[i..][1..] == currentSet.validators[i + 1..];
        if currentSet.validators[i].id == id {
          return;
        }
        i := i + 1;
      }
    }

    method UpdateValidator(id: ValidatorId, ck: Option<PublicKey>, wk: Option<PublicKey>,
                           status: Option<ValidatorStatus>)
        returns (ok: bool)
      modifies this`validators, this`currentSet
      ensures ok == (id in old(validators))
      ensures Abs() == WithUpdate(old(Abs()), id, ck, wk, status)
    {
      if id !in validators {
        return false;
      }
      var v := validators[id];
      if ck.Some? { v := v.(consensusKey := ck.value); }
      if wk.Some? { v := v.(withdrawalKey := wk.value); }
      if status.Some? { v := v.(status := status.value); }
      validators := validators[id := v];
      var i := FindInSet(id);
      if i < |currentSet.validators| {
        var w := currentSet.validators[i];
        var total := currentSet.totalStake;
        if ck.Some? { w := w.(consensusKey := ck.value); }
        if wk.Some? { w := w.(withdrawalKey := wk.value); }
        if status.Some? {
          if status.value == Tombstoned && w.status == Active {
            if total >= w.stake {
              total := total - w.stake;
            } else {
              total := 0;
            }
          }
          w := w.(status := status.value);
        }
        currentSet := currentSet.(validators := currentSet.validators[i := w], totalStake := total);
      }
      return true;
    }

    method BondStake(id: ValidatorId, amount: u64) returns (ok: bool)
      modifies this`validators, this`currentSet
      ensures ok == (id in old(validators))
      ensures Abs() == WithBond(old(Abs()), id, amount)
    {
      if id !in validators {
        return false;
      }
      validators := validators[id := validators[id].(stake := Wrap(validators[id].stake + amount))];
      BondInSet(id, amount);
      return true;
    }

    method BondInSet(id: ValidatorId, amount: u64)
      modifies this`currentSet
      ensures currentSet == SetBonded(old(currentSet), id, amount)
    {
      var i := FindInSet(id);
      if i < |currentSet.validators| {
        var w := currentSet.validators[i];
        var total := currentSet.totalStake;
        if w.status == Active {
          total := Wrap(total + amount);
        }
        currentSet := currentSet.(
          validators := currentSet.validators[i := w.(stake := Wrap(w.stake + amount))], totalStake := total);
      }
    }

    method UnbondStake(id: ValidatorId, amount: u64, height: u64) returns (ok: bool)
      modifies this`validators, this`unbondingRequests
      ensures ok == MayUnbond(config, old(Abs()), id, amount)
      ensures Abs() == WithUnbond(config, old(Abs()), id, amount, height)
    {
      if id !in validators {
        return false;
      }
      if validators[id].stake < amount {
        return false;
      }
      var remaining := validators[id].stake - amount;
      if remaining > 0 && remaining < config.minimumBond {
        return false;
      }
      validators := validators[id := validators[id].(stake := validators[id].stake - amount)];
      var completion := Wrap(height + config.unbondingPeriod);
      unbondingRequests := unbondingRequests + [UnbondingRequest(id, amount, completion)];
      if remaining == 0 {
        validators := validators[id := validators[id].(status := Standby)];
      }
      return true;
    }

    method ProcessUnbonding(height: u64) returns (completed: seq<UnbondingRequest>)
      modifies this`unbondingRequests
      ensures completed == Completed(old(unbondingRequests), height)
      ensures Abs() == WithProcessed(old(Abs()), height)
    {
      completed := [];
      ghost var reqs := unbondingRequests;
      ghost var done := 0;
      var i := 0;
      while i < |unbondingRequests|
        invariant 0 <= i <= |unbondingRequests| && 0 <= done <= |reqs|
        invariant unbondingRequests[i..] == reqs[done..]
        invariant unbondingRequests[..i] == Pending(reqs[..done], height)
        invariant completed == Completed(reqs[..done], height)
        decreases |unbondingRequests| - i
      {
        var r := unbondingRequests[i];
        assert r == reqs[done..][0] == reqs[done];
        assert reqs[..done + 1][..done] == reqs[..done];
        if r.completionHeight <= height {
          completed := completed + [r];
          unbondingRequests := unbondingRequests[..i] + unbondingRequests[i + 1..];
        } else {
          i := i + 1;
        }
        done := done + 1;
      }
      assert reqs[..done] == reqs;
      assert unbondingRequests == unbondingRequests[..i];
    }

    method RecordSignature(id: ValidatorId) returns (ok: bool)
      modifies this`validators
      ensures ok == (id in old(validators))
      ensures Abs() == WithSignature(old(Abs()), id)
    {
      if id !in validators {
        return false;
      }
      validators := validators[id := validators[id].(signed := Wrap(validators[id].signed + 1))];
      return true;
    }

    method SlashValidator(id: ValidatorId, amount: u64) returns (ok: bool)
      modifies this`validators, this`currentSet
      ensures ok == (id in old(validators))
      ensures Abs() == WithSlash(old(Abs()), id, amount)
    {
      if id !in validators {
        return false;
      }
      var v := validators[id];
      var actual := amount;
      if v.stake < amount {
        actual := v.stake;
        validators := validators[id := v.(stake := 0)];
      } else {
        validators := validators[id := v.(stake := v.stake - amount)];
      }
      var i := FindInSet(id);
      if i < |currentSet.validators| {
        var w := currentSet.validators[i];
        var left: u64 := 0;
        if w.stake < actual {
          actual := w.stake;
        } else {
          left := w.stake - actual;
        }
        var total := currentSet.totalStake;
        if w.status == Active {
          if total >= actual {
            total := total - actual;
          } else {
            total := 0;
          }
        }
        currentSet := currentSet.(validators := currentSet.validators[i := w.(stake := left)], totalStake := total);
      }
      return true;
    }

    /** The loop over the registry map, its keys being `ids` in order. */
    method Penalise(checked: Validator, epoch: u64, blocks: u64) returns (v: Validator)
      ensures v == Penalised(config, checked, epoch, blocks)
    {
      v := checked;
      if !config.belowThreshold(v.signed, blocks) {
        return v.(downtimeEpochs := 0);
      }
      if v.downtimeEpochs > 0 && v.status == Jailed && v.jailedUntil == Wrap(epoch + 1) {
        return;
      }
      if v.downtimeEpochs == 0 {
        v := v.(status := Jailed, jailedUntil := Wrap(epoch + 1), downtimeEpochs := 1);
      } else if v.downtimeEpochs == 1 {
        v := v.(stake := v.stake - Wrap(v.stake * 5) / 1000, status := Standby, downtimeEpochs := 2);
      } else {
        v := v.(stake := v.stake - v.stake / 100, status := Standby, downtimeEpochs := Wrap(v.downtimeEpochs + 1));
      }
    }

    method PenaliseEach(ids: seq<ValidatorId>, active: set<ValidatorId>, epoch: u64, blocks: u64)
        returns (violators: seq<ValidatorId>)
      requires forall i :: 0 <= i < |ids| ==> ids[i] in validators
      requires forall i, j :: 0 <= i < j < |ids| ==> ids[i] != ids[j]
      modifies this`validators
      ensures validators.Keys == old(validators).Keys
      ensures forall i :: 0 <= i < |ids| ==>
                validators[ids[i]] == DowntimeOf(config, active, old(validators)[ids[i]], epoch, blocks)
      ensures violators == ViolatorsAmong(config, old(validators), active, ids, blocks)
    {
      violators := [];
      var i := 0;
      while i < |ids|
        invariant 0 <= i <= |ids| && validators.Keys == old(validators).Keys
        invariant forall j :: i <= j < |ids| ==> validators[ids[j]] == old(validators)[ids[j]]
        invariant forall j :: 0 <= j < i ==>
                    validators[ids[j]] == DowntimeOf(config, active, old(validators)[ids[j]], epoch, blocks)
        invariant violators == ViolatorsAmong(config, old(validators), active, ids[..i], blocks)
      {
        var v := validators[ids[i]];
        assert ids[..i + 1][..i] == ids[..i];
        if v.id in active {
          if Violates(config, v, blocks) {
            violators := violators + [v.id];
          }
          v := Penalise(v, epoch, blocks);
          validators := validators[ids[i] := v];
        }
        i := i + 1;
      }
      assert ids[..i] == ids;
    }

    method CheckDowntime(epoch: u64, blocks: u64) returns (violators: seq<ValidatorId>)
      modifies this`validators
      ensures Abs() == WithDowntime(config, old(Abs()), epoch, blocks)
      ensures violators == Violators(config, old(Abs()), blocks)
    {
      if blocks == 0 {
        return [];
      }
      var activeValidators := GetActiveValidators(currentSet.validators);
      var active := IdsOf(activeValidators);
      AscendingIsOrder(validators.Keys);
      var ids := Ascending(validators.Keys);
      violators := PenaliseEach(ids, active, epoch, blocks);
      DowntimeByIds(config, old(validators), validators, ids, active, epoch, blocks);
    }

    method RankByStake() returns (ranked: seq<Validator>)
      ensures ranked == Ranked(validators)
    {
      ranked := [];
      var ids := Ascending(validators.Keys);
      var i := 0;
      while i < |ids|
        invariant 0 <= i <= |ids|
        invariant ranked == Values(validators, ids)[..i]
      {
        ranked := ranked + [validators[ids[i]]];
        i := i + 1;
      }
      assert ranked == Values(validators, ids);
      ranked := Sort(Outranks, ranked);
    }

    method ComputeValidatorSetRoot(vs: seq<Validator>) returns (root: Hash)
      ensures root == Root(config.hashPair, HashesOf(config.hashOf, vs))
    {
      if vs == [] {
        return 0;
      }
      var hashes: seq<Hash> := [];
      var i := 0;
      while i < |vs|
        invariant 0 <= i <= |vs|
        invariant hashes == HashesOf(config.hashOf, vs)[..i]
      {
        hashes := hashes + [config.hashOf(vs[i])];
        i := i + 1;
      }
      assert hashes == HashesOf(config.hashOf, vs);
      var tree := new MerkleTree(config.hashPair);
      tree.BuildTree(hashes);
      return tree.root;
    }

    method Place(ranked: Validator, i: nat, epoch: u64) returns (v: Validator)
      ensures v == Placed(config, ranked, i, epoch)
    {
      v := ranked.(signed := 0, missed := 0);
      if v.status == Jailed && v.jailedUntil <= epoch {
        v := v.(status := Standby, jailedUntil := 0);
      }
      if v.status == Tombstoned {
        return;
      }
      if i < config.activeCount && v.stake >= config.minimumBond && v.status != Jailed {
        v := v.(status := Active);
      } else if v.status == Active {
        v := v.(status := Standby);
      }
    }

    method PlaceAll(ranked: seq<Validator>, epoch: u64) returns (vs: seq<Validator>, total: u64)
      modifies this`validators
      ensures vs == AllPlaced(config, ranked, epoch) && total == WrappedActiveStake(vs)
      ensures validators == Overlay(old(validators), vs)
    {
      vs, total := [], 0;
      ghost var placed := AllPlaced(config, ranked, epoch);
      var i := 0;
      while i < |ranked|
        invariant 0 <= i <= |ranked| && vs == placed[..i]
        invariant total == WrappedActiveStake(vs) && validators == Overlay(old(validators), vs)
      {
        var v := Place(ranked[i], i, epoch);
        assert placed[i] == v && placed[..i + 1] == placed[..i] + [placed[i]];
        if v.status == Active {
          total := Wrap(total + v.stake);
        }
        PlacedSnoc(old(validators), vs, v);
        vs := vs + [v];
        validators := validators[v.id := v];
        i := i + 1;
      }
    }

    method TransitionEpoch(epoch: u64, blocks: u64) returns (newSet: ValidatorSet)
      modifies this`validators, this`currentSet
      ensures Abs() == WithEpoch(config, old(Abs()), epoch, blocks)
      ensures newSet == currentSet
    {
      if epoch > 1 {
        var violators := CheckDowntime(epoch - 1, blocks);
      }
      var ranked := RankByStake();
      var vs, total := PlaceAll(ranked, epoch);
      var root := ComputeValidatorSetRoot(vs);
      currentSet := ValidatorSet(epoch, vs, total, root);
      return currentSet;
    }

    method DistributeRewardsProportional(totalAmount: u64) returns (rewards: map<ValidatorId, u64>)
      ensures rewards == RewardsOf(currentSet, totalAmount)
    {
      rewards := map[];
      if totalAmount == 0 || currentSet.totalStake == 0 {
        return;
      }
      var active := GetActiveValidators(currentSet.validators);
      rewards := Reward(active, currentSet.totalStake, totalAmount);
    }

    method Reward(active: seq<Validator>, total: u64, amount: u64) returns (rewards: map<ValidatorId, u64>)
      requires total > 0
      ensures rewards == RewardMap(active, total, amount, |active|)
    {
      rewards := map[];
      var distributed: u64 := 0;
      var i := 0;
      while i < |active|
        invariant 0 <= i <= |active|
        invariant rewards == RewardMap(active, total, amount, i)
        invariant i < |active| ==> distributed == Dealt(StakesOf(active), total, amount, i)
      {
        var reward := if i == |active| - 1 then Wrap(amount - distributed) else Floor(active[i].stake, total, amount);
        RewardStep(active, total, amount, i, distributed, reward, rewards);
        if reward > 0 {
          rewards := rewards[active[i].id := reward];
          distributed := Wrap(distributed + reward);
        }
        i := i + 1;
      }
    }
  }
}
