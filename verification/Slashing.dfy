/** Applying a slash: half is burned, half is bonded to the other active
    validators in proportion to stake; and the reward split of one epoch. */
module Slashing {
  import opened Types
  import opened Sums
  import opened Shares
  import opened StakeWeight
  import opened SlashingDetection
  import opened ValidatorRegistry
  import opened RegistryRuns
  import opened StakingLedger

  // ---- Recipients ----

  /** The active validators other than the offender, in set order. */
  function OthersAmong(active: seq<Validator>, id: ValidatorId): (r: seq<Validator>)
    ensures |r| <= |active|
  {
    if active == [] then []
    else
      var v := active[|active| - 1];
      OthersAmong(active[..|active| - 1], id) + if v.id != id then [v] else []
  }

  /** The recipients' stake as the loop accumulates it. */
  function WrappedStake(vs: seq<Validator>): u64 {
    if vs == [] then 0 else Wrap(WrappedStake(vs[..|vs| - 1]) + vs[|vs| - 1].stake)
  }

  /** The registry after the first k recipients were bonded their shares. */
  function Dealing(st: RegistryState, others: seq<Validator>, total: u64, amount: u64, k: nat): RegistryState
    requires total > 0 && k <= |others|
  {
    if k == 0 then st
    else
      var before := Dealing(st, others, total, amount, k - 1);
      var share := ShareAt(StakesOf(others), total, amount, k - 1);
      if share > 0 then WithBond(before, others[k - 1].id, share) else before
  }

  function Distributed(st: RegistryState, id: ValidatorId, amount: u64): RegistryState {
    var others := OthersAmong(ActiveOf(st.currentSet.validators), id);
    var total := WrappedStake(others);
    if total > 0 && amount > 0 then Dealing(st, others, total, amount, |others|) else st
  }

  function Penalty(st: RegistryState, event: SlashingEvent): u64
    requires event.validator in st.validators
  {
    var stake := st.validators[event.validator].stake;
    if event.penalty > stake then stake else event.penalty
  }

  predicate Slashes(st: RegistryState, event: SlashingEvent) {
    event.validator in st.validators && event.penalty > 0
  }

  function AfterSlashing(st: RegistryState, event: SlashingEvent): RegistryState {
    if !Slashes(st, event) then st
    else
      var penalty := Penalty(st, event);
      Punished(Distributed(st, event.validator, penalty - penalty / 2), event.validator, penalty, event.reason)
  }

  /** The slash itself, and the tombstone a safety violation brings. */
  function Punished(st: RegistryState, id: ValidatorId, penalty: u64, reason: SlashReason): RegistryState {
    var st' := WithSlash(st, id, penalty);
    if reason == DoubleSign || reason == SurroundVote then WithUpdate(st', id, None, None, Some(Tombstoned)) else st'
  }

  function SupplyAfter(st: RegistryState, event: SlashingEvent, supply: u64): u64 {
    if !Slashes(st, event) then supply
    else
      var burn := Penalty(st, event) / 2;
      if supply >= burn then supply - burn else 0
  }

  // ---- The loops ----

  lemma OthersSnoc(active: seq<Validator>, v: Validator, id: ValidatorId)
    ensures OthersAmong(active + [v], id) == OthersAmong(active, id) + if v.id != id then [v] else []
  {
    assert (active + [v])[..|active|] == active;
  }

  lemma WrappedSnoc(vs: seq<Validator>, v: Validator)
    ensures WrappedStake(vs + [v]) == Wrap(WrappedStake(vs) + v.stake)
  {
    assert (vs + [v])[..|vs|] == vs;
  }

  method CollectOthers(active: seq<Validator>, id: ValidatorId) returns (total: u64, count: nat)
    ensures total == WrappedStake(OthersAmong(active, id)) && count == |OthersAmong(active, id)|
  {
    total, count := 0, 0;
    ghost var others: seq<Validator> := [];
    var i := 0;
    while i < |active|
      invariant 0 <= i <= |active|
      invariant others == OthersAmong(active[..i], id)
      invariant total == WrappedStake(others) && count == |others|
    {
      assert active[..i + 1] == active[..i] + [active[i]];
      OthersSnoc(active[..i], active[i], id);
      if active[i].id != id {
        WrappedSnoc(others, active[i]);
        others := others + [active[i]];
        total := Wrap(total + active[i].stake);
        count := count + 1;
      }
      i := i + 1;
    }
    assert active[..i] == active;
  }

  /** Active validator i is skipped or is the next recipient. */
  lemma NextOther(active: seq<Validator>, id: ValidatorId, i: nat)
    requires i < |active|
    ensures var count := |OthersAmong(active[..i], id)|;
            if active[i].id == id then |OthersAmong(active[..i + 1], id)| == count
            else
              && |OthersAmong(active[..i + 1], id)| == count + 1 <= |OthersAmong(active, id)|
              && OthersAmong(active, id)[count] == active[i]
  {
    assert active[..i + 1] == active[..i] + [active[i]];
    OthersSnoc(active[..i], active[i], id);
    OthersPrefix(active, id, i + 1);
  }

  lemma OthersPrefix(active: seq<Validator>, id: ValidatorId, i: nat)
    requires i <= |active|
    ensures OthersAmong(active[..i], id) <= OthersAmong(active, id)
    decreases |active| - i
  {
    if i < |active| {
      OthersPrefix(active, id, i + 1);
      assert active[..i + 1][..i] == active[..i];
    } else {
      assert active[..i] == active;
    }
  }

  /** Bonds recipient k its share; `isLast` is the program's count test. */
  method DealShare(registry: ValidatorRegistry, v: Validator, isLast: bool, total: u64, amount: u64, distributed: u64,
                   ghost st: RegistryState, ghost others: seq<Validator>, ghost k: nat) returns (distributed': u64)
    requires total > 0 && k < |others| && others[k] == v && isLast == (k == |others| - 1)
    requires registry.Abs() == Dealing(st, others, total, amount, k)
    requires distributed == Dealt(StakesOf(others), total, amount, k)
    modifies registry
    ensures registry.Abs() == Dealing(st, others, total, amount, k + 1)
    ensures !isLast ==> distributed' == Dealt(StakesOf(others), total, amount, k + 1)
  {
    var reward := if isLast then Wrap(amount - distributed) else Wrap(v.stake * amount / total);
    assert reward == ShareAt(StakesOf(others), total, amount, k);
    distributed' := distributed;
    if reward > 0 {
      var ok := registry.BondStake(v.id, reward);
      distributed' := Wrap(distributed + reward);
    }
  }

  /** Walks the active list, skipping the offender and counting the recipients. */
  method Deal(registry: ValidatorRegistry, active: seq<Validator>, id: ValidatorId,
              total: u64, totalCount: nat, amount: u64)
    requires total > 0 && totalCount == |OthersAmong(active, id)|
    modifies registry
    ensures registry.Abs() == Dealing(old(registry.Abs()), OthersAmong(active, id), total, amount, totalCount)
  {
    ghost var others := OthersAmong(active, id);
    ghost var st := registry.Abs();
    var distributed: u64, count: nat := 0, 0;
    var i := 0;
    while i < |active|
      invariant 0 <= i <= |active|
      invariant count == |OthersAmong(active[..i], id)| && count <= |others|
      invariant registry.Abs() == Dealing(st, others, total, amount, count)
      invariant count < |others| ==> distributed == Dealt(StakesOf(others), total, amount, count)
    {
      var v := active[i];
      NextOther(active, id, i);
      if v.id != id {
        distributed := DealShare(registry, v, count == totalCount - 1, total, amount, distributed, st, others, count);
        count := count + 1;
      }
      i := i + 1;
    }
    assert active[..i] == active;
  }

  method Distribute(registry: ValidatorRegistry, id: ValidatorId, amount: u64)
    modifies registry
    ensures registry.Abs() == Distributed(old(registry.Abs()), id, amount)
  {
    var active := GetActiveValidators(registry.currentSet.validators);
    var total, totalCount := CollectOthers(active, id);
    if total > 0 && amount > 0 {
      Deal(registry, active, id, total, totalCount, amount);
    }
  }

  method Punish(registry: ValidatorRegistry, id: ValidatorId, penalty: u64, reason: SlashReason) returns (ok: bool)
    modifies registry
    ensures ok == (id in old(registry.Abs()).validators)
    ensures ok ==> registry.Abs() == Punished(old(registry.Abs()), id, penalty, reason)
    ensures !ok ==> registry.Abs() == old(registry.Abs())
  {
    ok := registry.SlashValidator(id, penalty);
    if ok && (reason == DoubleSign || reason == SurroundVote) {
      var updated := registry.UpdateValidator(id, None, None, Some(Tombstoned));
    }
  }

  method DistributeAndPunish(registry: ValidatorRegistry, id: ValidatorId, penalty: u64, reason: SlashReason)
      returns (ok: bool)
    requires id in registry.validators
    modifies registry
    ensures ok
    ensures registry.Abs() == Punished(Distributed(old(registry.Abs()), id, penalty - penalty / 2), id, penalty, reason)
  {
    DistributedKeepsKeys(registry.Abs(), id, penalty - penalty / 2);
    Distribute(registry, id, penalty - penalty / 2);
    ok := Punish(registry, id, penalty, reason);
  }

  method ApplySlashing(registry: ValidatorRegistry, event: SlashingEvent, totalSupply: u64)
      returns (ok: bool, supply: u64)
    modifies registry
    ensures ok == (event.validator in old(registry.Abs()).validators && event.penalty > 0)
    ensures registry.Abs() == AfterSlashing(old(registry.Abs()), event)
    ensures supply == SupplyAfter(old(registry.Abs()), event, totalSupply)
  {
    if event.validator !in registry.validators || event.penalty == 0 {
      return false, totalSupply;
    }
    var penalty := event.penalty;
    if penalty > registry.validators[event.validator].stake {
      penalty := registry.validators[event.validator].stake;
    }
    var burn := penalty / 2;
    ok := DistributeAndPunish(registry, event.validator, penalty, event.reason);
    if !ok {
      return false, totalSupply;
    }
    supply := if totalSupply >= burn then totalSupply - burn else 0;
  }

  lemma {:induction false} DealingKeepsKeys(st: RegistryState, others: seq<Validator>, total: u64, amount: u64, k: nat)
    requires total > 0 && k <= |others|
    ensures Dealing(st, others, total, amount, k).validators.Keys == st.validators.Keys
  {
    if k > 0 { DealingKeepsKeys(st, others, total, amount, k - 1); }
  }

  lemma DistributedKeepsKeys(st: RegistryState, id: ValidatorId, amount: u64)
    ensures Distributed(st, id, amount).validators.Keys == st.validators.Keys
  {
    var others := OthersAmong(ActiveOf(st.currentSet.validators), id);
    if WrappedStake(others) > 0 && amount > 0 {
      DealingKeepsKeys(st, others, WrappedStake(others), amount, |others|);
    }
  }
}
