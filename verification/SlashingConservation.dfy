/** A slash destroys exactly the burned half: what the offender loses beyond it
    reappears as other validators' stake. Rewards pay out exactly their amount. */
module SlashingConservation {
  import opened Types
  import opened Sums
  import opened Shares
  import opened StakeWeight
  import opened SlashingDetection
  import opened ValidatorRegistry
  import opened RegistryRuns
  import opened StakingLedger
  import opened Slashing

  // ---- Recipients and their stake ----

  ghost predicate ActiveMembers(active: seq<Validator>, vs: seq<Validator>) {
    DistinctIds(active) && forall v :: v in active ==> v in vs && v.status == Active
  }

  lemma {:induction false} ActiveOfFacts(vs: seq<Validator>)
    requires DistinctIds(vs)
    ensures ActiveMembers(ActiveOf(vs), vs)
    ensures StakeSum(StakesOf(ActiveOf(vs))) == ActiveStake(vs)
  {
    if vs != [] {
      var init, v := vs[..|vs| - 1], vs[|vs| - 1];
      ActiveOfFacts(init);
      assert vs == init + [v];
      if v.status == Active {
        StakeSumSnoc(ActiveOf(init), v);
        OneMoreMember(ActiveOf(init), init, v);
      } else {
        assert ActiveOf(init) + [] == ActiveOf(init);
      }
    }
  }

  lemma OneMoreMember(active: seq<Validator>, vs: seq<Validator>, v: Validator)
    requires ActiveMembers(active, vs) && DistinctIds(vs + [v]) && v.status == Active
    ensures ActiveMembers(active + [v], vs + [v])
  {
    forall w | w in active ensures w.id != v.id {
      var i :| 0 <= i < |vs| && vs[i] == w;
      assert (vs + [v])[i].id != (vs + [v])[|vs|].id;
    }
  }

  lemma StakeSumSnoc(vs: seq<Validator>, v: Validator)
    ensures StakeSum(StakesOf(vs + [v])) == StakeSum(StakesOf(vs)) + v.stake
  {
    var s := StakesOf(vs + [v]);
    assert s[..|s| - 1] == StakesOf(vs);
  }

  lemma {:induction false} OthersFacts(active: seq<Validator>, vs: seq<Validator>, id: ValidatorId)
    requires ActiveMembers(active, vs)
    ensures ActiveMembers(OthersAmong(active, id), vs)
    ensures forall v :: v in OthersAmong(active, id) ==> v.id != id && v in active
    ensures StakeSum(StakesOf(OthersAmong(active, id))) <= StakeSum(StakesOf(active))
  {
    if active != [] {
      var init, v := active[..|active| - 1], active[|active| - 1];
      assert active == init + [v];
      OthersFacts(init, vs, id);
      OthersSnoc(init, v, id);
      StakeSumSnoc(init, v);
      if v.id == id {
        assert OthersAmong(init, id) + [] == OthersAmong(init, id);
      } else {
        StakeSumSnoc(OthersAmong(init, id), v);
        assert forall w :: w in OthersAmong(init, id) ==> w.id != v.id;
      }
    }
  }

  lemma {:induction false} WrappedIsSum(vs: seq<Validator>)
    requires StakeSum(StakesOf(vs)) < TWO_64
    ensures WrappedStake(vs) == StakeSum(StakesOf(vs))
  {
    if vs != [] {
      var s := StakesOf(vs);
      assert s[..|s| - 1] == StakesOf(vs[..|vs| - 1]);
      WrappedIsSum(vs[..|vs| - 1]);
    }
  }

  // ---- Dealing the shares ----

  ghost predicate DealFits(st: RegistryState, others: seq<Validator>, total: u64, amount: u64) {
    && RegistryInvariant(st) && st.currentSet.totalStake + amount < TWO_64
    && ActiveMembers(others, st.currentSet.validators)
    && others != [] && 0 < total == StakeSum(StakesOf(others))
  }

  /** Everything but the first k recipients' stakes is as before. */
  ghost predicate OnlyPaid(st: RegistryState, st': RegistryState, others: seq<Validator>, k: nat)
    requires k <= |others|
  {
    && st'.validators.Keys == st.validators.Keys
    && (forall id :: id in st.validators && (forall j :: 0 <= j < k ==> others[j].id != id)
          ==> st'.validators[id] == st.validators[id])
    && |st'.currentSet.validators| == |st.currentSet.validators|
    && (forall i :: 0 <= i < |st.currentSet.validators| ==>
          st'.currentSet.validators[i].id == st.currentSet.validators[i].id)
    && (forall i :: 0 <= i < |st.currentSet.validators|
          && (forall j :: 0 <= j < k ==> others[j].id != st.currentSet.validators[i].id)
          ==> st'.currentSet.validators[i] == st.currentSet.validators[i])
  }

  lemma SharesBelow(stakes: seq<u64>, total: u64, amount: u64, k: nat)
    requires stakes != [] && 0 < total == StakeSum(stakes) && k < |stakes|
    ensures 0 <= SumSeq(AllShares(stakes, total, amount)[..k])
    ensures SumSeq(AllShares(stakes, total, amount)[..k + 1])
         == SumSeq(AllShares(stakes, total, amount)[..k]) + ShareAt(stakes, total, amount, k) <= amount
  {
    var r := AllShares(stakes, total, amount);
    assert r[..k + 1][..k] == r[..k];
    SharesPrefixSum(stakes, total, amount, k);
    if k + 1 < |stakes| {
      SharesPrefixSum(stakes, total, amount, k + 1);
      DealtBounds(stakes, total, amount, k + 1);
    } else {
      SharesExact(stakes, total, amount);
      assert r[..k + 1] == r;
    }
  }

  lemma FirstIndexIs(vs: seq<Validator>, i: nat)
    requires DistinctIds(vs) && i < |vs|
    ensures FirstIndex(vs, vs[i].id) == i
  {
    var f := FirstIndex(vs, vs[i].id);
    assert f <= i;
  }

  lemma SnapshotUntouched(st: RegistryState, s: RegistryState, others: seq<Validator>, k: nat) returns (i: nat)
    requires ActiveMembers(others, st.currentSet.validators) && k < |others| && OnlyPaid(st, s, others, k)
    ensures i < |s.currentSet.validators| && s.currentSet.validators[i] == others[k]
  {
    assert others[k] in others;
    i :| 0 <= i < |st.currentSet.validators| && st.currentSet.validators[i] == others[k];
    assert forall j :: 0 <= j < k ==> others[j].id != others[k].id;
  }

  lemma RecipientUntouched(st: RegistryState, s: RegistryState, others: seq<Validator>, k: nat)
    requires RegistryInvariant(st) && RegistryInvariant(s)
    requires ActiveMembers(others, st.currentSet.validators) && k < |others| && OnlyPaid(st, s, others, k)
    ensures var i := FirstIndex(s.currentSet.validators, others[k].id);
            i < |s.currentSet.validators| && s.currentSet.validators[i] == others[k]
    ensures others[k].id in s.validators && s.validators[others[k].id].stake <= others[k].stake
  {
    var i := SnapshotUntouched(st, s, others, k);
    FirstIndexIs(s.currentSet.validators, i);
    assert others[k] in s.currentSet.validators;
  }

  lemma ActiveBelowTotal(s: ValidatorSet, i: nat)
    requires WellFormedSet(s) && i < |s.validators| && s.validators[i].status == Active
    ensures s.validators[i].stake <= s.totalStake
  {
    ActiveStakeUpdate(s.validators, i, s.validators[i]);
  }

  lemma BondOneShare(st: RegistryState, s: RegistryState, others: seq<Validator>, k: nat, share: u64)
    requires RegistryInvariant(st) && RegistryInvariant(s)
    requires ActiveMembers(others, st.currentSet.validators) && k < |others| && OnlyPaid(st, s, others, k)
    requires s.currentSet.totalStake + share < TWO_64
    ensures var s' := WithBond(s, others[k].id, share);
            && RegistryInvariant(s') && OnlyPaid(st, s', others, k + 1)
            && s'.currentSet.totalStake == s.currentSet.totalStake + share
            && TotalBonded(s'.validators) == TotalBonded(s.validators) + share
            && s'.validators[others[k].id].stake == s.validators[others[k].id].stake + share
  {
    var id := others[k].id;
    assert others[k] in others;
    RecipientUntouched(st, s, others, k);
    var i := FirstIndex(s.currentSet.validators, id);
    ActiveBelowTotal(s.currentSet, i);
    BondKeepsInvariant(s, id, share);
    BondedUpdate(s.validators, id, WithBond(s, id, share).validators[id]);
    BondIsPayment(st, s, others, k, share);
  }

  lemma BondIsPayment(st: RegistryState, s: RegistryState, others: seq<Validator>, k: nat, share: u64)
    requires k < |others| && OnlyPaid(st, s, others, k) && others[k].id in s.validators
    ensures OnlyPaid(st, WithBond(s, others[k].id, share), others, k + 1)
  {
    var s' := WithBond(s, others[k].id, share);
    var f := FirstIndex(s.currentSet.validators, others[k].id);
    forall i | 0 <= i < |st.currentSet.validators|
               && (forall j :: 0 <= j < k + 1 ==> others[j].id != st.currentSet.validators[i].id)
      ensures s'.currentSet.validators[i] == st.currentSet.validators[i]
    {
      assert others[k].id != st.currentSet.validators[i].id;
      assert s.currentSet.validators[i] == st.currentSet.validators[i];
    }
  }

  /** The registry after payments of `paid` in all to the first k recipients. */
  ghost predicate PaidOut(st: RegistryState, s: RegistryState, others: seq<Validator>, k: nat, paid: int)
    requires k <= |others|
  {
    && RegistryInvariant(s) && OnlyPaid(st, s, others, k)
    && s.currentSet.totalStake == st.currentSet.totalStake + paid
    && TotalBonded(s.validators) == TotalBonded(st.validators) + paid
  }

  lemma PayOne(st: RegistryState, s: RegistryState, others: seq<Validator>, k: nat, paid: int, share: u64)
    requires RegistryInvariant(st) && ActiveMembers(others, st.currentSet.validators) && k < |others|
    requires PaidOut(st, s, others, k, paid) && st.currentSet.totalStake + paid + share < TWO_64
    ensures PaidOut(st, if share > 0 then WithBond(s, others[k].id, share) else s, others, k + 1, paid + share)
  {
    if share > 0 {
      BondOneShare(st, s, others, k, share);
    } else {
      NoShare(st, s, others, k);
    }
  }

  lemma NoShare(st: RegistryState, s: RegistryState, others: seq<Validator>, k: nat)
    requires k < |others| && OnlyPaid(st, s, others, k)
    ensures OnlyPaid(st, s, others, k + 1)
  {
  }

  lemma {:induction false} DealingEffect(st: RegistryState, others: seq<Validator>, total: u64, amount: u64, k: nat)
    requires DealFits(st, others, total, amount) && k <= |others|
    ensures PaidOut(st, Dealing(st, others, total, amount, k), others, k,
                    SumSeq(AllShares(StakesOf(others), total, amount)[..k]))
  {
    if k == 0 {
      NothingPaid(st, others);
    } else {
      var stakes := StakesOf(others);
      DealingEffect(st, others, total, amount, k - 1);
      SharesBelow(stakes, total, amount, k - 1);
      DealingStep(st, others, total, amount, k - 1);
      PayOne(st, Dealing(st, others, total, amount, k - 1), others, k - 1,
             SumSeq(AllShares(stakes, total, amount)[..k - 1]), ShareAt(stakes, total, amount, k - 1));
    }
  }

  lemma DealingStep(st: RegistryState, others: seq<Validator>, total: u64, amount: u64, k: nat)
    requires total > 0 && k < |others|
    ensures var share, s := ShareAt(StakesOf(others), total, amount, k), Dealing(st, others, total, amount, k);
            Dealing(st, others, total, amount, k + 1) == if share > 0 then WithBond(s, others[k].id, share) else s
  {
  }

  lemma NothingPaid(st: RegistryState, others: seq<Validator>)
    requires RegistryInvariant(st)
    ensures PaidOut(st, st, others, 0, 0)
  {
  }

  // ---- The whole slash ----

  /** What the event takes: its penalty, or the whole stake when that is smaller. */
  ghost function Taken(st: RegistryState, event: SlashingEvent): nat
    requires event.validator in st.validators
  {
    if event.penalty <= st.validators[event.validator].stake then event.penalty
    else st.validators[event.validator].stake
  }

  ghost predicate SlashFits(st: RegistryState, event: SlashingEvent)
    requires event.validator in st.validators
  {
    st.currentSet.totalStake + Taken(st, event) < TWO_64
  }

  ghost function OtherActiveStake(st: RegistryState, id: ValidatorId): nat {
    StakeSum(StakesOf(OthersAmong(ActiveOf(st.currentSet.validators), id)))
  }

  /** Distribution bonds exactly the amount to the others, if they have stake, and
      leaves the offender alone. */
  lemma DistributedEffect(st: RegistryState, id: ValidatorId, amount: u64)
    requires RegistryInvariant(st) && id in st.validators && st.currentSet.totalStake + amount < TWO_64
    ensures var s := Distributed(st, id, amount);
            && RegistryInvariant(s) && s.validators.Keys == st.validators.Keys
            && s.validators[id] == st.validators[id]
            && TotalBonded(s.validators)
               == TotalBonded(st.validators) + if OtherActiveStake(st, id) > 0 then amount else 0
  {
    var others := OthersAmong(ActiveOf(st.currentSet.validators), id);
    RecipientsOf(st, id);
    if WrappedStake(others) > 0 && amount > 0 {
      DealtInFull(st, others, WrappedStake(others), amount);
      PaidElsewhere(st, Dealing(st, others, WrappedStake(others), amount, |others|), others, amount, id);
    }
  }

  lemma PaidElsewhere(st: RegistryState, s: RegistryState, others: seq<Validator>, paid: int, id: ValidatorId)
    requires PaidOut(st, s, others, |others|, paid) && id in st.validators && forall v :: v in others ==> v.id != id
    ensures RegistryInvariant(s) && s.validators.Keys == st.validators.Keys && s.validators[id] == st.validators[id]
    ensures TotalBonded(s.validators) == TotalBonded(st.validators) + paid
  {
    assert forall j :: 0 <= j < |others| ==> others[j] in others;
  }

  lemma RecipientsOf(st: RegistryState, id: ValidatorId)
    requires RegistryInvariant(st)
    ensures var others := OthersAmong(ActiveOf(st.currentSet.validators), id);
            && ActiveMembers(others, st.currentSet.validators) && (forall v :: v in others ==> v.id != id)
            && WrappedStake(others) == OtherActiveStake(st, id)
  {
    var active := ActiveOf(st.currentSet.validators);
    ActiveOfFacts(st.currentSet.validators);
    OthersFacts(active, st.currentSet.validators, id);
    WrappedIsSum(OthersAmong(active, id));
  }

  lemma DealtInFull(st: RegistryState, others: seq<Validator>, total: u64, amount: u64)
    requires DealFits(st, others, total, amount)
    ensures PaidOut(st, Dealing(st, others, total, amount, |others|), others, |others|, amount)
  {
    DealingEffect(st, others, total, amount, |others|);
    AllPaid(StakesOf(others), total, amount, |others|);
  }

  lemma AllPaid(stakes: seq<u64>, total: u64, amount: u64, n: nat)
    requires n == |stakes| > 0 && 0 < total == StakeSum(stakes)
    ensures SumSeq(AllShares(stakes, total, amount)[..n]) == amount
  {
    SharesExact(stakes, total, amount);
    var r := AllShares(stakes, total, amount);
    assert r[..n] == r;
  }

  lemma PunishedEffect(st: RegistryState, id: ValidatorId, penalty: u64, reason: SlashReason)
    requires RegistryInvariant(st) && id in st.validators && penalty <= st.validators[id].stake
    ensures var s := Punished(st, id, penalty, reason);
            && RegistryInvariant(s) && id in s.validators
            && s.validators[id].stake == st.validators[id].stake - penalty
            && TotalBonded(s.validators) == TotalBonded(st.validators) - penalty
            && (reason != SlashReason.Downtime ==> s.validators[id].status == Tombstoned)
  {
    var s1 := WithSlash(st, id, penalty);
    SlashKeepsInvariant(st, id, penalty);
    BondedUpdate(st.validators, id, s1.validators[id]);
    if reason == DoubleSign || reason == SurroundVote {
      UpdateKeepsInvariantExactly(s1, id, None, None, Some(Tombstoned));
      BondedUpdate(s1.validators, id, WithUpdate(s1, id, None, None, Some(Tombstoned)).validators[id]);
    }
  }

  /** Slashing keeps the registry's invariant, takes from the offender the event's
      penalty or all it has, and lowers the total bonded stake by exactly half of that
      if and only if some other active validator has stake (or nothing is taken); then
      the supply, when it covers the burn, falls by the same amount. */
  lemma SlashingConserves(st: RegistryState, event: SlashingEvent, supply: u64)
    requires RegistryInvariant(st) && event.validator in st.validators && event.penalty > 0
    requires SlashFits(st, event)
    ensures var st' := AfterSlashing(st, event);
            var taken := Taken(st, event);
            && RegistryInvariant(st') && event.validator in st'.validators
            && st'.validators[event.validator].stake == st.validators[event.validator].stake - taken
            && (TotalBonded(st.validators) - TotalBonded(st'.validators) == taken / 2
                <==> OtherActiveStake(st, event.validator) > 0 || taken == 0)
            && SupplyAfter(st, event, supply) == (if supply >= taken / 2 then supply - taken / 2 else 0)
            && (event.reason != SlashReason.Downtime ==> st'.validators[event.validator].status == Tombstoned)
  {
    var taken: u64 := Taken(st, event);
    SlashIs(st, event, taken, supply);
    SlashingEffect(st, event.validator, taken, event.reason);
    HalfBurned(st, AfterSlashing(st, event), event.validator, taken, event.reason);
  }

  lemma SlashIs(st: RegistryState, event: SlashingEvent, taken: u64, supply: u64)
    requires event.validator in st.validators && event.penalty > 0 && taken == Taken(st, event)
    ensures AfterSlashing(st, event)
         == Punished(Distributed(st, event.validator, taken - taken / 2), event.validator, taken, event.reason)
    ensures SupplyAfter(st, event, supply) == if taken / 2 <= supply then supply - taken / 2 else 0
  {
  }

  lemma HalfBurned(st: RegistryState, st': RegistryState, id: ValidatorId, penalty: u64, reason: SlashReason)
    requires id in st.validators && Punishes(st, st', id, penalty, OtherActiveStake(st, id) > 0, reason)
    ensures TotalBonded(st.validators) - TotalBonded(st'.validators) == penalty / 2
       <==> OtherActiveStake(st, id) > 0 || penalty == 0
  {
  }

  lemma SlashingEffect(st: RegistryState, id: ValidatorId, penalty: u64, reason: SlashReason)
    requires RegistryInvariant(st) && id in st.validators && penalty <= st.validators[id].stake
    requires st.currentSet.totalStake + penalty < TWO_64
    ensures Punishes(st, Punished(Distributed(st, id, penalty - penalty / 2), id, penalty, reason), id, penalty,
                    OtherActiveStake(st, id) > 0, reason)
  {
    DistributedEffect(st, id, penalty - penalty / 2);
    PunishedEffect(Distributed(st, id, penalty - penalty / 2), id, penalty, reason);
  }

  ghost predicate Punishes(st: RegistryState, st': RegistryState, id: ValidatorId, penalty: u64,
                          shared: bool, reason: SlashReason)
    requires id in st.validators
  {
    && RegistryInvariant(st') && id in st'.validators
    && st'.validators[id].stake == st.validators[id].stake - penalty
    && TotalBonded(st.validators) - TotalBonded(st'.validators) == (if shared then penalty / 2 else penalty)
    && (reason != SlashReason.Downtime ==> st'.validators[id].status == Tombstoned)
  }

  // ---- Rewards ----

  lemma {:induction false} RewardMapSum(active: seq<Validator>, total: u64, amount: u64, k: nat)
    requires DistinctIds(active) && total > 0 && k <= |active|
    ensures Lists(RewardMap(active, total, amount, k), active, AllShares(StakesOf(active), total, amount), k)
  {
    var r := AllShares(StakesOf(active), total, amount);
    if k > 0 {
      RewardMapSum(active, total, amount, k - 1);
      var before := RewardMap(active, total, amount, k - 1);
      RewardMapEntry(before, active, r, k - 1);
    }
  }

  /** The map lists the positive ones among the first k shares. */
  ghost predicate Lists(rewards: map<ValidatorId, u64>, active: seq<Validator>, r: seq<int>, k: nat)
    requires k <= |active| == |r|
  {
    SumMap(rewards) == SumSeq(r[..k]) && Entries(rewards, active, r, k)
  }

  ghost predicate Entries(rewards: map<ValidatorId, u64>, active: seq<Validator>, r: seq<int>, k: nat)
    requires k <= |active| == |r|
  {
    && (forall id :: id in rewards ==> exists j :: 0 <= j < k && active[j].id == id)
    && (forall j :: 0 <= j < k ==>
          if r[j] > 0 then active[j].id in rewards && rewards[active[j].id] == r[j] else active[j].id !in rewards)
  }

  lemma EntriesStep(before: map<ValidatorId, u64>, active: seq<Validator>, r: seq<int>, k: nat)
    requires DistinctIds(active) && k < |active| == |r| && 0 <= r[k] < TWO_64 && Entries(before, active, r, k)
    ensures active[k].id !in before
    ensures Entries(if r[k] > 0 then before[active[k].id := r[k]] else before, active, r, k + 1)
  {
  }

  lemma RewardMapEntry(before: map<ValidatorId, u64>, active: seq<Validator>, r: seq<int>, k: nat)
    requires DistinctIds(active) && k < |active| == |r| && 0 <= r[k] < TWO_64 && Lists(before, active, r, k)
    ensures Lists(if r[k] > 0 then before[active[k].id := r[k]] else before, active, r, k + 1)
  {
    RewardSum(before, r, active[k].id, k);
    EntriesStep(before, active, r, k);
  }

  lemma RewardSum(before: map<ValidatorId, u64>, r: seq<int>, id: ValidatorId, k: nat)
    requires k < |r| && 0 <= r[k] < TWO_64 && SumMap(before) == SumSeq(r[..k])
    ensures SumSeq(r[..k + 1]) == SumSeq(r[..k]) + r[k]
    ensures id !in before ==> SumMap(before[id := r[k]]) == SumSeq(r[..k + 1])
  {
    assert r[..k + 1][..k] == r[..k];
    SumMapUpdate(before, id, r[k]);
  }

  /** The rewards of a well-formed set add up to exactly the amount, and each
      active validator gets its share of the exact split. */
  lemma RewardsExact(s: ValidatorSet, amount: u64)
    requires WellFormedSet(s) && s.totalStake > 0 && amount > 0
    ensures SumMap(RewardsOf(s, amount)) == amount
    ensures var active := ActiveOf(s.validators);
            forall j :: 0 <= j < |active| - 1 ==>
              (if active[j].id in RewardsOf(s, amount) then RewardsOf(s, amount)[active[j].id] else 0)
              == active[j].stake * amount / s.totalStake
  {
    ActiveOfFacts(s.validators);
    RewardMapExact(ActiveOf(s.validators), s.totalStake, amount);
  }

  lemma RewardMapExact(active: seq<Validator>, total: u64, amount: u64)
    requires DistinctIds(active) && 0 < total == StakeSum(StakesOf(active))
    ensures SumMap(RewardMap(active, total, amount, |active|)) == amount
    ensures var rewards := RewardMap(active, total, amount, |active|);
            forall j :: 0 <= j < |active| - 1 ==>
              (if active[j].id in rewards then rewards[active[j].id] else 0) == active[j].stake * amount / total
  {
    assert active != [];
    SharesExact(StakesOf(active), total, amount);
    RewardMapSum(active, total, amount, |active|);
    var r := AllShares(StakesOf(active), total, amount);
    assert r[..|active|] == r;
  }
}
