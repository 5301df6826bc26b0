/** The whole effect of a slash on both copies of every validator, stated on the event
    and the registry before it. */
module SlashingEffects {
  import opened Types
  import opened Sums
  import opened Places
  import opened Shares
  import opened StakeWeight
  import opened SlashingDetection
  import opened ValidatorRegistry
  import opened RegistryRuns
  import opened Slashing
  import opened SlashingConservation

  // ---- Recipients by place ----

  ghost function ActiveBut(id: ValidatorId): Validator -> bool {
    (v: Validator) => v.status == Active && v.id != id
  }

  lemma ActiveSnoc(vs: seq<Validator>, v: Validator)
    ensures ActiveOf(vs + [v]) == ActiveOf(vs) + if v.status == Active then [v] else []
  {
    assert (vs + [v])[..|vs|] == vs;
  }

  lemma RecipientsSnoc(vs: seq<Validator>, v: Validator, id: ValidatorId)
    ensures OthersAmong(ActiveOf(vs + [v]), id)
         == if ActiveBut(id)(v) then OthersAmong(ActiveOf(vs), id) + [v] else OthersAmong(ActiveOf(vs), id)
  {
    ActiveSnoc(vs, v);
    if v.status == Active {
      OthersSnoc(ActiveOf(vs), v, id);
    } else {
      assert ActiveOf(vs) + [] == ActiveOf(vs);
    }
    assert OthersAmong(ActiveOf(vs), id) + [] == OthersAmong(ActiveOf(vs), id);
  }

  ghost function Recipients(id: ValidatorId): seq<Validator> -> seq<Validator> {
    (vs: seq<Validator>) => OthersAmong(ActiveOf(vs), id)
  }

  lemma RecipientsFilter(id: ValidatorId)
    ensures Filters(Recipients(id), ActiveBut(id))
  {
    forall init, v
      ensures Recipients(id)(init + [v])
           == if ActiveBut(id)(v) then Recipients(id)(init) + [v] else Recipients(id)(init)
    {
      RecipientsSnoc(init, v, id);
    }
  }

  lemma RecipientPlaces(vs: seq<Validator>, id: ValidatorId) returns (places: seq<nat>)
    ensures Picks(places, vs, ActiveBut(id), OthersAmong(ActiveOf(vs), id))
  {
    RecipientsFilter(id);
    places := FilterPicks(Recipients(id), ActiveBut(id), vs);
  }

  /** The stakes of the entries at these places. */
  ghost predicate StakesAt(vs: seq<Validator>, places: seq<nat>, stakes: seq<int>) {
    && |stakes| == |places|
    && forall k :: 0 <= k < |places| ==> places[k] < |vs| && stakes[k] == vs[places[k]].stake
  }

  /** The amount split in proportion to the stakes: each gets the floor of its part, the
      last one the rest. With no stake at all nobody gets anything. */
  ghost predicate Proportional(gains: seq<int>, stakes: seq<int>, amount: nat) {
    && |gains| == |stakes|
    && if SumSeq(stakes) <= 0 then forall k :: 0 <= k < |gains| ==> gains[k] == 0
       else
         && SumSeq(gains) == amount
         && forall k :: 0 <= k < |gains| - 1 ==> gains[k] == stakes[k] * amount / SumSeq(stakes)
  }

  /** One copy of a validator with a changed stake. */
  ghost predicate Gains(before: Validator, after: Validator, gain: int) {
    after.stake == before.stake + gain && after == before.(stake := after.stake)
  }

  /** The recipients so far gained what is listed, in the registry and in the snapshot. */
  ghost predicate Gained(st: RegistryState, s: RegistryState, others: seq<Validator>, gains: seq<int>, k: nat)
    requires k <= |others| && k <= |gains|
  {
    forall j :: 0 <= j < k ==> GainedBy(st, s, others[j].id, gains[j])
  }

  ghost predicate GainedBy(st: RegistryState, s: RegistryState, id: ValidatorId, gain: int) {
    && id in st.validators && id in s.validators && Gains(st.validators[id], s.validators[id], gain)
    && |s.currentSet.validators| == |st.currentSet.validators|
    && forall i :: 0 <= i < |st.currentSet.validators| && st.currentSet.validators[i].id == id ==>
         Gains(st.currentSet.validators[i], s.currentSet.validators[i], gain)
  }

  lemma BondElsewhere(st: RegistryState, s: RegistryState, id: ValidatorId, share: u64, other: ValidatorId, gain: int)
    requires GainedBy(st, s, other, gain) && other != id
    ensures GainedBy(st, WithBond(s, id, share), other, gain)
  {
  }

  lemma NotYetPaid(st: RegistryState, s: RegistryState, others: seq<Validator>, k: nat)
    requires RegistryInvariant(st) && RegistryInvariant(s)
    requires ActiveMembers(others, st.currentSet.validators) && k < |others| && OnlyPaid(st, s, others, k)
    ensures GainedBy(st, s, others[k].id, 0)
  {
    RecipientUntouched(st, s, others, k);
    assert forall j :: 0 <= j < k ==> others[j].id != others[k].id;
  }

  lemma BondAdds(st: RegistryState, s: RegistryState, id: ValidatorId, share: u64)
    requires GainedBy(st, s, id, 0) && DistinctIds(s.currentSet.validators)
    requires s.validators[id].stake + share < TWO_64
    requires forall v :: v in s.currentSet.validators && v.id == id ==> v.stake + share < TWO_64
    ensures GainedBy(st, WithBond(s, id, share), id, share)
  {
    var f := FirstIndex(s.currentSet.validators, id);
    if f < |s.currentSet.validators| {
      assert s.currentSet.validators[f] in s.currentSet.validators;
    }
  }

  /** The next recipient still has its old stakes, so bonding its share adds just that. */
  lemma BondHere(st: RegistryState, s: RegistryState, others: seq<Validator>, k: nat, share: u64)
    requires RegistryInvariant(st) && RegistryInvariant(s)
    requires ActiveMembers(others, st.currentSet.validators) && k < |others| && OnlyPaid(st, s, others, k)
    requires s.currentSet.totalStake + share < TWO_64
    ensures GainedBy(st, WithBond(s, others[k].id, share), others[k].id, share)
  {
    var id := others[k].id;
    NotYetPaid(st, s, others, k);
    RecipientFits(st, s, others, k, share);
    BondAdds(st, s, id, share);
  }

  lemma RecipientFits(st: RegistryState, s: RegistryState, others: seq<Validator>, k: nat, share: u64)
    requires RegistryInvariant(st) && RegistryInvariant(s)
    requires ActiveMembers(others, st.currentSet.validators) && k < |others| && OnlyPaid(st, s, others, k)
    requires s.currentSet.totalStake + share < TWO_64
    ensures others[k].id in s.validators && s.validators[others[k].id].stake + share < TWO_64
    ensures forall v :: v in s.currentSet.validators && v.id == others[k].id ==> v.stake + share < TWO_64
  {
    RecipientUntouched(st, s, others, k);
    assert others[k] in others;
    var f := FirstIndex(s.currentSet.validators, others[k].id);
    ActiveBelowTotal(s.currentSet, f);
    OneEntry(s.currentSet.validators, f);
  }

  lemma OneEntry(vs: seq<Validator>, f: nat)
    requires DistinctIds(vs) && f < |vs|
    ensures forall v :: v in vs && v.id == vs[f].id ==> v == vs[f]
  {
  }

  lemma GainOne(st: RegistryState, s: RegistryState, others: seq<Validator>, gains: seq<int>, k: nat, share: u64)
    requires RegistryInvariant(st) && RegistryInvariant(s) && k < |others| == |gains|
    requires ActiveMembers(others, st.currentSet.validators) && OnlyPaid(st, s, others, k)
    requires gains[k] == share && s.currentSet.totalStake + share < TWO_64
    requires Gained(st, s, others, gains, k)
    ensures Gained(st, if share > 0 then WithBond(s, others[k].id, share) else s, others, gains, k + 1)
  {
    if share > 0 {
      BondHere(st, s, others, k, share);
      OthersKeep(st, s, others, gains, k, share);
      GainedSnoc(st, WithBond(s, others[k].id, share), others, gains, k);
    } else {
      NotYetPaid(st, s, others, k);
      GainedSnoc(st, s, others, gains, k);
    }
  }

  lemma GainedSnoc(st: RegistryState, s: RegistryState, others: seq<Validator>, gains: seq<int>, k: nat)
    requires k < |others| == |gains| && Gained(st, s, others, gains, k)
    requires GainedBy(st, s, others[k].id, gains[k])
    ensures Gained(st, s, others, gains, k + 1)
  {
  }

  lemma OthersKeep(st: RegistryState, s: RegistryState, others: seq<Validator>, gains: seq<int>, k: nat, share: u64)
    requires k < |others| == |gains| && DistinctIds(others) && Gained(st, s, others, gains, k)
    ensures Gained(st, WithBond(s, others[k].id, share), others, gains, k)
  {
    forall j | 0 <= j < k ensures GainedBy(st, WithBond(s, others[k].id, share), others[j].id, gains[j]) {
      BondElsewhere(st, s, others[k].id, share, others[j].id, gains[j]);
    }
  }

  /** What the k-th recipient is paid on top of what was paid before, and that it fits. */
  lemma NextPayment(st: RegistryState, others: seq<Validator>, total: u64, amount: u64, k: nat) returns (paid: int)
    requires DealFits(st, others, total, amount) && k < |others|
    ensures PaidOut(st, Dealing(st, others, total, amount, k), others, k, paid)
    ensures st.currentSet.totalStake + paid + ShareAt(StakesOf(others), total, amount, k) < TWO_64
  {
    DealingEffect(st, others, total, amount, k);
    SharesBelow(StakesOf(others), total, amount, k);
    paid := SumSeq(AllShares(StakesOf(others), total, amount)[..k]);
  }

  lemma PaymentGains(st: RegistryState, s: RegistryState, s': RegistryState, others: seq<Validator>, gains: seq<int>,
                     k: nat, paid: int, share: u64)
    requires RegistryInvariant(st) && ActiveMembers(others, st.currentSet.validators)
    requires k < |others| == |gains| && gains[k] == share
    requires PaidOut(st, s, others, k, paid) && st.currentSet.totalStake + paid + share < TWO_64
    requires s' == if share > 0 then WithBond(s, others[k].id, share) else s
    requires Gained(st, s, others, gains, k)
    ensures Gained(st, s', others, gains, k + 1)
  {
    GainOne(st, s, others, gains, k, share);
  }

  lemma DealingNext(st: RegistryState, others: seq<Validator>, total: u64, amount: u64, gains: seq<int>, k: nat)
    requires DealFits(st, others, total, amount) && k < |others|
    requires gains == AllShares(StakesOf(others), total, amount)
    requires Gained(st, Dealing(st, others, total, amount, k), others, gains, k)
    ensures Gained(st, Dealing(st, others, total, amount, k + 1), others, gains, k + 1)
  {
    var paid := NextPayment(st, others, total, amount, k);
    DealingStep(st, others, total, amount, k);
    PaymentGains(st, Dealing(st, others, total, amount, k), Dealing(st, others, total, amount, k + 1), others, gains,
                 k, paid, ShareAt(StakesOf(others), total, amount, k));
  }

  lemma DealingGains(st: RegistryState, others: seq<Validator>, total: u64, amount: u64, gains: seq<int>)
    requires DealFits(st, others, total, amount) && gains == AllShares(StakesOf(others), total, amount)
    ensures Gained(st, Dealing(st, others, total, amount, |others|), others, gains, |others|)
  {
    var holds := (k: nat) => k <= |others| ==> Gained(st, Dealing(st, others, total, amount, k), others, gains, k);
    forall k: nat | k < |others| && holds(k) ensures holds(k + 1) {
      DealingNext(st, others, total, amount, gains, k);
    }
    ByCounting(holds, |others|);
  }

  // ---- Distribution ----

  /** In both copies, the validators at these places gain what is listed, and nobody else
      but this one changes. */
  ghost predicate PaysAt(st: RegistryState, s: RegistryState, id: ValidatorId, places: seq<nat>, gains: seq<int>) {
    var vs := st.currentSet.validators;
    && |gains| == |places|
    && (forall k :: 0 <= k < |places| ==> places[k] < |vs| && GainedBy(st, s, vs[places[k]].id, gains[k]))
    && s.validators.Keys == st.validators.Keys
    && (forall w :: w in st.validators && w != id && (forall k :: 0 <= k < |places| ==> vs[places[k]].id != w) ==>
          GainedBy(st, s, w, 0))
  }

  lemma SharesSplit(stakes: seq<u64>, amount: u64, total: u64)
    requires stakes != [] && 0 < total == StakeSum(stakes)
    ensures Proportional(AllShares(stakes, total, amount), stakes, amount)
  {
    SharesExact(stakes, total, amount);
    SumsAgree(stakes);
  }

  lemma UnpaidKeep(st: RegistryState, s: RegistryState, others: seq<Validator>, w: ValidatorId)
    requires OnlyPaid(st, s, others, |others|) && w in st.validators
    requires forall j :: 0 <= j < |others| ==> others[j].id != w
    ensures GainedBy(st, s, w, 0)
  {
  }

  /** `places` are those of the recipients in the snapshot. */
  ghost predicate Listed(st: RegistryState, id: ValidatorId, others: seq<Validator>, places: seq<nat>) {
    var vs := st.currentSet.validators;
    && |places| == |others|
    && forall k :: 0 <= k < |places| ==> places[k] < |vs| && vs[places[k]] == others[k] && others[k].id != id
  }

  lemma RecipientsListed(st: RegistryState, id: ValidatorId, others: seq<Validator>, places: seq<nat>)
    requires Picks(places, st.currentSet.validators, ActiveBut(id), others)
    ensures Listed(st, id, others, places)
  {
    assert forall k :: 0 <= k < |places| ==> places[k] in places;
  }

  lemma GainedIsPaid(st: RegistryState, s: RegistryState, id: ValidatorId, others: seq<Validator>, gains: seq<int>,
                     places: seq<nat>)
    requires Listed(st, id, others, places) && |gains| == |others|
    requires Gained(st, s, others, gains, |others|) && OnlyPaid(st, s, others, |others|)
    ensures PaysAt(st, s, id, places, gains) && (id in st.validators ==> GainedBy(st, s, id, 0))
  {
    var vs := st.currentSet.validators;
    forall w | w in st.validators && (forall k :: 0 <= k < |places| ==> vs[places[k]].id != w)
      ensures GainedBy(st, s, w, 0)
    {
      forall j | 0 <= j < |others| ensures others[j].id != w {
        assert vs[places[j]] == others[j];
      }
      UnpaidKeep(st, s, others, w);
    }
  }

  lemma DealtOut(st: RegistryState, id: ValidatorId, amount: u64, others: seq<Validator>, total: u64, places: seq<nat>)
    requires DealFits(st, others, total, amount) && Listed(st, id, others, places)
    ensures var s := Dealing(st, others, total, amount, |others|);
            && PaysAt(st, s, id, places, AllShares(StakesOf(others), total, amount))
            && (id in st.validators ==> GainedBy(st, s, id, 0))
  {
    DealtInFull(st, others, total, amount);
    DealingGains(st, others, total, amount, AllShares(StakesOf(others), total, amount));
    GainedIsPaid(st, Dealing(st, others, total, amount, |others|), id, others,
                 AllShares(StakesOf(others), total, amount), places);
  }

  lemma {:induction false} SumsAgree(stakes: seq<u64>)
    ensures SumSeq(stakes) == StakeSum(stakes)
  {
    if stakes != [] { SumsAgree(stakes[..|stakes| - 1]); }
  }

  lemma NobodyGains(st: RegistryState, id: ValidatorId, others: seq<Validator>, places: seq<nat>, gains: seq<int>)
    requires Listed(st, id, others, places)
    requires |gains| == |places| && forall k :: 0 <= k < |places| ==> gains[k] == 0
    requires forall v :: v in others ==> v.id in st.validators
    ensures PaysAt(st, st, id, places, gains) && (id in st.validators ==> GainedBy(st, st, id, 0))
  {
    forall k | 0 <= k < |places| ensures GainedBy(st, st, st.currentSet.validators[places[k]].id, 0) {
      assert others[k] in others;
    }
  }

  lemma ZeroPart(stake: int, amount: int, total: int)
    requires amount == 0 && total > 0
    ensures stake * amount / total == 0
  {
    assert stake * 0 == 0;
  }

  lemma NothingSplit(gains: seq<int>, stakes: seq<u64>, amount: nat)
    requires StakeSum(stakes) == 0 || amount == 0
    requires |gains| == |stakes| && forall k :: 0 <= k < |gains| ==> gains[k] == 0
    ensures Proportional(gains, stakes, amount)
  {
    SumsAgree(stakes);
    NothingShared(gains);
    if StakeSum(stakes) > 0 {
      forall k | 0 <= k < |gains| - 1 ensures gains[k] == stakes[k] * amount / SumSeq(stakes) {
        ZeroPart(stakes[k], amount, SumSeq(stakes));
      }
    }
  }

  /** How the amount is split over these stakes: dealt out, or not at all. */
  lemma SplitGains(stakes: seq<u64>, amount: u64) returns (gains: seq<int>)
    requires StakeSum(stakes) < TWO_64
    ensures Proportional(gains, stakes, amount)
    ensures if StakeSum(stakes) > 0 && amount > 0 then gains == AllShares(stakes, StakeSum(stakes), amount)
            else |gains| == |stakes| && forall k :: 0 <= k < |gains| ==> gains[k] == 0
  {
    if StakeSum(stakes) > 0 && amount > 0 {
      gains := AllShares(stakes, StakeSum(stakes), amount);
      SharesSplit(stakes, amount, StakeSum(stakes));
    } else {
      gains := seq(|stakes|, _ => 0);
      NothingSplit(gains, stakes, amount);
    }
  }

  lemma DistributedIs(st: RegistryState, id: ValidatorId, amount: u64, others: seq<Validator>)
    requires RegistryInvariant(st) && others == OthersAmong(ActiveOf(st.currentSet.validators), id)
    ensures ActiveMembers(others, st.currentSet.validators)
    ensures StakeSum(StakesOf(others)) < TWO_64
    ensures var total := StakeSum(StakesOf(others));
            Distributed(st, id, amount)
            == if total > 0 && amount > 0 then Dealing(st, others, total, amount, |others|) else st
  {
    RecipientsOf(st, id);
  }

  /** Distribution pays the gains, whatever stake there is among the others. */
  lemma DistributedPays(st: RegistryState, id: ValidatorId, amount: u64, others: seq<Validator>, places: seq<nat>,
                        gains: seq<int>)
    requires RegistryInvariant(st) && st.currentSet.totalStake + amount < TWO_64
    requires others == OthersAmong(ActiveOf(st.currentSet.validators), id) && Listed(st, id, others, places)
    requires StakeSum(StakesOf(others)) < TWO_64
    requires var stakes := StakesOf(others);
             if StakeSum(stakes) > 0 && amount > 0 then gains == AllShares(stakes, StakeSum(stakes), amount)
             else |gains| == |stakes| && forall k :: 0 <= k < |gains| ==> gains[k] == 0
    ensures PaysAt(st, Distributed(st, id, amount), id, places, gains)
    ensures id in st.validators ==> GainedBy(st, Distributed(st, id, amount), id, 0)
  {
    DistributedIs(st, id, amount, others);
    if StakeSum(StakesOf(others)) > 0 && amount > 0 {
      DealtOut(st, id, amount, others, StakeSum(StakesOf(others)), places);
    } else {
      NobodyGains(st, id, others, places, gains);
    }
  }

  lemma {:induction false} NothingShared(gains: seq<int>)
    requires forall k :: 0 <= k < |gains| ==> gains[k] == 0
    ensures SumSeq(gains) == 0
  {
    if gains != [] { NothingShared(gains[..|gains| - 1]); }
  }

  // ---- The whole slash ----

  ghost predicate Offends(before: Validator, after: Validator, taken: nat, reason: SlashReason) {
    && after.stake == before.stake - taken
    && after == before.(stake := after.stake,
                        status := if reason == SlashReason.Downtime then before.status else Tombstoned)
  }

  /** The offender loses what is taken, in both copies, and a safety violation marks it
      Tombstoned; nothing else about it changes. */
  ghost predicate OffenderPays(st: RegistryState, s: RegistryState, id: ValidatorId, taken: nat, reason: SlashReason) {
    && id in st.validators && id in s.validators && Offends(st.validators[id], s.validators[id], taken, reason)
    && |s.currentSet.validators| == |st.currentSet.validators|
    && forall i :: 0 <= i < |st.currentSet.validators| && st.currentSet.validators[i].id == id ==>
         Offends(st.currentSet.validators[i], s.currentSet.validators[i], taken, reason)
  }

  lemma PunishElsewhere(st: RegistryState, s: RegistryState, id: ValidatorId, penalty: u64, reason: SlashReason,
                        w: ValidatorId, gain: int)
    requires GainedBy(st, s, w, gain) && w != id && id in s.validators
    ensures GainedBy(st, Punished(s, id, penalty, reason), w, gain)
  {
  }

  lemma SlashHere(st: RegistryState, s: RegistryState, id: ValidatorId, penalty: u64)
    requires GainedBy(st, s, id, 0) && RegistryInvariant(s) && penalty <= s.validators[id].stake
    ensures OffenderPays(st, WithSlash(s, id, penalty), id, penalty, SlashReason.Downtime)
    ensures DistinctIds(WithSlash(s, id, penalty).currentSet.validators)
  {
    SaturationUnreachable(s, id);
  }

  lemma TombstoneHere(st: RegistryState, s: RegistryState, id: ValidatorId, penalty: u64, reason: SlashReason)
    requires OffenderPays(st, s, id, penalty, SlashReason.Downtime) && DistinctIds(s.currentSet.validators)
    requires reason != SlashReason.Downtime
    ensures OffenderPays(st, WithUpdate(s, id, None, None, Some(Tombstoned)), id, penalty, reason)
  {
  }

  lemma PunishHere(st: RegistryState, s: RegistryState, id: ValidatorId, penalty: u64, reason: SlashReason)
    requires GainedBy(st, s, id, 0) && RegistryInvariant(s) && penalty <= s.validators[id].stake
    ensures OffenderPays(st, Punished(s, id, penalty, reason), id, penalty, reason)
  {
    SlashHere(st, s, id, penalty);
    if reason != SlashReason.Downtime {
      TombstoneHere(st, WithSlash(s, id, penalty), id, penalty, reason);
    }
  }

  lemma PunishedPays(st: RegistryState, s: RegistryState, id: ValidatorId, penalty: u64, reason: SlashReason,
                     places: seq<nat>, gains: seq<int>)
    requires PaysAt(st, s, id, places, gains) && id in s.validators
    requires forall k :: 0 <= k < |places| ==> st.currentSet.validators[places[k]].id != id
    ensures PaysAt(st, Punished(s, id, penalty, reason), id, places, gains)
  {
    var vs := st.currentSet.validators;
    var s' := Punished(s, id, penalty, reason);
    forall k | 0 <= k < |places| ensures GainedBy(st, s', vs[places[k]].id, gains[k]) {
      PunishElsewhere(st, s, id, penalty, reason, vs[places[k]].id, gains[k]);
    }
    forall w | w in st.validators && w != id && (forall k :: 0 <= k < |places| ==> vs[places[k]].id != w)
      ensures GainedBy(st, s', w, 0)
    {
      PunishElsewhere(st, s, id, penalty, reason, w, 0);
    }
  }

  ghost predicate Shared(st: RegistryState, s: RegistryState, id: ValidatorId, taken: nat, reason: SlashReason,
                         places: seq<nat>, gains: seq<int>)
  {
    PaysAt(st, s, id, places, gains) && OffenderPays(st, s, id, taken, reason)
  }

  lemma SlashPays(st: RegistryState, id: ValidatorId, taken: u64, reason: SlashReason,
                  others: seq<Validator>, places: seq<nat>) returns (gains: seq<int>)
    requires RegistryInvariant(st) && id in st.validators && taken <= st.validators[id].stake
    requires st.currentSet.totalStake + taken < TWO_64
    requires others == OthersAmong(ActiveOf(st.currentSet.validators), id) && Listed(st, id, others, places)
    ensures Proportional(gains, StakesOf(others), taken - taken / 2)
    ensures Shared(st, Punished(Distributed(st, id, taken - taken / 2), id, taken, reason), id, taken, reason,
                   places, gains)
  {
    var amount := taken - taken / 2;
    DistributedIs(st, id, amount, others);
    gains := SplitGains(StakesOf(others), amount);
    DistributedPays(st, id, amount, others, places, gains);
    DistributedEffect(st, id, amount);
    var mid := Distributed(st, id, amount);
    PunishHere(st, mid, id, taken, reason);
    PunishedPays(st, mid, id, taken, reason, places, gains);
  }

  lemma StakesListed(st: RegistryState, id: ValidatorId, others: seq<Validator>, places: seq<nat>)
    requires Listed(st, id, others, places)
    ensures StakesAt(st.currentSet.validators, places, StakesOf(others))
  {
  }

  lemma EventPays(st: RegistryState, event: SlashingEvent, taken: u64, others: seq<Validator>, places: seq<nat>)
      returns (gains: seq<int>)
    requires RegistryInvariant(st) && event.validator in st.validators && event.penalty > 0
    requires taken == Taken(st, event) && st.currentSet.totalStake + taken < TWO_64
    requires others == OthersAmong(ActiveOf(st.currentSet.validators), event.validator)
    requires Listed(st, event.validator, others, places)
    ensures Proportional(gains, StakesOf(others), taken - taken / 2)
    ensures Shared(st, AfterSlashing(st, event), event.validator, taken, event.reason, places, gains)
  {
    gains := SlashPays(st, event.validator, taken, event.reason, others, places);
    SlashIs(st, event, taken, 0);
  }

  /** Everything an applied slash does, on the event and the registry before it. It takes
      the penalty, or all the offender has; half, rounded up, goes to the other Active
      validators in proportion to stake, the last one getting the rest; nobody else
      changes, in either copy; the supply falls by the other half, down to 0. */
  lemma SlashExact(st: RegistryState, event: SlashingEvent, taken: u64)
      returns (places: seq<nat>, stakes: seq<int>, gains: seq<int>)
    requires RegistryInvariant(st) && event.validator in st.validators && event.penalty > 0
    requires taken == Taken(st, event) && st.currentSet.totalStake + taken < TWO_64
    ensures PlacesOf(places, st.currentSet.validators, ActiveBut(event.validator))
    ensures StakesAt(st.currentSet.validators, places, stakes)
    ensures Proportional(gains, stakes, taken - taken / 2)
    ensures Shared(st, AfterSlashing(st, event), event.validator, taken, event.reason, places, gains)
  {
    var others := OthersAmong(ActiveOf(st.currentSet.validators), event.validator);
    places := RecipientPlaces(st.currentSet.validators, event.validator);
    RecipientsListed(st, event.validator, others, places);
    stakes := StakesOf(others);
    StakesListed(st, event.validator, others, places);
    gains := EventPays(st, event, taken, others, places);
  }

  /** The supply falls by the burned half of what is taken, down to 0. */
  lemma SlashSupply(st: RegistryState, event: SlashingEvent, supply: u64)
    requires event.validator in st.validators && event.penalty > 0
    ensures SupplyAfter(st, event, supply)
         == if Taken(st, event) / 2 <= supply then supply - Taken(st, event) / 2 else 0
  {
  }

  /** An unknown validator or a zero penalty changes nothing. */
  lemma NoSlash(st: RegistryState, event: SlashingEvent, supply: u64)
    requires event.validator !in st.validators || event.penalty == 0
    ensures AfterSlashing(st, event) == st && SupplyAfter(st, event, supply) == supply
  {
  }

  /** From two signatures of one validator for two blocks at one height to the tombstone:
      whatever positive penalty is set, applying the flagged event takes it, or all the
      validator has, and tombstones the validator in the registry and in the snapshot. */
  lemma DoubleSignTombstones(st: RegistryState, a: SignatureRecord, b: SignatureRecord, penalty: u64, taken: u64)
    requires a.validator == b.validator && a.height == b.height && a.hash != b.hash
    requires RegistryInvariant(st) && a.validator in st.validators && penalty > 0
    requires taken == (if penalty <= st.validators[a.validator].stake then penalty
                       else st.validators[a.validator].stake)
    requires st.currentSet.totalStake + taken < TWO_64
    ensures DetectDoubleSign(a, b).Some?
    ensures OffenderPays(st, AfterSlashing(st, DetectDoubleSign(a, b).value.(penalty := penalty)), a.validator, taken,
                         DoubleSign)
  {
    var flagged := SlashingEvent(a.validator, a.height, DoubleSign, 0, []);
    DoubleSignEvent(a, b, flagged);
    OffenderOf(st, flagged.(penalty := penalty), taken);
  }

  lemma OffenderOf(st: RegistryState, event: SlashingEvent, taken: u64)
    requires RegistryInvariant(st) && event.validator in st.validators && event.penalty > 0
    requires taken == Taken(st, event) && st.currentSet.totalStake + taken < TWO_64
    ensures OffenderPays(st, AfterSlashing(st, event), event.validator, taken, event.reason)
  {
    var places, stakes, gains := SlashExact(st, event, taken);
  }
}
