/** What each registry operation changes, in both copies, and which keys a validator
    has after any run. */
module RegistrySteps {
  import opened Types
  import opened Places
  import opened StakeWeight
  import opened ValidatorRegistry
  import opened RegistryRuns
  import opened EpochSelection

  // ---- Unbonding ----

  /** Unbonding does something exactly when the amount is there and what stays bonded is
      nothing or at least the minimum: then the stake falls by it, a validator left with
      nothing goes to Standby, and one request for it falls due a period later. */
  lemma UnbondExact(cfg: Config, st: RegistryState, id: ValidatorId, amount: u64, height: u64)
    ensures var st' := WithUnbond(cfg, st, id, amount, height);
            && (st' != st <==>
                  && id in st.validators && amount <= st.validators[id].stake
                  && var left := st.validators[id].stake - amount; left == 0 || left >= cfg.minimumBond)
            && (st' != st ==>
                  && id in st'.validators && st'.validators[id].stake == st.validators[id].stake - amount
                  && st'.validators[id] == st.validators[id].(
                       stake := st'.validators[id].stake,
                       status := if amount == st.validators[id].stake then Standby else st.validators[id].status)
                  && st'.validators == st.validators[id := st'.validators[id]]
                  && st'.currentSet == st.currentSet
                  && st'.unbonding
                     == st.unbonding + [UnbondingRequest(id, amount, (height + cfg.unbondingPeriod) % TWO_64)])
  {
    var st' := WithUnbond(cfg, st, id, amount, height);
    if MayUnbond(cfg, st, id, amount) {
      assert |st'.unbonding| == |st.unbonding| + 1;
    }
  }

  ghost function DueBy(height: u64): UnbondingRequest -> bool {
    (r: UnbondingRequest) => r.completionHeight <= height
  }

  ghost function DueAfter(height: u64): UnbondingRequest -> bool {
    (r: UnbondingRequest) => r.completionHeight > height
  }

  ghost function PendingAt(height: u64): seq<UnbondingRequest> -> seq<UnbondingRequest> {
    (reqs: seq<UnbondingRequest>) => Pending(reqs, height)
  }

  ghost function CompletedAt(height: u64): seq<UnbondingRequest> -> seq<UnbondingRequest> {
    (reqs: seq<UnbondingRequest>) => Completed(reqs, height)
  }

  lemma QueueFilters(height: u64)
    ensures Filters(PendingAt(height), DueAfter(height)) && Filters(CompletedAt(height), DueBy(height))
  {
    forall init, r
      ensures Pending(init + [r], height) == if DueAfter(height)(r) then Pending(init, height) + [r]
                                             else Pending(init, height)
      ensures Completed(init + [r], height) == if DueBy(height)(r) then Completed(init, height) + [r]
                                               else Completed(init, height)
    {
      assert (init + [r])[..|init|] == init;
      assert Pending(init, height) + [] == Pending(init, height);
      assert Completed(init, height) + [] == Completed(init, height);
    }
  }

  /** Processing returns the requests due by its height and keeps those due later, each
      list in the order of the queue, and touches nothing else. */
  lemma ProcessExact(cfg: Config, st: RegistryState, height: u64) returns (kept: seq<nat>, due: seq<nat>)
    ensures Picks(kept, st.unbonding, DueAfter(height), WithProcessed(st, height).unbonding)
    ensures Picks(due, st.unbonding, DueBy(height), Completed(st.unbonding, height))
    ensures WithProcessed(st, height) == st.(unbonding := WithProcessed(st, height).unbonding)
  {
    QueueFilters(height);
    kept := FilterPicks(PendingAt(height), DueAfter(height), st.unbonding);
    due := FilterPicks(CompletedAt(height), DueBy(height), st.unbonding);
  }

  // ---- Bonding and slashing ----

  /** In a list with one entry for each id, only this id's entry differs. */
  ghost predicate OnlyEntry(vs: seq<Validator>, vs': seq<Validator>, id: ValidatorId) {
    && |vs'| == |vs|
    && forall i :: 0 <= i < |vs| && vs[i].id != id ==> vs'[i] == vs[i]
  }

  /** Bonding to a known validator adds the amount to its stake in both copies, and to the
      total if its entry is Active, each modulo 2^64; to an unknown one it does nothing. */
  lemma BondExact(st: RegistryState, id: ValidatorId, amount: u64)
    requires Structured(st)
    ensures id !in st.validators ==> WithBond(st, id, amount) == st
    ensures id in st.validators ==>
              var st', vs := WithBond(st, id, amount), st.currentSet.validators;
              var raised := (v: Validator) => v.(stake := (v.stake + amount) % TWO_64);
              && st'.validators == st.validators[id := raised(st.validators[id])]
              && st'.unbonding == st.unbonding && OnlyEntry(vs, st'.currentSet.validators, id)
              && (forall i :: 0 <= i < |vs| && vs[i].id == id ==>
                    && st'.currentSet.validators[i] == raised(vs[i])
                    && st'.currentSet.totalStake
                       == if vs[i].status == Active then (st.currentSet.totalStake + amount) % TWO_64
                          else st.currentSet.totalStake)
  {
  }

  /** Slashing a known validator takes the amount, or all it has, from its stake in both
      copies, and from the total if its entry is Active; an unknown one is left alone. */
  lemma SlashExact(st: RegistryState, id: ValidatorId, amount: u64)
    requires RegistryInvariant(st)
    ensures id !in st.validators ==> WithSlash(st, id, amount) == st
    ensures id in st.validators ==>
              var st', vs := WithSlash(st, id, amount), st.currentSet.validators;
              var taken := if amount <= st.validators[id].stake then amount else st.validators[id].stake;
              && st'.validators == st.validators[id := st.validators[id].(stake := st.validators[id].stake - taken)]
              && st'.unbonding == st.unbonding && OnlyEntry(vs, st'.currentSet.validators, id)
              && (forall i :: 0 <= i < |vs| && vs[i].id == id ==>
                    && vs[i].stake >= taken
                    && st'.currentSet.validators[i] == vs[i].(stake := vs[i].stake - taken)
                    && st'.currentSet.totalStake
                       == st.currentSet.totalStake - if vs[i].status == Active then taken else 0)
  {
    if id in st.validators {
      SaturationUnreachable(st, id);
    }
  }

  // ---- Keys and status writes ----

  ghost function Or<T>(x: Option<T>, y: T): T {
    if x.Some? then x.value else y
  }

  /** An update writes what it is given, in both copies, and nothing else. */
  lemma UpdateExact(st: RegistryState, id: ValidatorId, ck: Option<PublicKey>, wk: Option<PublicKey>,
                    status: Option<ValidatorStatus>)
    requires Structured(st)
    ensures id !in st.validators ==> WithUpdate(st, id, ck, wk, status) == st
    ensures id in st.validators ==>
              var st', vs := WithUpdate(st, id, ck, wk, status), st.currentSet.validators;
              var written := (v: Validator) => v.(consensusKey := Or(ck, v.consensusKey),
                                                  withdrawalKey := Or(wk, v.withdrawalKey),
                                                  status := Or(status, v.status));
              && st'.validators == st.validators[id := written(st.validators[id])]
              && st'.unbonding == st.unbonding && OnlyEntry(vs, st'.currentSet.validators, id)
              && (forall i :: 0 <= i < |vs| && vs[i].id == id ==> st'.currentSet.validators[i] == written(vs[i]))
  {
  }

  /** The keys last given for a validator, in this run. */
  ghost function GivenKeys(cfg: Config, ops: seq<Op>, id: ValidatorId): (PublicKey, PublicKey) {
    if ops == [] then (0, 0)
    else
      var init, op := ops[..|ops| - 1], ops[|ops| - 1];
      NextKeys(Run(cfg, init), op, id, GivenKeys(cfg, init, id))
  }

  ghost function NextKeys(st: RegistryState, op: Op, id: ValidatorId, keys: (PublicKey, PublicKey))
    : (PublicKey, PublicKey)
  {
    if op.Add? && op.id == id && id !in st.validators then (op.ck, op.wk)
    else if op.Update? && op.id == id && id in st.validators then (Or(op.newCk, keys.0), Or(op.newWk, keys.1))
    else keys
  }

  ghost predicate HasKeys(v: Validator, keys: (PublicKey, PublicKey)) {
    v.consensusKey == keys.0 && v.withdrawalKey == keys.1
  }

  /** Both copies hold these keys. */
  ghost predicate KeysHeld(st: RegistryState, id: ValidatorId, keys: (PublicKey, PublicKey)) {
    && Structured(st)
    && (id in st.validators ==> HasKeys(st.validators[id], keys))
    && (forall v :: v in st.currentSet.validators && v.id == id ==> id in st.validators && HasKeys(v, keys))
  }

  lemma CheckKeepsKeys(cfg: Config, v: Validator, epoch: u64, blocks: u64)
    ensures var v' := Penalised(cfg, v, epoch, blocks);
            v'.consensusKey == v.consensusKey && v'.withdrawalKey == v.withdrawalKey
  {
  }

  lemma DowntimeKeepsKeysHeld(cfg: Config, st: RegistryState, epoch: u64, blocks: u64, id: ValidatorId,
                              keys: (PublicKey, PublicKey))
    requires KeysHeld(st, id, keys)
    ensures KeysHeld(WithDowntime(cfg, st, epoch, blocks), id, keys)
  {
    DowntimeKeepsKeys(cfg, st, epoch, blocks);
    if id in st.validators {
      CheckKeepsKeys(cfg, st.validators[id], epoch, blocks);
    }
  }

  lemma CheckedKeys(cfg: Config, st: RegistryState, epoch: u64, blocks: u64, id: ValidatorId,
                    keys: (PublicKey, PublicKey))
    requires id in st.validators && HasKeys(st.validators[id], keys)
    ensures var m := BeforeRanking(cfg, st, epoch, blocks).validators; id in m && HasKeys(m[id], keys)
  {
    if epoch > 1 {
      CheckKeepsKeys(cfg, st.validators[id], epoch - 1, blocks);
    }
  }

  lemma EpochEntryKeys(cfg: Config, st: RegistryState, epoch: u64, blocks: u64, id: ValidatorId,
                       keys: (PublicKey, PublicKey))
    requires Keyed(st.validators) && id in st.validators && HasKeys(st.validators[id], keys)
    ensures var m := WithEpoch(cfg, st, epoch, blocks).validators; id in m && HasKeys(m[id], keys)
  {
    CheckedKeys(cfg, st, epoch, blocks, id, keys);
    EpochPlaces(cfg, st, epoch, blocks, id);
  }

  lemma SameInBoth(st: RegistryState, id: ValidatorId, keys: (PublicKey, PublicKey))
    requires Structured(st) && (id in st.validators ==> HasKeys(st.validators[id], keys))
    requires forall v :: v in st.currentSet.validators ==> v.id in st.validators && st.validators[v.id] == v
    ensures KeysHeld(st, id, keys)
  {
  }

  lemma EpochKeepsKeysHeld(cfg: Config, st: RegistryState, epoch: u64, blocks: u64, id: ValidatorId,
                           keys: (PublicKey, PublicKey))
    requires KeysHeld(st, id, keys)
    ensures KeysHeld(WithEpoch(cfg, st, epoch, blocks), id, keys)
  {
    EpochSnapshot(cfg, st, epoch, blocks);
    if id in st.validators {
      EpochEntryKeys(cfg, st, epoch, blocks, id, keys);
    }
    SameInBoth(WithEpoch(cfg, st, epoch, blocks), id, keys);
  }

  lemma UpdateKeepsKeysHeld(st: RegistryState, changed: ValidatorId, ck: Option<PublicKey>, wk: Option<PublicKey>,
                            status: Option<ValidatorStatus>, id: ValidatorId, keys: (PublicKey, PublicKey))
    requires KeysHeld(st, id, keys) && Structured(WithUpdate(st, changed, ck, wk, status))
    ensures KeysHeld(WithUpdate(st, changed, ck, wk, status), id,
                     if changed == id && id in st.validators then (Or(ck, keys.0), Or(wk, keys.1)) else keys)
  {
    UpdateExact(st, changed, ck, wk, status);
  }

  lemma StepKeepsKeysHeld(cfg: Config, st: RegistryState, op: Op, id: ValidatorId, keys: (PublicKey, PublicKey))
    requires KeysHeld(st, id, keys) && Structured(Apply(cfg, st, op))
    ensures KeysHeld(Apply(cfg, st, op), id, NextKeys(st, op, id, keys))
  {
    match op
    case Update(changed, ck, wk, status) => UpdateKeepsKeysHeld(st, changed, ck, wk, status, id, keys);
    case Bond(changed, amount) => BondExact(st, changed, amount);
    case Slash(changed, amount) =>
    case Downtime(epoch, blocks) => DowntimeKeepsKeysHeld(cfg, st, epoch, blocks, id, keys);
    case Epoch(epoch, blocks) => EpochKeepsKeysHeld(cfg, st, epoch, blocks, id, keys);
    case _ =>
  }

  lemma KeysNext(cfg: Config, ops: seq<Op>, op: Op, id: ValidatorId)
    requires KeysHeld(Run(cfg, ops), id, GivenKeys(cfg, ops, id))
    ensures KeysHeld(Run(cfg, ops + [op]), id, GivenKeys(cfg, ops + [op], id))
  {
    assert (ops + [op])[..|ops|] == ops;
    StructureKept(cfg, Run(cfg, ops), op);
    StepKeepsKeysHeld(cfg, Run(cfg, ops), op, id, GivenKeys(cfg, ops, id));
  }

  /** In every run, the registry and the snapshot that quorums and signatures are checked
      against hold the same keys for a validator: those it was last given. */
  lemma KeysExact(cfg: Config, ops: seq<Op>, id: ValidatorId)
    ensures KeysHeld(Run(cfg, ops), id, GivenKeys(cfg, ops, id))
  {
    var holds := (s: seq<Op>) => KeysHeld(Run(cfg, s), id, GivenKeys(cfg, s, id));
    forall init, op | holds(init) ensures holds(init + [op]) {
      KeysNext(cfg, init, op, id);
    }
    ByAppending(holds, ops);
  }
}
