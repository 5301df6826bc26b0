/** Downtime over whole runs: what the violation counter counts, what each violation
    costs, and what the signing counters hold. */
module DowntimeRuns {
  import opened Types
  import opened Places
  import opened KeyOrder
  import opened StakeWeight
  import opened ValidatorRegistry
  import opened RegistryRuns
  import opened EpochSelection

  /** What one step's downtime check finds for one validator. */
  datatype Check = Unchecked | Good | Violation | Repeated

  /** The validator is in the registry and Active in the current snapshot. */
  ghost predicate Serving(st: RegistryState, id: ValidatorId) {
    id in st.validators && exists v :: v in st.currentSet.validators && v.id == id && v.status == Active
  }

  /** Explicit checks name their epoch; a transition above epoch 1 checks the one before. */
  ghost predicate HasCheck(op: Op) {
    op.Downtime? || (op.Epoch? && op.epoch > 1)
  }

  ghost function CheckedEpoch(op: Op): u64
    requires HasCheck(op)
  {
    if op.Downtime? then op.epoch else op.epoch - 1
  }

  /** `n` is the length of the current run of violations. A further check of the epoch
      that jailed the validator is no further violation. */
  ghost function CheckOf(cfg: Config, st: RegistryState, op: Op, id: ValidatorId, n: nat): Check {
    if !HasCheck(op) || op.blocks == 0 || !Serving(st, id) then Unchecked
    else if !cfg.belowThreshold(st.validators[id].signed, op.blocks) then Good
    else if n % TWO_64 > 0 && st.validators[id].status == Jailed
         && st.validators[id].jailedUntil == (CheckedEpoch(op) + 1) % TWO_64 then Repeated
    else Violation
  }

  /** A violation prolongs the run, a good check ends it. */
  ghost function NextStreak(check: Check, n: nat): nat {
    match check
    case Violation => n + 1
    case Good => 0
    case _ => n
  }

  /** The length of the current unbroken run of violations. */
  ghost function Streak(cfg: Config, ops: seq<Op>, id: ValidatorId): nat {
    if ops == [] then 0
    else
      var init := ops[..|ops| - 1];
      var n := Streak(cfg, init, id);
      NextStreak(CheckOf(cfg, Run(cfg, init), ops[|ops| - 1], id, n), n)
  }

  /** What a check with this finding does to the validator, the run before it being n long:
      the first violation jails it for an epoch, the second costs half a percent and the
      later ones one percent of its stake, and either puts it on Standby. */
  ghost predicate CheckedTo(v: Validator, v': Validator, check: Check, n: nat, epoch: u64) {
    match check
    case Unchecked => v' == v
    case Repeated => v' == v
    case Good => v' == v.(downtimeEpochs := 0)
    case Violation =>
      var count := n % TWO_64;
      if count == 0 then v' == v.(status := Jailed, jailedUntil := (epoch + 1) % TWO_64, downtimeEpochs := 1)
      else
        && v'.stake == v.stake - (if count == 1 then (v.stake * 5) % TWO_64 / 1000 else v.stake / 100)
        && v' == v.(stake := v'.stake, status := Standby, downtimeEpochs := (n + 1) % TWO_64)
  }

  lemma ServingIds(vs: seq<Validator>, id: ValidatorId)
    ensures id in IdsOf(ActiveOf(vs)) <==> exists v :: v in vs && v.id == id && v.status == Active
  {
  }

  lemma PenaltyByStreak(cfg: Config, v: Validator, epoch: u64, blocks: u64, n: nat, check: Check)
    requires v.downtimeEpochs == n % TWO_64
    requires check == if !cfg.belowThreshold(v.signed, blocks) then Good
                      else if n % TWO_64 > 0 && v.status == Jailed && v.jailedUntil == (epoch + 1) % TWO_64
                      then Repeated else Violation
    ensures CheckedTo(v, Penalised(cfg, v, epoch, blocks), check, n, epoch)
  {
    NextCount(n);
  }

  lemma NextCount(n: nat)
    ensures Wrap(n % TWO_64 + 1) == (n + 1) % TWO_64
  {
  }

  /** The state after the check of a step, before a transition ranks anyone. */
  ghost function AfterCheck(cfg: Config, st: RegistryState, op: Op): RegistryState {
    if HasCheck(op) then WithDowntime(cfg, st, CheckedEpoch(op), op.blocks) else st
  }

  lemma CheckEffect(cfg: Config, st: RegistryState, op: Op, id: ValidatorId, n: nat)
    requires Keyed(st.validators) && id in st.validators && HasCheck(op)
    requires st.validators[id].downtimeEpochs == n % TWO_64
    ensures id in AfterCheck(cfg, st, op).validators
    ensures CheckedTo(st.validators[id], AfterCheck(cfg, st, op).validators[id], CheckOf(cfg, st, op, id, n), n,
                      CheckedEpoch(op))
  {
    ServingIds(st.currentSet.validators, id);
    if op.blocks != 0 && Serving(st, id) {
      PenaltyByStreak(cfg, st.validators[id], CheckedEpoch(op), op.blocks, n, CheckOf(cfg, st, op, id, n));
    }
  }

  // ---- The transition ----

  /** The same validator at this rank after a transition: its signing counters are
      cleared, a jail term that has ended is lifted, and nothing else but the status
      changes. Never a tombstone or a remaining jail term. */
  ghost predicate PlacedTo(cfg: Config, v: Validator, v': Validator, rank: nat, epoch: u64) {
    var released := v.status == Jailed && v.jailedUntil <= epoch;
    && v' == v.(status := v'.status, jailedUntil := if released then 0 else v.jailedUntil, signed := 0, missed := 0)
    && v'.status == (if v.status == Tombstoned then Tombstoned
                     else if v.status == Jailed && !released then Jailed
                     else if rank < cfg.activeCount && v.stake >= cfg.minimumBond then Active
                     else Standby)
  }

  lemma PlacedExact(cfg: Config, v: Validator, i: nat, epoch: u64)
    ensures PlacedTo(cfg, v, Placed(cfg, v, i, epoch), i, epoch)
  {
  }

  /** One step of any kind on one validator: its check, then for a transition its
      placement by rank among the validators as checked. */
  ghost predicate StepEffect(cfg: Config, st: RegistryState, st': RegistryState, op: Op, id: ValidatorId, n: nat)
    requires id in st.validators
  {
    var m := AfterCheck(cfg, st, op).validators;
    && id in m && id in st'.validators
    && (if HasCheck(op) then CheckedTo(st.validators[id], m[id], CheckOf(cfg, st, op, id, n), n, CheckedEpoch(op))
        else m[id] == st.validators[id])
    && (if op.Epoch? then PlacedTo(cfg, m[id], st'.validators[id], Rank(m, m[id]), op.epoch)
        else if op.Downtime? then st'.validators[id] == m[id]
        else st'.validators[id].downtimeEpochs == m[id].downtimeEpochs)
  }

  lemma TransitionEffect(cfg: Config, st: RegistryState, op: Op, id: ValidatorId)
    requires Keyed(st.validators) && id in st.validators && op.Epoch?
    ensures var m, m' := AfterCheck(cfg, st, op).validators, Apply(cfg, st, op).validators;
            id in m && id in m' && PlacedTo(cfg, m[id], m'[id], Rank(m, m[id]), op.epoch)
  {
    EpochPlaces(cfg, st, op.epoch, op.blocks, id);
    var m := AfterCheck(cfg, st, op).validators;
    PlacedExact(cfg, m[id], Rank(m, m[id]), op.epoch);
  }

  lemma StepExact(cfg: Config, st: RegistryState, op: Op, id: ValidatorId, n: nat)
    requires Keyed(st.validators) && id in st.validators
    requires st.validators[id].downtimeEpochs == n % TWO_64
    ensures StepEffect(cfg, st, Apply(cfg, st, op), op, id, n)
  {
    if HasCheck(op) {
      CheckEffect(cfg, st, op, id, n);
    }
    if op.Epoch? {
      TransitionEffect(cfg, st, op, id);
    } else if !op.Downtime? {
      CountersKept(cfg, st, op, id);
    }
  }

  /** Adding is the only way in, and a newcomer is on Standby with every counter at 0. */
  lemma NewcomerExact(cfg: Config, st: RegistryState, op: Op, id: ValidatorId)
    requires Keyed(st.validators) && id !in st.validators
    ensures id in Apply(cfg, st, op).validators <==> op.Add? && op.id == id
    ensures op.Add? && op.id == id ==>
              Apply(cfg, st, op).validators[id] == Validator(id, op.ck, op.wk, op.stake, Standby, 0, 0, 0, 0)
  {
    match op
    case Downtime(epoch, blocks) =>
    case Epoch(epoch, blocks) => EpochSnapshot(cfg, st, epoch, blocks);
    case _ =>
  }

  /** Steps other than checks and transitions leave the counters alone, but for the
      signature a signing step records. */
  lemma CountersKept(cfg: Config, st: RegistryState, op: Op, id: ValidatorId)
    requires id in st.validators && !op.Downtime? && !op.Epoch?
    ensures id in Apply(cfg, st, op).validators
    ensures var v, v' := st.validators[id], Apply(cfg, st, op).validators[id];
            && v'.downtimeEpochs == v.downtimeEpochs && v'.missed == v.missed
            && v'.signed == if op.Sign? && op.id == id then Wrap(v.signed + 1) else v.signed
  {
    match op
    case Add(_, _, _, _) =>
    case Update(_, _, _, _) =>
    case Bond(_, _) =>
    case Unbond(_, _, _) =>
    case Process(_) =>
    case Sign(_) =>
    case Slash(_, _) =>
  }

  // ---- What the counter counts ----

  ghost predicate Counts(st: RegistryState, id: ValidatorId, n: nat) {
    if id in st.validators then st.validators[id].downtimeEpochs == n % TWO_64 else n == 0
  }

  lemma CheckCounts(v: Validator, v': Validator, check: Check, n: nat, epoch: u64)
    requires v.downtimeEpochs == n % TWO_64 && CheckedTo(v, v', check, n, epoch)
    ensures v'.downtimeEpochs == NextStreak(check, n) % TWO_64
    ensures v'.signed == v.signed && v'.missed == v.missed
  {
    NextCount(n);
  }

  lemma CounterStep(cfg: Config, st: RegistryState, op: Op, st': RegistryState, id: ValidatorId, n: nat, n': nat)
    requires Keyed(st.validators) && Counts(st, id, n)
    requires st' == Apply(cfg, st, op) && n' == NextStreak(CheckOf(cfg, st, op, id, n), n)
    ensures Counts(st', id, n')
  {
    if id !in st.validators {
      NewcomerExact(cfg, st, op, id);
    } else if op.Downtime? || op.Epoch? {
      StepExact(cfg, st, op, id, n);
      if HasCheck(op) {
        CheckCounts(st.validators[id], AfterCheck(cfg, st, op).validators[id], CheckOf(cfg, st, op, id, n), n,
                    CheckedEpoch(op));
      }
    } else {
      CountersKept(cfg, st, op, id);
    }
  }

  lemma StreakSnoc(cfg: Config, ops: seq<Op>, op: Op, id: ValidatorId)
    ensures Streak(cfg, ops + [op], id)
         == NextStreak(CheckOf(cfg, Run(cfg, ops), op, id, Streak(cfg, ops, id)), Streak(cfg, ops, id))
    ensures Run(cfg, ops + [op]) == Apply(cfg, Run(cfg, ops), op)
  {
    assert (ops + [op])[..|ops|] == ops;
  }

  lemma CounterNext(cfg: Config, ops: seq<Op>, op: Op, id: ValidatorId)
    requires Counts(Run(cfg, ops), id, Streak(cfg, ops, id))
    ensures Counts(Run(cfg, ops + [op]), id, Streak(cfg, ops + [op], id))
  {
    RunStructured(cfg, ops);
    StreakSnoc(cfg, ops, op, id);
    CounterStep(cfg, Run(cfg, ops), op, Run(cfg, ops + [op]), id, Streak(cfg, ops, id), Streak(cfg, ops + [op], id));
  }

  /** In every run, the counter is the length of the validator's current unbroken run of
      violations, modulo 2^64: checks while it is not Active and repeated checks of the
      epoch that jailed it do not count, a good check starts anew. */
  lemma CounterExact(cfg: Config, ops: seq<Op>, id: ValidatorId)
    ensures Counts(Run(cfg, ops), id, Streak(cfg, ops, id))
  {
    var holds := (s: seq<Op>) => Counts(Run(cfg, s), id, Streak(cfg, s, id));
    forall init, op | holds(init) ensures holds(init + [op]) {
      CounterNext(cfg, init, op, id);
    }
    ByAppending(holds, ops);
  }

  /** So in every run the next step costs what the position in the current run of
      violations says, and nothing on a good, repeated or uncounted check. */
  lemma PenaltyByRun(cfg: Config, ops: seq<Op>, op: Op, id: ValidatorId)
    requires id in Run(cfg, ops).validators
    ensures StepEffect(cfg, Run(cfg, ops), Run(cfg, ops + [op]), op, id, Streak(cfg, ops, id))
  {
    CounterExact(cfg, ops, id);
    RunStructured(cfg, ops);
    StepExact(cfg, Run(cfg, ops), op, id, Streak(cfg, ops, id));
    assert (ops + [op])[..|ops|] == ops;
  }

  // ---- The signing counters ----

  ghost function NextSignatures(st: RegistryState, op: Op, id: ValidatorId, n: nat): nat {
    if op.Epoch? then 0 else n + if op.Sign? && op.id == id && id in st.validators then 1 else 0
  }

  /** The signatures recorded since the last transition. */
  ghost function Signatures(cfg: Config, ops: seq<Op>, id: ValidatorId): nat {
    if ops == [] then 0
    else
      var init := ops[..|ops| - 1];
      NextSignatures(Run(cfg, init), ops[|ops| - 1], id, Signatures(cfg, init, id))
  }

  ghost predicate Signed(st: RegistryState, id: ValidatorId, n: nat) {
    if id in st.validators then st.validators[id].signed == n % TWO_64 && st.validators[id].missed == 0 else n == 0
  }

  lemma CheckSigns(cfg: Config, st: RegistryState, op: Op, id: ValidatorId, streak: nat)
    requires Keyed(st.validators) && id in st.validators && (op.Downtime? || op.Epoch?)
    requires st.validators[id].downtimeEpochs == streak % TWO_64
    ensures id in Apply(cfg, st, op).validators
    ensures var v, v' := st.validators[id], Apply(cfg, st, op).validators[id];
            if op.Epoch? then v'.signed == 0 == v'.missed else v'.signed == v.signed && v'.missed == v.missed
  {
    StepExact(cfg, st, op, id, streak);
    if op.Downtime? {
      CheckCounts(st.validators[id], AfterCheck(cfg, st, op).validators[id], CheckOf(cfg, st, op, id, streak), streak,
                  CheckedEpoch(op));
    }
  }

  ghost predicate SignsTo(st: RegistryState, st': RegistryState, op: Op, id: ValidatorId) {
    if id !in st.validators then
      id in st'.validators ==> st'.validators[id].signed == 0 == st'.validators[id].missed
    else
      && id in st'.validators
      && var v, v' := st.validators[id], st'.validators[id];
         if op.Epoch? then v'.signed == 0 == v'.missed
         else v'.missed == v.missed && v'.signed == if op.Sign? && op.id == id then Wrap(v.signed + 1) else v.signed
  }

  lemma StepSigns(cfg: Config, st: RegistryState, op: Op, id: ValidatorId, streak: nat)
    requires Keyed(st.validators) && Counts(st, id, streak)
    ensures SignsTo(st, Apply(cfg, st, op), op, id)
  {
    if id !in st.validators {
      NewcomerExact(cfg, st, op, id);
    } else if op.Downtime? || op.Epoch? {
      CheckSigns(cfg, st, op, id, streak);
    } else {
      CountersKept(cfg, st, op, id);
    }
  }

  lemma SignedStep(st: RegistryState, op: Op, st': RegistryState, id: ValidatorId, n: nat)
    requires Signed(st, id, n) && SignsTo(st, st', op, id)
    ensures Signed(st', id, NextSignatures(st, op, id, n))
  {
    NextCount(n);
  }

  lemma SignedNext(cfg: Config, ops: seq<Op>, op: Op, id: ValidatorId)
    requires Signed(Run(cfg, ops), id, Signatures(cfg, ops, id))
    ensures Signed(Run(cfg, ops + [op]), id, Signatures(cfg, ops + [op], id))
  {
    RunStructured(cfg, ops);
    CounterExact(cfg, ops, id);
    SignaturesSnoc(cfg, ops, op, id);
    StepSigns(cfg, Run(cfg, ops), op, id, Streak(cfg, ops, id));
    SignedStep(Run(cfg, ops), op, Run(cfg, ops + [op]), id, Signatures(cfg, ops, id));
  }

  /** In every run a validator's signing counter is the number of its signatures recorded
      since the last transition, modulo 2^64, and no block is ever recorded as missed. */
  lemma SignedExact(cfg: Config, ops: seq<Op>, id: ValidatorId)
    ensures Signed(Run(cfg, ops), id, Signatures(cfg, ops, id))
  {
    var holds := (s: seq<Op>) => Signed(Run(cfg, s), id, Signatures(cfg, s, id));
    forall init, op | holds(init) ensures holds(init + [op]) {
      SignedNext(cfg, init, op, id);
    }
    ByAppending(holds, ops);
  }

  lemma SignaturesSnoc(cfg: Config, ops: seq<Op>, op: Op, id: ValidatorId)
    ensures Signatures(cfg, ops + [op], id) == NextSignatures(Run(cfg, ops), op, id, Signatures(cfg, ops, id))
    ensures Run(cfg, ops + [op]) == Apply(cfg, Run(cfg, ops), op)
  {
    assert (ops + [op])[..|ops|] == ops;
  }

  // ---- The reported violators ----

  lemma {:induction false} ViolatorsListed(cfg: Config, m: map<ValidatorId, Validator>, active: set<ValidatorId>,
                                           ids: seq<ValidatorId>, blocks: u64)
    requires Keyed(m) && (forall i :: 0 <= i < |ids| ==> ids[i] in m) && Ascends(ids)
    ensures var r := ViolatorsAmong(cfg, m, active, ids, blocks);
            && Ascends(r)
            && forall id :: id in r <==> id in ids && id in active && cfg.belowThreshold(m[id].signed, blocks)
  {
    if ids != [] {
      var init, last := ids[..|ids| - 1], ids[|ids| - 1];
      ViolatorsListed(cfg, m, active, init, blocks);
      assert ids == init + [last];
      var before := ViolatorsAmong(cfg, m, active, init, blocks);
      forall i | 0 <= i < |before| ensures before[i] < last {
        assert before[i] in before;
        assert before[i] in init;
      }
    }
  }

  /** A check reports, in ascending order, exactly the Active validators that signed below
      the threshold, penalised by this check or before. */
  lemma ViolatorsExact(cfg: Config, st: RegistryState, blocks: u64)
    requires Keyed(st.validators)
    ensures Ascends(Violators(cfg, st, blocks))
    ensures forall id :: id in Violators(cfg, st, blocks) <==>
              blocks != 0 && Serving(st, id) && cfg.belowThreshold(st.validators[id].signed, blocks)
  {
    AscendingIsOrder(st.validators.Keys);
    if blocks != 0 {
      ViolatorsListed(cfg, st.validators, IdsOf(ActiveOf(st.currentSet.validators)), Ascending(st.validators.Keys),
                      blocks);
      forall id ensures id in IdsOf(ActiveOf(st.currentSet.validators))
                   <==> exists v :: v in st.currentSet.validators && v.id == id && v.status == Active
      {
        ServingIds(st.currentSet.validators, id);
      }
    }
  }
}
