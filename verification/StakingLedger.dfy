/** Where every bonded token is, over whole runs of the registry: bonded, waiting
    to be unbonded, released, or slashed. */
module StakingLedger {
  import opened Types
  import opened Sums
  import opened StakeWeight
  import opened Sorting
  import opened ValidatorRegistry
  import opened RegistryRuns
  import opened EpochSelection

  ghost function Stakes(m: map<ValidatorId, Validator>): map<nat, int> {
    map id | id in m :: m[id].stake
  }

  ghost function TotalBonded(m: map<ValidatorId, Validator>): int {
    SumMap(Stakes(m))
  }

  function Amounts(reqs: seq<UnbondingRequest>): nat {
    if reqs == [] then 0 else Amounts(reqs[..|reqs| - 1]) + reqs[|reqs| - 1].amount
  }

  /** What went in and out so far, booked step by step. */
  datatype Books = Books(bondedIn: nat, slashed: int, created: seq<UnbondingRequest>, released: seq<UnbondingRequest>)

  /** The stake one downtime penalty takes. */
  function PenaltyOf(cfg: Config, v: Validator, epoch: u64, blocks: u64): nat {
    if !Violates(cfg, v, blocks) then 0
    else if v.downtimeEpochs == 0 then 0
    else if v.status == Jailed && v.jailedUntil == Wrap(epoch + 1) then 0
    else if v.downtimeEpochs == 1 then Wrap(v.stake * 5) / 1000
    else v.stake / 100
  }

  ghost function DowntimeSlashed(cfg: Config, st: RegistryState, epoch: u64, blocks: u64): int {
    if blocks == 0 then 0
    else
      var active := IdsOf(ActiveOf(st.currentSet.validators));
      SumMap(map id | id in st.validators ::
               if st.validators[id].id in active then PenaltyOf(cfg, st.validators[id], epoch, blocks) else 0)
  }

  ghost function Slashed(cfg: Config, st: RegistryState, op: Op): int {
    match op
    case Slash(id, amount) =>
      if id !in st.validators then 0
      else if st.validators[id].stake < amount then st.validators[id].stake else amount
    case Downtime(epoch, blocks) => DowntimeSlashed(cfg, st, epoch, blocks)
    case Epoch(epoch, blocks) => if epoch > 1 then DowntimeSlashed(cfg, st, epoch - 1, blocks) else 0
    case _ => 0
  }

  function BondedIn(st: RegistryState, op: Op): nat {
    match op
    case Add(id, _, _, stake) => if id in st.validators then 0 else stake
    case Bond(id, amount) => if id in st.validators then amount else 0
    case _ => 0
  }

  function Created(cfg: Config, st: RegistryState, op: Op): seq<UnbondingRequest> {
    match op
    case Unbond(id, amount, height) =>
      if MayUnbond(cfg, st, id, amount) then [UnbondingRequest(id, amount, Wrap(height + cfg.unbondingPeriod))] else []
    case _ => []
  }

  function Released(st: RegistryState, op: Op): seq<UnbondingRequest> {
    match op
    case Process(height) => Completed(st.unbonding, height)
    case _ => []
  }

  ghost function Book(cfg: Config, st: RegistryState, op: Op, b: Books): Books {
    Books(b.bondedIn + BondedIn(st, op), b.slashed + Slashed(cfg, st, op),
          b.created + Created(cfg, st, op), b.released + Released(st, op))
  }

  /** The books after a run from the empty registry. */
  ghost function Booked(cfg: Config, ops: seq<Op>): Books {
    if ops == [] then Books(0, 0, [], [])
    else Book(cfg, Run(cfg, ops[..|ops| - 1]), ops[|ops| - 1], Booked(cfg, ops[..|ops| - 1]))
  }

  // ---- Sums under each step ----

  lemma BondedUpdate(m: map<ValidatorId, Validator>, id: ValidatorId, v: Validator)
    ensures TotalBonded(m[id := v]) == TotalBonded(m) - (if id in m then m[id].stake else 0) + v.stake
  {
    assert Stakes(m[id := v]) == Stakes(m)[id := v.stake];
    SumMapUpdate(Stakes(m), id, v.stake);
  }

  lemma {:induction false} SumMapPointwise(a: map<nat, int>, b: map<nat, int>, c: map<nat, int>)
    requires a.Keys == b.Keys == c.Keys && forall k :: k in a ==> a[k] == b[k] + c[k]
    ensures SumMap(a) == SumMap(b) + SumMap(c)
    decreases |a|
  {
    if k :| k in a {
      SumMapSplit(a, k);
      SumMapSplit(b, k);
      SumMapSplit(c, k);
      SumMapPointwise(a - {k}, b - {k}, c - {k});
    } else {
      assert a == map[] && b == map[] && c == map[];
    }
  }

  lemma PenaltyExact(cfg: Config, v: Validator, epoch: u64, blocks: u64)
    ensures v.stake == Penalised(cfg, v, epoch, blocks).stake + PenaltyOf(cfg, v, epoch, blocks)
  {
  }

  lemma DowntimeBooks(cfg: Config, st: RegistryState, epoch: u64, blocks: u64)
    ensures TotalBonded(st.validators)
         == TotalBonded(WithDowntime(cfg, st, epoch, blocks).validators) + DowntimeSlashed(cfg, st, epoch, blocks)
    ensures DowntimeSlashed(cfg, st, epoch, blocks) >= 0
  {
    if blocks != 0 {
      var active := IdsOf(ActiveOf(st.currentSet.validators));
      var m' := WithDowntime(cfg, st, epoch, blocks).validators;
      var p: map<nat, int> := map id | id in st.validators ::
        if st.validators[id].id in active then PenaltyOf(cfg, st.validators[id], epoch, blocks) else 0;
      forall id | id in st.validators ensures Stakes(st.validators)[id] == Stakes(m')[id] + p[id] {
        PenaltyExact(cfg, st.validators[id], epoch, blocks);
      }
      SumMapPointwise(Stakes(st.validators), Stakes(m'), p);
      SumMapBounds(p, 0);
    }
  }

  /** Ranking and placing move no stake. */
  lemma EpochBooks(cfg: Config, st: RegistryState, epoch: u64, blocks: u64)
    requires Keyed(st.validators)
    ensures TotalBonded(WithEpoch(cfg, st, epoch, blocks).validators)
         == TotalBonded(BeforeRanking(cfg, st, epoch, blocks).validators)
  {
    var m, m' := BeforeRanking(cfg, st, epoch, blocks).validators, WithEpoch(cfg, st, epoch, blocks).validators;
    EpochKeys(cfg, st, epoch, blocks);
    forall id | id in m ensures Stakes(m')[id] == Stakes(m)[id] {
      SelectionExact(cfg, st, epoch, blocks, id);
    }
    assert Stakes(m') == Stakes(m);
  }

  lemma EpochKeys(cfg: Config, st: RegistryState, epoch: u64, blocks: u64)
    requires Keyed(st.validators)
    ensures WithEpoch(cfg, st, epoch, blocks).validators.Keys
         == BeforeRanking(cfg, st, epoch, blocks).validators.Keys == st.validators.Keys
  {
    EpochSnapshot(cfg, st, epoch, blocks);
    RankingBaseKeyed(cfg, st, epoch, blocks);
  }

  lemma {:induction false} SplitAmounts(reqs: seq<UnbondingRequest>, height: u64)
    ensures Amounts(reqs) == Amounts(Pending(reqs, height)) + Amounts(Completed(reqs, height))
  {
    if reqs != [] {
      var init, r := reqs[..|reqs| - 1], reqs[|reqs| - 1];
      SplitAmounts(init, height);
      AmountsSnoc(Pending(init, height), r);
      AmountsSnoc(Completed(init, height), r);
      assert Pending(init, height) + [] == Pending(init, height);
      assert Completed(init, height) + [] == Completed(init, height);
    }
  }

  lemma SplitSnoc(reqs: seq<UnbondingRequest>, r: UnbondingRequest, height: u64)
    ensures Completed(reqs + [r], height) == Completed(reqs, height) + if r.completionHeight <= height then [r] else []
    ensures Pending(reqs + [r], height) == Pending(reqs, height) + if r.completionHeight <= height then [] else [r]
  {
    assert (reqs + [r])[..|reqs|] == reqs;
  }

  lemma {:induction false} SplitRequests(reqs: seq<UnbondingRequest>, height: u64)
    ensures multiset(reqs) == multiset(Pending(reqs, height)) + multiset(Completed(reqs, height))
  {
    if reqs != [] {
      var init, r := reqs[..|reqs| - 1], reqs[|reqs| - 1];
      SplitRequests(init, height);
      SplitSnoc(init, r, height);
      assert reqs == init + [r];
      OneMoreRequest(init, Pending(init, height), Completed(init, height), r, r.completionHeight <= height);
    }
  }

  lemma OneMoreRequest(all: seq<UnbondingRequest>, a: seq<UnbondingRequest>, b: seq<UnbondingRequest>,
                       r: UnbondingRequest, due: bool)
    requires multiset(all) == multiset(a) + multiset(b)
    ensures multiset(all + [r]) == multiset(a + if due then [] else [r]) + multiset(b + if due then [r] else [])
  {
    assert multiset(all + [r]) == multiset(all) + multiset{r};
  }

  lemma {:induction false} SplitByHeight(reqs: seq<UnbondingRequest>, height: u64)
    ensures forall r :: r in Completed(reqs, height) ==> r.completionHeight <= height
    ensures forall r :: r in Pending(reqs, height) ==> r.completionHeight > height
  {
    if reqs != [] {
      SplitByHeight(reqs[..|reqs| - 1], height);
    }
  }

  lemma AmountsSnoc(reqs: seq<UnbondingRequest>, r: UnbondingRequest)
    ensures Amounts(reqs + [r]) == Amounts(reqs) + r.amount
  {
    assert (reqs + [r])[..|reqs|] == reqs;
  }

  lemma {:induction false} AmountsAppend(a: seq<UnbondingRequest>, b: seq<UnbondingRequest>)
    ensures Amounts(a + b) == Amounts(a) + Amounts(b)
  {
    if b == [] {
      assert a + b == a;
    } else {
      AmountsAppend(a, b[..|b| - 1]);
      assert (a + b)[..|a + b| - 1] == a + b[..|b| - 1];
    }
  }

  /** This bond, if it is one, leaves the validator's stake below 2^64. */
  predicate Fits(st: RegistryState, op: Op) {
    op.Bond? && op.id in st.validators ==> st.validators[op.id].stake + op.amount < TWO_64
  }

  /** How often 2^64 disappears: once when a bond wraps the validator's stake. */
  function Lost(st: RegistryState, op: Op): nat {
    if Fits(st, op) then 0 else 1
  }

  lemma BondBooks(st: RegistryState, id: ValidatorId, amount: u64)
    ensures TotalBonded(WithBond(st, id, amount).validators) + TWO_64 * Lost(st, Bond(id, amount))
         == TotalBonded(st.validators) + if id in st.validators then amount else 0
  {
    if id in st.validators {
      BondedUpdate(st.validators, id, WithBond(st, id, amount).validators[id]);
    }
  }

  /** A step moves tokens between the four places; only a wrapping bond loses any. */
  ghost predicate Balanced(cfg: Config, st: RegistryState, op: Op) {
    TotalBonded(Apply(cfg, st, op).validators) + Amounts(Apply(cfg, st, op).unbonding)
    + Amounts(Released(st, op)) + Slashed(cfg, st, op) + TWO_64 * Lost(st, op)
    == TotalBonded(st.validators) + Amounts(st.unbonding) + BondedIn(st, op)
  }

  lemma EntryBalances(cfg: Config, st: RegistryState, op: Op)
    requires op.Add? || op.Update? || op.Sign?
    ensures Balanced(cfg, st, op)
  {
    var st' := Apply(cfg, st, op);
    if op.id in st'.validators {
      BondedUpdate(st.validators, op.id, st'.validators[op.id]);
    }
    if st'.validators != st.validators {
      assert st'.validators == st.validators[op.id := st'.validators[op.id]];
    }
  }

  lemma SlashBalances(cfg: Config, st: RegistryState, id: ValidatorId, amount: u64)
    ensures Balanced(cfg, st, Slash(id, amount))
  {
    if id in st.validators {
      BondedUpdate(st.validators, id, WithSlash(st, id, amount).validators[id]);
    }
  }

  lemma UnbondBalances(cfg: Config, st: RegistryState, id: ValidatorId, amount: u64, height: u64)
    ensures Balanced(cfg, st, Unbond(id, amount, height))
  {
    if MayUnbond(cfg, st, id, amount) {
      BondedUpdate(st.validators, id, WithUnbond(cfg, st, id, amount, height).validators[id]);
      AmountsSnoc(st.unbonding, UnbondingRequest(id, amount, Wrap(height + cfg.unbondingPeriod)));
    }
  }

  lemma BondBalances(cfg: Config, st: RegistryState, id: ValidatorId, amount: u64)
    ensures Balanced(cfg, st, Bond(id, amount))
  {
    BondBooks(st, id, amount);
  }

  lemma ProcessBalances(cfg: Config, st: RegistryState, height: u64)
    ensures Balanced(cfg, st, Process(height))
  {
    SplitAmounts(st.unbonding, height);
  }

  lemma DowntimeBalances(cfg: Config, st: RegistryState, epoch: u64, blocks: u64)
    ensures Balanced(cfg, st, Downtime(epoch, blocks))
  {
    DowntimeBooks(cfg, st, epoch, blocks);
  }

  lemma EpochSlashes(cfg: Config, st: RegistryState, epoch: u64, blocks: u64)
    ensures TotalBonded(st.validators)
         == TotalBonded(BeforeRanking(cfg, st, epoch, blocks).validators) + Slashed(cfg, st, Epoch(epoch, blocks))
  {
    if epoch > 1 { DowntimeBooks(cfg, st, epoch - 1, blocks); }
  }

  lemma EpochBalances(cfg: Config, st: RegistryState, epoch: u64, blocks: u64)
    requires Keyed(st.validators)
    ensures Balanced(cfg, st, Epoch(epoch, blocks))
  {
    EpochBooks(cfg, st, epoch, blocks);
    EpochSlashes(cfg, st, epoch, blocks);
    EpochSnapshot(cfg, st, epoch, blocks);
  }

  lemma StepBalances(cfg: Config, st: RegistryState, op: Op)
    requires Keyed(st.validators)
    ensures Balanced(cfg, st, op)
  {
    match op
    case Bond(id, amount) => BondBalances(cfg, st, id, amount);
    case Unbond(id, amount, height) => UnbondBalances(cfg, st, id, amount, height);
    case Process(height) => ProcessBalances(cfg, st, height);
    case Slash(id, amount) => SlashBalances(cfg, st, id, amount);
    case Downtime(epoch, blocks) => DowntimeBalances(cfg, st, epoch, blocks);
    case Epoch(epoch, blocks) => EpochBalances(cfg, st, epoch, blocks);
    case _ => EntryBalances(cfg, st, op);
  }

  /** How many bonds of a run wrapped. */
  function LostIn(cfg: Config, ops: seq<Op>): nat {
    if ops == [] then 0
    else LostIn(cfg, ops[..|ops| - 1]) + Lost(Run(cfg, ops[..|ops| - 1]), ops[|ops| - 1])
  }

  /** Every bond of the run fits when it is made. */
  ghost predicate BondsFit(cfg: Config, ops: seq<Op>) {
    ops == [] || (BondsFit(cfg, ops[..|ops| - 1]) && Fits(Run(cfg, ops[..|ops| - 1]), ops[|ops| - 1]))
  }

  lemma {:induction false} NothingLost(cfg: Config, ops: seq<Op>)
    ensures LostIn(cfg, ops) == 0 <==> BondsFit(cfg, ops)
  {
    if ops != [] {
      NothingLost(cfg, ops[..|ops| - 1]);
    }
  }

  /** The books of any run whatever, off by 2^64 for each bond that wrapped. */
  lemma {:induction false} LedgerExact(cfg: Config, ops: seq<Op>)
    ensures var st, b := Run(cfg, ops), Booked(cfg, ops);
            TotalBonded(st.validators) + Amounts(st.unbonding) + Amounts(b.released) + b.slashed
            + TWO_64 * LostIn(cfg, ops) == b.bondedIn
  {
    if ops == [] {
      assert Stakes(map[]) == map[];
    } else {
      var before := ops[..|ops| - 1];
      var st, op, b := Run(cfg, before), ops[|ops| - 1], Booked(cfg, before);
      LedgerExact(cfg, before);
      RunStructured(cfg, before);
      StepBalances(cfg, st, op);
      AmountsAppend(b.released, Released(st, op));
    }
  }

  /** Over any run: bonded + waiting + released + slashed is what was bonded in, if and
      only if no bond wrapped a validator's stake. */
  lemma LedgerBalances(cfg: Config, ops: seq<Op>)
    ensures var st, b := Run(cfg, ops), Booked(cfg, ops);
            (TotalBonded(st.validators) + Amounts(st.unbonding) + Amounts(b.released) + b.slashed == b.bondedIn)
            <==> BondsFit(cfg, ops)
  {
    LedgerExact(cfg, ops);
    NothingLost(cfg, ops);
  }

  lemma QueueStep(cfg: Config, st: RegistryState, op: Op)
    ensures op.Process? ==> Apply(cfg, st, op).unbonding == Pending(st.unbonding, op.height)
    ensures !op.Process? ==> Apply(cfg, st, op).unbonding == st.unbonding + Created(cfg, st, op)
  {
    assert st.unbonding + [] == st.unbonding;
  }

  lemma RequestsStep(st: RegistryState, op: Op, created: seq<UnbondingRequest>, queue: seq<UnbondingRequest>)
    requires op.Process? ==> queue == Pending(st.unbonding, op.height) && created == []
    requires !op.Process? ==> queue == st.unbonding + created
    ensures multiset(st.unbonding) + multiset(created) == multiset(queue) + multiset(Released(st, op))
  {
    if op.Process? {
      SplitRequests(st.unbonding, op.height);
    }
  }

  lemma OnceStep(cfg: Config, st: RegistryState, op: Op, b: Books)
    requires multiset(b.created) == multiset(st.unbonding) + multiset(b.released)
    ensures multiset(Book(cfg, st, op, b).created)
         == multiset(Apply(cfg, st, op).unbonding) + multiset(Book(cfg, st, op, b).released)
  {
    QueueStep(cfg, st, op);
    RequestsStep(st, op, Created(cfg, st, op), Apply(cfg, st, op).unbonding);
    OnceMore(b.created, Created(cfg, st, op), st.unbonding, Apply(cfg, st, op).unbonding, b.released, Released(st, op));
  }

  lemma OnceMore(created: seq<UnbondingRequest>, c: seq<UnbondingRequest>, queue: seq<UnbondingRequest>,
                 queue': seq<UnbondingRequest>, released: seq<UnbondingRequest>, r: seq<UnbondingRequest>)
    requires multiset(created) == multiset(queue) + multiset(released)
    requires multiset(queue) + multiset(c) == multiset(queue') + multiset(r)
    ensures multiset(created + c) == multiset(queue') + multiset(released + r)
  {
    var total := multiset(queue) + multiset(released) + multiset(c);
    assert multiset(created + c) == total;
    assert total == (multiset(queue) + multiset(c)) + multiset(released);
    assert multiset(released + r) == multiset(released) + multiset(r);
    assert multiset(queue') + multiset(released + r) == (multiset(queue') + multiset(r)) + multiset(released);
  }

  /** Over any run, each request created is waiting or has been released, once:
      as multisets, created is pending plus released. */
  lemma {:induction false} ReleasedExactlyOnce(cfg: Config, ops: seq<Op>)
    ensures multiset(Booked(cfg, ops).created)
         == multiset(Run(cfg, ops).unbonding) + multiset(Booked(cfg, ops).released)
  {
    if ops != [] {
      ReleasedExactlyOnce(cfg, ops[..|ops| - 1]);
      OnceStep(cfg, Run(cfg, ops[..|ops| - 1]), ops[|ops| - 1], Booked(cfg, ops[..|ops| - 1]));
    }
  }

  /** A step releases only requests due at its height, and leaves none that are:
      a request is released by the first processing at or after its completion. */
  lemma ReleasedWhenDue(reqs: seq<UnbondingRequest>, height: u64, r: UnbondingRequest)
    requires r in reqs
    ensures r in Completed(reqs, height) <==> r.completionHeight <= height
    ensures r in Pending(reqs, height) <==> r.completionHeight > height
  {
    SplitRequests(reqs, height);
    SplitByHeight(reqs, height);
    var p, c := Pending(reqs, height), Completed(reqs, height);
    assert r in multiset(reqs);
    assert r in p || r in c;
  }
}
