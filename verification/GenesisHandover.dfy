/** The genesis block a builder produces is the one the state machine accepts, and
    the accounts it creates hold exactly what was allocated. */
module GenesisHandover {
  import opened Types
  import opened Sums
  import opened Sorting
  import opened KeyOrder
  import opened MerkleTree
  import opened Shares
  import opened StakeWeight
  import opened ValidatorRegistry
  import opened RegistryRuns
  import opened Accounts
  import opened Execution
  import opened StateMachine
  import opened Settlement
  import opened Genesis

  // ---- Runs of the builder ----

  datatype BuildOp =
    | Allocate(address: Address, amount: u64, category: string)
    | AllocateVesting(address: Address, amount: u64, category: string, duration: u64)
    | CreateSet(validators: seq<Validator>)

  function Perform(cfg: GenesisConfig, st: BuilderState, op: BuildOp): BuilderState {
    match op
    case Allocate(a, amount, category) => WithAllocation(cfg, st, a, amount, category)
    case AllocateVesting(a, amount, category, duration) => WithVestingAllocation(cfg, st, a, amount, category, duration)
    case CreateSet(vs) =>
      var s := GenesisSet(cfg, vs);
      if s.Some? then st.(validatorSet := s.value, initialized := true) else st
  }

  function Construct(cfg: GenesisConfig, ops: seq<BuildOp>): BuilderState {
    if ops == [] then BuilderState([], ValidatorSet(0, [], 0, 0), 0, false)
    else Perform(cfg, Construct(cfg, ops[..|ops| - 1]), ops[|ops| - 1])
  }

  function AllocatedSum(allocations: seq<GenesisAllocation>): nat {
    if allocations == [] then 0
    else AllocatedSum(allocations[..|allocations| - 1]) + allocations[|allocations| - 1].amount
  }

  /** The running total is exact and nothing the builder accepted fails its own
      validation. */
  lemma {:induction false} ConstructedIsValid(cfg: GenesisConfig, ops: seq<BuildOp>)
    requires cfg.totalSupply + cfg.cap < TWO_64
    ensures var st := Construct(cfg, ops);
            Validates(cfg, st) && st.totalAllocated == AllocatedSum(st.allocations)
  {
    if ops != [] {
      ConstructedIsValid(cfg, ops[..|ops| - 1]);
      StepIsValid(cfg, Construct(cfg, ops[..|ops| - 1]), ops[|ops| - 1]);
    }
  }

  lemma StepIsValid(cfg: GenesisConfig, st: BuilderState, op: BuildOp)
    requires cfg.totalSupply + cfg.cap < TWO_64
    requires Validates(cfg, st) && st.totalAllocated == AllocatedSum(st.allocations)
    ensures var st' := Perform(cfg, st, op);
            Validates(cfg, st') && st'.totalAllocated == AllocatedSum(st'.allocations)
  {
    if !op.CreateSet? && Admits(cfg, st, op.amount) {
      var a := Perform(cfg, st, op).allocations[|st.allocations|];
      assert Perform(cfg, st, op) == Allocated(st, a);
      AllocatedIsValid(cfg, st, a);
    }
  }

  lemma AllocatedIsValid(cfg: GenesisConfig, st: BuilderState, a: GenesisAllocation)
    requires cfg.totalSupply + cfg.cap < TWO_64 && Admits(cfg, st, a.amount)
    requires Validates(cfg, st) && st.totalAllocated == AllocatedSum(st.allocations)
    requires a.amount > cfg.vestingThreshold ==> a.vesting.Some?
    ensures Validates(cfg, Allocated(st, a))
    ensures Allocated(st, a).totalAllocated == AllocatedSum(Allocated(st, a).allocations)
  {
    AllocatedSnoc(st.allocations, a);
    var after := st.allocations + [a];
    forall x | x in after ensures x.amount <= cfg.cap && (x.amount > cfg.vestingThreshold ==> x.vesting.Some?) {
      assert x in st.allocations || x == a;
    }
  }

  lemma AllocatedSnoc(allocations: seq<GenesisAllocation>, a: GenesisAllocation)
    ensures AllocatedSum(allocations + [a]) == AllocatedSum(allocations) + a.amount
  {
    assert (allocations + [a])[..|allocations|] == allocations;
  }

  // ---- The accounts of distinct allocations ----

  ghost predicate DistinctAddresses(allocations: seq<GenesisAllocation>) {
    forall i, j :: 0 <= i < j < |allocations| ==> allocations[i].address != allocations[j].address
  }

  function Addresses(allocations: seq<GenesisAllocation>): (r: seq<Address>)
    ensures |r| == |allocations| && forall i :: 0 <= i < |allocations| ==> r[i] == allocations[i].address
  {
    seq<Address>(|allocations|, i requires 0 <= i < |allocations| => allocations[i].address)
  }

  lemma {:induction false} GenesisAccountsExact(allocations: seq<GenesisAllocation>)
    requires DistinctAddresses(allocations)
    ensures var m := GenesisAccounts(allocations);
            && Settlement.Keyed(m)
            && (forall a :: a in m <==> a in Addresses(allocations))
            && (forall i :: 0 <= i < |allocations| ==>
                  && allocations[i].address in m
                  && m[allocations[i].address] == Account(allocations[i].address, allocations[i].amount, 0, 0))
            && Circulating(m) == AllocatedSum(allocations)
  {
    if allocations != [] {
      var init, a := allocations[..|allocations| - 1], allocations[|allocations| - 1];
      GenesisAccountsExact(init);
      var m := GenesisAccounts(init);
      assert Addresses(allocations) == Addresses(init) + [a.address];
      assert a.address !in m;
      PutChanges(m, a.address, Account(a.address, a.amount, 0, 0));
    }
  }

  // ---- Equal roots ----

  lemma {:induction false} SameElements(a: seq<nat>, b: seq<nat>)
    requires NoDuplicates(a) && NoDuplicates(b)
    requires forall x :: x in a <==> x in b
    ensures multiset(a) == multiset(b)
  {
    forall x ensures multiset(a)[x] == multiset(b)[x] {
      if x in a {
        var i :| 0 <= i < |a| && a[i] == x;
        var j :| 0 <= j < |b| && b[j] == x;
        MultiplicityOne(a, i);
        MultiplicityOne(b, j);
      }
    }
  }

  lemma HashesAppend(cfg: ChainConfig, m: AccountMap, p: seq<Address>, q: seq<Address>)
    requires forall i :: 0 <= i < |p| ==> p[i] in m
    requires forall i :: 0 <= i < |q| ==> q[i] in m
    ensures AccountHashes(cfg, m, p + q) == AccountHashes(cfg, m, p) + AccountHashes(cfg, m, q)
  {
  }

  /** The same keys in another order give the same hashes in another order. */
  lemma {:induction false} HashesFollowKeys(cfg: ChainConfig, m: AccountMap, a: seq<Address>, b: seq<Address>)
    requires multiset(a) == multiset(b)
    requires (forall k :: k in a ==> k in m) && forall k :: k in b ==> k in m
    ensures multiset(AccountHashes(cfg, m, a)) == multiset(AccountHashes(cfg, m, b))
  {
    assert |multiset(a)| == |a| && |multiset(b)| == |b|;
    if a != [] {
      var x, rest := a[0], a[1..];
      assert a == [x] + rest;
      var p, q := Around(b, x);
      assert multiset(p + q) == multiset(rest);
      HashesFollowKeys(cfg, m, rest, p + q);
      MoveToHead(cfg, m, x, rest, p, q);
    }
  }

  lemma Around(b: seq<Address>, x: Address) returns (p: seq<Address>, q: seq<Address>)
    requires x in multiset(b)
    ensures b == p + ([x] + q) && multiset(p + q) == multiset(b) - multiset{x}
    ensures forall k :: k in p + q ==> k in b
  {
    var j :| 0 <= j < |b| && b[j] == x;
    p, q := b[..j], b[j + 1..];
    assert b == p + ([x] + q);
  }

  lemma MoveToHead(cfg: ChainConfig, m: AccountMap, x: Address, rest: seq<Address>, p: seq<Address>, q: seq<Address>)
    requires forall k :: k in [x] + rest + p + q ==> k in m
    requires multiset(AccountHashes(cfg, m, rest)) == multiset(AccountHashes(cfg, m, p + q))
    ensures multiset(AccountHashes(cfg, m, [x] + rest)) == multiset(AccountHashes(cfg, m, p + ([x] + q)))
  {
    HashesAppend(cfg, m, [x], rest);
    HashesAppend(cfg, m, [x], q);
    HashesAppend(cfg, m, p, [x] + q);
    HashesAppend(cfg, m, p, q);
  }

  lemma LessIsOrder()
    ensures Transitive(Less())
    ensures forall s: seq<Hash> :: TotalOn(Less(), s)
  {
  }

  lemma SameHashesSameSort(a: seq<Hash>, b: seq<Hash>)
    requires multiset(a) == multiset(b)
    ensures Sort(Less(), a) == Sort(Less(), b)
  {
    LessIsOrder();
    SortSorted(Less(), a);
    SortSorted(Less(), b);
    SortedUnique(Less(), Sort(Less(), a), Sort(Less(), b));
  }

  ghost predicate SameHashing(cfg: GenesisConfig, chain: ChainConfig) {
    cfg.accountHash == chain.accountHash && cfg.hashPair == chain.hashPair
  }

  lemma SameKeys(m: AccountMap, keys: seq<Address>, order: seq<Address>)
    requires order == Ascending(m.Keys) && NoDuplicates(keys) && forall a :: a in m <==> a in keys
    ensures multiset(keys) == multiset(order)
    ensures forall i :: 0 <= i < |keys| ==> keys[i] in m
  {
    AscendingIsOrder(m.Keys);
    SameElements(keys, order);
  }

  /** The builder hashes its allocation list, the state machine its account map;
      for distinct addresses both reach the same root. */
  lemma RootsAgree(cfg: GenesisConfig, chain: ChainConfig, allocations: seq<GenesisAllocation>)
    requires SameHashing(cfg, chain) && DistinctAddresses(allocations)
    ensures AllocationRoot(cfg, allocations) == StateRoot(chain, GenesisAccounts(allocations))
  {
    var m := GenesisAccounts(allocations);
    GenesisAccountsExact(allocations);
    var keys, order := Addresses(allocations), Ascending(m.Keys);
    if allocations != [] {
      assert allocations[0].address in m;
      SameKeys(m, keys, order);
      HashesFollowKeys(chain, m, keys, order);
      assert AccountHashes(chain, m, keys) == AllocationHashes(cfg, allocations);
      SameHashesSameSort(AllocationHashes(cfg, allocations), AccountHashes(chain, m, order));
    }
  }

  /** Whatever sequence of calls led to it, a builder with distinct addresses and a
      validator set builds a block; the state machine accepts it exactly when the
      initial epoch is 0; and then the balances are the allocations and add up to
      the allocated total, within the supply. */
  lemma HandOver(cfg: GenesisConfig, chain: ChainConfig, ops: seq<BuildOp>, c: ChainState)
    requires cfg.totalSupply + cfg.cap < TWO_64 && SameHashing(cfg, chain)
    requires DistinctAddresses(Construct(cfg, ops).allocations)
    ensures var st := Construct(cfg, ops);
            && (Built(cfg, st).Some? <==> st.initialized)
            && (st.initialized ==>
                  var block := Built(cfg, st).value;
                  var l := AfterGenesis(chain, c, block, st.allocations).ledger;
                  && (GenesisAccepted(chain, block, st.allocations) <==> cfg.initialEpoch == 0)
                  && (cfg.initialEpoch == 0 ==>
                        && Sound(l) && Supply(l) == Circulating(l.accounts) == st.totalAllocated <= cfg.totalSupply
                        && (forall i :: 0 <= i < |st.allocations| ==>
                              AccountAt(l.accounts, st.allocations[i].address)
                              == Account(st.allocations[i].address, st.allocations[i].amount, 0, 0))))
  {
    var st := Construct(cfg, ops);
    ConstructedIsValid(cfg, ops);
    GenesisAccountsExact(st.allocations);
    RootsAgree(cfg, chain, st.allocations);
  }

  // ---- Without distinct addresses ----

  /** Of several allocations to one address, only the last may carry an amount. */
  ghost predicate OverwrittenAreEmpty(allocations: seq<GenesisAllocation>) {
    forall i, j :: 0 <= i < j < |allocations| && allocations[i].address == allocations[j].address ==>
      allocations[i].amount == 0
  }

  /** Where an address got its balance: its last allocation, if it has any. */
  ghost predicate GotFrom(allocations: seq<GenesisAllocation>, a: Address, balance: u64) {
    if forall i :: 0 <= i < |allocations| ==> allocations[i].address != a then balance == 0
    else
      exists k :: 0 <= k < |allocations| && allocations[k].address == a && allocations[k].amount == balance
                  && forall j :: k < j < |allocations| ==> allocations[j].address != a
  }

  lemma {:induction false} BalanceSource(allocations: seq<GenesisAllocation>, a: Address)
    ensures Settlement.Keyed(GenesisAccounts(allocations))
    ensures GotFrom(allocations, a, AccountAt(GenesisAccounts(allocations), a).balance)
  {
    if allocations != [] {
      var init, last := allocations[..|allocations| - 1], allocations[|allocations| - 1];
      BalanceSource(init, a);
      if last.address == a {
        assert allocations[|allocations| - 1].amount == AccountAt(GenesisAccounts(allocations), a).balance;
      } else {
        SourceStays(init, last, a, AccountAt(GenesisAccounts(init), a).balance);
        assert allocations == init + [last];
      }
    }
  }

  lemma SourceStays(init: seq<GenesisAllocation>, last: GenesisAllocation, a: Address, balance: u64)
    requires GotFrom(init, a, balance) && last.address != a
    ensures GotFrom(init + [last], a, balance)
  {
    var all := init + [last];
    if i :| 0 <= i < |init| && init[i].address == a {
      var k :| 0 <= k < |init| && init[k].address == a && init[k].amount == balance
               && forall j :: k < j < |init| ==> init[j].address != a;
      assert all[k] == init[k] && forall j :: k < j < |all| ==> all[j].address != a;
    }
  }

  lemma OverwrittenSnoc(init: seq<GenesisAllocation>, last: GenesisAllocation)
    ensures OverwrittenAreEmpty(init + [last])
       <==> && OverwrittenAreEmpty(init)
            && forall i :: 0 <= i < |init| && init[i].address == last.address ==> init[i].amount == 0
  {
    var all := init + [last];
    if OverwrittenAreEmpty(all) {
      assert forall i :: 0 <= i < |init| ==> all[i] == init[i];
      forall i | 0 <= i < |init| && init[i].address == last.address ensures init[i].amount == 0 {
        assert all[i].address == all[|init|].address;
      }
    }
  }

  lemma NothingOverwritten(init: seq<GenesisAllocation>, a: Address, balance: u64)
    requires OverwrittenAreEmpty(init) && GotFrom(init, a, balance)
    ensures balance == 0 <==> forall i :: 0 <= i < |init| && init[i].address == a ==> init[i].amount == 0
  {
    if i :| 0 <= i < |init| && init[i].address == a {
      var k :| 0 <= k < |init| && init[k].address == a && init[k].amount == balance
               && forall j :: k < j < |init| ==> init[j].address != a;
    }
  }

  /** The accounts hold what was allocated if and only if every allocation overwritten
      by a later one at its address has amount 0; otherwise they hold less. */
  lemma {:induction false} BalancesExact(allocations: seq<GenesisAllocation>)
    ensures Circulating(GenesisAccounts(allocations)) <= AllocatedSum(allocations)
    ensures Circulating(GenesisAccounts(allocations)) == AllocatedSum(allocations) <==> OverwrittenAreEmpty(allocations)
  {
    if allocations == [] {
      assert Balances(GenesisAccounts(allocations)) == map[];
    } else {
      var init, last := allocations[..|allocations| - 1], allocations[|allocations| - 1];
      BalancesExact(init);
      BalanceSource(init, last.address);
      PutChanges(GenesisAccounts(init), last.address, Account(last.address, last.amount, 0, 0));
      assert allocations == init + [last];
      OverwrittenSnoc(init, last);
      if OverwrittenAreEmpty(init) {
        NothingOverwritten(init, last.address, AccountAt(GenesisAccounts(init), last.address).balance);
      }
    }
  }

  /** For every run of the builder, distinct addresses or not: the balances an accepted
      block leaves add up to the allocated total under exactly that condition. */
  lemma HandOverBalances(cfg: GenesisConfig, chain: ChainConfig, ops: seq<BuildOp>, c: ChainState)
    requires cfg.totalSupply + cfg.cap < TWO_64
    requires Construct(cfg, ops).initialized
    ensures var st := Construct(cfg, ops);
            && Built(cfg, st).Some?
            && (GenesisAccepted(chain, Built(cfg, st).value, st.allocations) ==>
                  var l := AfterGenesis(chain, c, Built(cfg, st).value, st.allocations).ledger;
                  && Supply(l) <= st.totalAllocated <= cfg.totalSupply
                  && (Supply(l) == st.totalAllocated <==> OverwrittenAreEmpty(st.allocations)))
  {
    ConstructedIsValid(cfg, ops);
    BalancesExact(Construct(cfg, ops).allocations);
  }

  /** And a block with a shortfall can be accepted: take a builder that has allocated to
      an odd number of distinct addresses, the last with the greatest account digest,
      and allocate that amount to that address again. The builder counts it twice, the
      odd-level duplication of the Merkle tree hides the repetition, and the state
      machine accepts the block built, exactly if the initial epoch is 0. */
  lemma RepeatedAllocationAccepted(cfg: GenesisConfig, chain: ChainConfig, ops: seq<BuildOp>, category: string)
    requires cfg.totalSupply + cfg.cap < TWO_64 && SameHashing(cfg, chain)
    requires var st := Construct(cfg, ops);
             && st.initialized && DistinctAddresses(st.allocations)
             && |st.allocations| % 2 == 1 && |st.allocations| > 1 && TopLast(cfg, st.allocations)
             && Admits(cfg, st, st.allocations[|st.allocations| - 1].amount)
    ensures var allocations := Construct(cfg, ops).allocations;
            var last := allocations[|allocations| - 1];
            var st := Construct(cfg, ops + [Allocate(last.address, last.amount, category)]);
            && Built(cfg, st).Some?
            && (GenesisAccepted(chain, Built(cfg, st).value, st.allocations) <==> cfg.initialEpoch == 0)
            && Circulating(GenesisAccounts(st.allocations)) == st.totalAllocated - last.amount
  {
    var before := Construct(cfg, ops);
    var allocations := before.allocations;
    var last := allocations[|allocations| - 1];
    var ops' := ops + [Allocate(last.address, last.amount, category)];
    assert ops'[..|ops|] == ops;
    var st := Construct(cfg, ops');
    var again := st.allocations[|allocations|];
    assert st.allocations == allocations + [again] && again.address == last.address && again.amount == last.amount;
    ConstructedIsValid(cfg, ops');
    RepetitionHidden(cfg, chain, allocations, again);
    assert st.allocations[..|allocations|] == allocations;
  }

  ghost predicate TopLast(cfg: GenesisConfig, allocations: seq<GenesisAllocation>) {
    var h := AllocationHashes(cfg, allocations);
    forall i :: 0 <= i < |h| ==> h[i] <= h[|h| - 1]
  }

  lemma RepetitionHidden(cfg: GenesisConfig, chain: ChainConfig,
                         allocations: seq<GenesisAllocation>, again: GenesisAllocation)
    requires SameHashing(cfg, chain) && DistinctAddresses(allocations)
    requires |allocations| % 2 == 1 && |allocations| > 1 && TopLast(cfg, allocations)
    requires var last := allocations[|allocations| - 1]; again.address == last.address && again.amount == last.amount
    ensures var twice := allocations + [again];
            && AllocationRoot(cfg, twice) == StateRoot(chain, GenesisAccounts(twice))
            && Circulating(GenesisAccounts(twice)) == AllocatedSum(twice) - again.amount
  {
    var twice := allocations + [again];
    assert twice[..|twice| - 1] == allocations;
    GenesisAccountsExact(allocations);
    RootsAgree(cfg, chain, allocations);
    assert GenesisAccounts(twice) == GenesisAccounts(allocations);
    RepeatedRoot(cfg, allocations, again);
  }

  lemma RepeatedRoot(cfg: GenesisConfig, allocations: seq<GenesisAllocation>, again: GenesisAllocation)
    requires |allocations| % 2 == 1 && |allocations| > 1 && TopLast(cfg, allocations)
    requires var last := allocations[|allocations| - 1]; again.address == last.address && again.amount == last.amount
    ensures AllocationRoot(cfg, allocations + [again]) == AllocationRoot(cfg, allocations)
  {
    var h := AllocationHashes(cfg, allocations);
    var top := h[|h| - 1];
    assert AllocationHashes(cfg, allocations + [again]) == h + [top];
    SortKeepsTop(h, top);
    RepeatedTailKeepsRoot(cfg.hashPair, Sort(Less(), h));
  }

  lemma SortKeepsTop(h: seq<Hash>, top: Hash)
    requires h != [] && h[|h| - 1] == top && forall i :: 0 <= i < |h| ==> h[i] <= top
    ensures Sort(Less(), h)[|h| - 1] == top
    ensures Sort(Less(), h + [top]) == Sort(Less(), h) + [top]
  {
    LessIsOrder();
    var s := Sort(Less(), h);
    SortSorted(Less(), h);
    assert top in multiset(h);
    SortedTop(s, h, top);
    SortSorted(Less(), h + [top]);
    SortedUnique(Less(), s + [top], Sort(Less(), h + [top]));
  }

  lemma SortedTop(s: seq<Hash>, h: seq<Hash>, top: Hash)
    requires Sorted(Less(), s) && multiset(s) == multiset(h) && top in multiset(h)
    requires forall i :: 0 <= i < |h| ==> h[i] <= top
    ensures s != [] && s[|s| - 1] == top && Sorted(Less(), s + [top])
  {
    forall i | 0 <= i < |s| ensures s[i] <= top {
      assert s[i] in multiset(h);
    }
    assert top in multiset(s);
    var k :| 0 <= k < |s| && s[k] == top;
  }

  // ---- The genesis validator set ----

  /** The genesis set is a well-formed set of the given validators, the Active ones
      being the first N by rank, whatever order they were given in. */
  lemma GenesisSetWellFormed(cfg: GenesisConfig, validators: seq<Validator>)
    requires DistinctIds(validators) && GenesisSet(cfg, validators).Some?
    requires ActiveStake(GenesisSet(cfg, validators).value.validators) < TWO_64
    ensures var s := GenesisSet(cfg, validators).value;
            && |s.validators| == |validators| && WellFormedSet(s)
            && InRankOrder(s.validators) && FirstAreActive(cfg, s.validators)
            && forall v :: v in validators ==> Holds(s.validators, v)
  {
    var ranked := Sort(Outranks, validators);
    RankedDistinct(validators);
    RankedInOrder(validators);
    SeatedInOrder(cfg, ranked);
    WrappedIsActiveStake(AllSeated(cfg, ranked));
    forall v | v in validators ensures Holds(AllSeated(cfg, ranked), v) {
      SeatFound(cfg, ranked, v);
    }
  }

  /** By falling stake, and by id among equal stakes. */
  ghost predicate InRankOrder(vs: seq<Validator>) {
    forall i, j :: 0 <= i < j < |vs| ==>
      vs[i].stake > vs[j].stake || (vs[i].stake == vs[j].stake && vs[i].id < vs[j].id)
  }

  /** The first N are Active, and nobody else, and they have bonded enough. */
  ghost predicate FirstAreActive(cfg: GenesisConfig, vs: seq<Validator>) {
    forall j :: 0 <= j < |vs| ==>
      && (vs[j].status == Active <==> j < cfg.validatorSetSize)
      && (vs[j].status == Active ==> vs[j].stake >= cfg.minimumSelfBond)
  }

  ghost predicate Holds(vs: seq<Validator>, v: Validator) {
    exists j :: 0 <= j < |vs| && vs[j].id == v.id && vs[j].stake == v.stake
  }

  lemma SeatedInOrder(cfg: GenesisConfig, ranked: seq<Validator>)
    requires DistinctIds(ranked) && EnoughStake(cfg, ranked) && InRankOrder(ranked)
    ensures var vs := AllSeated(cfg, ranked);
            DistinctIds(vs) && InRankOrder(vs) && FirstAreActive(cfg, vs)
  {
    var vs := AllSeated(cfg, ranked);
    forall i, j | 0 <= i < j < |vs| ensures Outranks(vs[i], vs[j]) && vs[i].id != vs[j].id {
      assert Outranks(ranked[i], ranked[j]);
    }
  }

  lemma SeatFound(cfg: GenesisConfig, ranked: seq<Validator>, v: Validator)
    requires v in multiset(ranked)
    ensures Holds(AllSeated(cfg, ranked), v)
  {
    var j :| 0 <= j < |ranked| && ranked[j] == v;
    assert AllSeated(cfg, ranked)[j] == Seated(cfg, v, j);
  }

  lemma RankedInOrder(validators: seq<Validator>)
    requires DistinctIds(validators)
    ensures InRankOrder(Sort(Outranks, validators))
  {
    var ranked := Sort(Outranks, validators);
    RankedDistinct(validators);
    OutranksIsOrder();
    SortSorted(Outranks, validators);
    forall i, j | 0 <= i < j < |ranked| ensures Outranks(ranked[i], ranked[j]) {
      assert !Outranks(ranked[j], ranked[i]) && ranked[i].id != ranked[j].id;
    }
  }

  lemma RankedDistinct(validators: seq<Validator>)
    requires DistinctIds(validators)
    ensures DistinctIds(Sort(Outranks, validators))
  {
    var ranked := Sort(Outranks, validators);
    PermutationKeepsDistinct(validators, ranked);
    forall i, j | 0 <= i < j < |ranked| ensures ranked[i].id != ranked[j].id {
      assert ranked[i] in multiset(validators) && ranked[j] in multiset(validators);
      assert ranked[i] in validators && ranked[j] in validators;
    }
  }

  lemma GenesisSetOrderFree(cfg: GenesisConfig, a: seq<Validator>, b: seq<Validator>)
    requires DistinctIds(a) && multiset(a) == multiset(b)
    ensures GenesisSet(cfg, a) == GenesisSet(cfg, b)
  {
    OutranksIsOrder();
    SortSorted(Outranks, a);
    SortSorted(Outranks, b);
    var ranked := Sort(Outranks, a);
    RankedDistinct(a);
    assert TotalOn(Outranks, ranked) by {
      forall x, y | x in ranked && y in ranked && !Outranks(x, y) && !Outranks(y, x) ensures x == y {
        assert x.id == y.id;
      }
    }
    SortedUnique(Outranks, ranked, Sort(Outranks, b));
    assert |multiset(a)| == |a| && |multiset(b)| == |b|;
  }

  // ---- Vesting ----

  /** Vesting never goes back, never exceeds the total, and reaches it exactly when
      the duration is over. */
  lemma VestingProgress(s: VestingSchedule, t: u64, u: u64)
    requires t <= u
    ensures VestedAmount(s, t) <= VestedAmount(s, u) <= s.total
    ensures s.total > 0 ==> (VestedAmount(s, t) == s.total <==> t >= s.start + s.duration)
  {
    VestedSoFar(s, t);
    VestedSoFar(s, u);
    if s.start <= t && u < s.start + s.duration {
      FloorIsQuotient(t - s.start, s.duration, s.total);
      FloorIsQuotient(u - s.start, s.duration, s.total);
      MulMonotone(t - s.start, u - s.start, s.total);
      QuotientsMonotone((t - s.start) * s.total, (u - s.start) * s.total, s.duration);
    }
  }

  lemma VestedSoFar(s: VestingSchedule, t: u64)
    ensures s.start <= t < s.start + s.duration ==> VestedAmount(s, t) == Floor(t - s.start, s.duration, s.total)
    ensures VestedAmount(s, t) <= s.total
    ensures s.total > 0 ==> (VestedAmount(s, t) == s.total <==> t >= s.start + s.duration)
  {
    if s.start <= t < s.start + s.duration {
      FloorIsQuotient(t - s.start, s.duration, s.total);
      if s.total > 0 {
        FloorBelow(t - s.start, s.duration, s.total);
      }
    }
  }

  lemma FloorBelow(part: u64, whole: u64, amount: u64)
    requires part < whole && amount > 0
    ensures Floor(part, whole, amount) < amount
  {
    FloorIsQuotient(part, whole, amount);
    StrictProduct(part, whole, amount);
    QuotientBelow(part * amount, amount, whole);
  }

  lemma StrictProduct(a: nat, b: nat, c: nat)
    requires a < b && c > 0
    ensures a * c < c * b
  {
  }

  lemma QuotientBelow(x: nat, y: nat, d: nat)
    requires d > 0 && x < y * d
    ensures x / d < y
  {
    QuotientBounds(x, d);
    if x / d >= y {
      MulMonotone(y, x / d, d);
    }
  }

  lemma QuotientsMonotone(x: nat, y: nat, d: nat)
    requires x <= y && d > 0
    ensures x / d <= y / d
  {
    QuotientBounds(x, d);
    QuotientBounds(y, d);
    if x / d >= y / d + 1 {
      MulMonotone(y / d + 1, x / d, d);
    }
  }
}
