/** The genesis builder: allocations under a cap, the first validator set, and the
    block the state machine starts from. */
module Genesis {
  import opened Types
  import opened Sorting
  import opened MerkleTree
  import opened Shares
  import opened StakeWeight
  import opened ValidatorRegistry
  import opened Execution
  import opened StateMachine

  const TWELVE_MONTHS: u64 := 31536000

  /** `cap` and `vestingThreshold` are the percentages of the supply, computed in
      floating point. */
  datatype GenesisConfig = GenesisConfig(
    totalSupply: u64, timestamp: u64, initialEpoch: u64, validatorSetSize: u64, minimumSelfBond: u64,
    cap: u64, vestingThreshold: u64,
    hashOf: Validator -> Hash, accountHash: Account -> Hash, hashPair: PairHash)

  datatype BuilderState = BuilderState(
    allocations: seq<GenesisAllocation>,
    validatorSet: ValidatorSet,
    totalAllocated: u64,
    initialized: bool)

  // ---- Specification ----

  predicate Admits(cfg: GenesisConfig, st: BuilderState, amount: u64) {
    amount <= cfg.cap && Wrap(st.totalAllocated + amount) <= cfg.totalSupply
  }

  function Allocated(st: BuilderState, a: GenesisAllocation): BuilderState {
    st.(allocations := st.allocations + [a], totalAllocated := Wrap(st.totalAllocated + a.amount))
  }

  function WithVestingAllocation(cfg: GenesisConfig, st: BuilderState, address: Address, amount: u64, category: string,
                                 duration: u64): BuilderState
  {
    if !Admits(cfg, st, amount) then st
    else
      Allocated(st, GenesisAllocation(address, amount, category,
                                      Some(VestingSchedule(amount, 0, cfg.timestamp, duration))))
  }

  function WithAllocation(cfg: GenesisConfig, st: BuilderState, address: Address, amount: u64, category: string)
    : BuilderState
  {
    if amount > cfg.vestingThreshold then WithVestingAllocation(cfg, st, address, amount, category, TWELVE_MONTHS)
    else if !Admits(cfg, st, amount) then st
    else Allocated(st, GenesisAllocation(address, amount, category, None))
  }

  /** One ranked validator at genesis, `i` being its rank. */
  function Seated(cfg: GenesisConfig, v: Validator, i: nat): Validator {
    v.(status := if i < cfg.validatorSetSize then Active else Standby,
       jailedUntil := 0, downtimeEpochs := 0, signed := 0, missed := 0)
  }

  function AllSeated(cfg: GenesisConfig, ranked: seq<Validator>): (r: seq<Validator>)
    ensures |r| == |ranked| && forall i :: 0 <= i < |ranked| ==> r[i] == Seated(cfg, ranked[i], i)
  {
    seq(|ranked|, i requires 0 <= i < |ranked| => Seated(cfg, ranked[i], i))
  }

  predicate EnoughStake(cfg: GenesisConfig, ranked: seq<Validator>) {
    forall i :: 0 <= i < |ranked| && i < cfg.validatorSetSize ==> ranked[i].stake >= cfg.minimumSelfBond
  }

  function GenesisSet(cfg: GenesisConfig, validators: seq<Validator>): Option<ValidatorSet> {
    var ranked := Sort(Outranks, validators);
    if validators == [] || !EnoughStake(cfg, ranked) then None
    else
      var vs := AllSeated(cfg, ranked);
      Some(ValidatorSet(cfg.initialEpoch, vs, WrappedActiveStake(vs), Root(cfg.hashPair, HashesOf(cfg.hashOf, vs))))
  }

  function AllocationHashes(cfg: GenesisConfig, allocations: seq<GenesisAllocation>): (r: seq<Hash>)
    ensures |r| == |allocations|
    ensures forall i :: 0 <= i < |allocations| ==>
              r[i] == cfg.accountHash(Account(allocations[i].address, allocations[i].amount, 0, 0))
  {
    seq<Hash>(|allocations|, i requires 0 <= i < |allocations| =>
          cfg.accountHash(Account(allocations[i].address, allocations[i].amount, 0, 0)))
  }

  function AllocationRoot(cfg: GenesisConfig, allocations: seq<GenesisAllocation>): Hash {
    if allocations == [] then 0 else Root(cfg.hashPair, Sort(Less(), AllocationHashes(cfg, allocations)))
  }

  predicate Validates(cfg: GenesisConfig, st: BuilderState) {
    && st.totalAllocated <= cfg.totalSupply
    && forall a :: a in st.allocations ==> a.amount <= cfg.cap && (a.amount > cfg.vestingThreshold ==> a.vesting.Some?)
  }

  /** The genesis block, or None where the program throws. */
  function Built(cfg: GenesisConfig, st: BuilderState): Option<Block> {
    if !Validates(cfg, st) || !st.initialized then None
    else
      Some(Block(BlockHeader(0, cfg.timestamp, 0, AllocationRoot(cfg, st.allocations), 0, st.validatorSet.merkleRoot, 0,
                             cfg.initialEpoch),
                 [], QuorumCertificate(0, 0, 0, 0, [], 0)))
  }

  function VestedAmount(s: VestingSchedule, now: u64): u64 {
    if now < s.start then 0
    else if now - s.start >= s.duration then s.total
    else Floor(now - s.start, s.duration, s.total)
  }

  // ---- Object ----

  class GenesisBuilder {
    const config: GenesisConfig
    var allocations: seq<GenesisAllocation>
    var validatorSet: ValidatorSet
    var totalAllocated: u64
    var validatorSetInitialized: bool

    ghost function Abs(): BuilderState
      reads this
    {
      BuilderState(allocations, validatorSet, totalAllocated, validatorSetInitialized)
    }

    constructor (config: GenesisConfig)
      ensures this.config == config
      ensures Abs() == BuilderState([], ValidatorSet(0, [], 0, 0), 0, false)
    {
      this.config := config;
      allocations, validatorSet, totalAllocated, validatorSetInitialized := [], ValidatorSet(0, [], 0, 0), 0, false;
    }

    method AddAllocation(address: Address, amount: u64, category: string) returns (ok: bool)
      modifies this`allocations, this`totalAllocated
      ensures ok == Admits(config, old(Abs()), amount)
      ensures Abs() == WithAllocation(config, old(Abs()), address, amount, category)
    {
      if amount > config.cap {
        return false;
      }
      if Wrap(totalAllocated + amount) > config.totalSupply {
        return false;
      }
      if amount > config.vestingThreshold {
        ok := AddVestingAllocation(address, amount, category, TWELVE_MONTHS);
        return;
      }
      allocations := allocations + [GenesisAllocation(address, amount, category, None)];
      totalAllocated := Wrap(totalAllocated + amount);
      return true;
    }

    method AddVestingAllocation(address: Address, amount: u64, category: string, duration: u64) returns (ok: bool)
      modifies this`allocations, this`totalAllocated
      ensures ok == Admits(config, old(Abs()), amount)
      ensures Abs() == WithVestingAllocation(config, old(Abs()), address, amount, category, duration)
    {
      if amount > config.cap {
        return false;
      }
      if Wrap(totalAllocated + amount) > config.totalSupply {
        return false;
      }
      var vesting := VestingSchedule(amount, 0, config.timestamp, duration);
      allocations := allocations + [GenesisAllocation(address, amount, category, Some(vesting))];
      totalAllocated := Wrap(totalAllocated + amount);
      return true;
    }

    method SeatValidators(ranked: seq<Validator>) returns (vs: seq<Validator>, total: u64, ok: bool)
      ensures ok == EnoughStake(config, ranked)
      ensures ok ==> vs == AllSeated(config, ranked) && total == WrappedActiveStake(vs)
    {
      vs, total := [], 0;
      var i := 0;
      while i < |ranked|
        invariant 0 <= i <= |ranked|
        invariant forall j :: 0 <= j < i && j < config.validatorSetSize ==> ranked[j].stake >= config.minimumSelfBond
        invariant vs == AllSeated(config, ranked)[..i] && total == WrappedActiveStake(vs)
      {
        var v := ranked[i];
        if i < config.validatorSetSize {
          if v.stake < config.minimumSelfBond {
            return vs, total, false;
          }
          v := v.(status := Active);
          total := Wrap(total + v.stake);
        } else {
          v := v.(status := Standby);
        }
        v := v.(jailedUntil := 0, downtimeEpochs := 0, signed := 0, missed := 0);
        ActiveStakeSnoc(vs, v);
        vs := vs + [v];
        i := i + 1;
      }
      assert vs == AllSeated(config, ranked);
      ok := true;
    }

    method CreateGenesisValidatorSet(validators: seq<Validator>) returns (ok: bool)
      modifies this`validatorSet, this`validatorSetInitialized
      ensures ok == GenesisSet(config, validators).Some?
      ensures Abs() == if ok then old(Abs()).(validatorSet := GenesisSet(config, validators).value, initialized := true)
                       else old(Abs())
    {
      if validators == [] {
        return false;
      }
      var ranked := Sort(Outranks, validators);
      var vs, total, enough := SeatValidators(ranked);
      if !enough {
        return false;
      }
      var hashes: seq<Hash> := [];
      var i := 0;
      while i < |vs|
        invariant 0 <= i <= |vs|
        invariant hashes == HashesOf(config.hashOf, vs)[..i]
      {
        hashes := hashes + [config.hashOf(vs[i])];
        i := i + 1;
      }
      assert hashes == HashesOf(config.hashOf, vs);
      var tree := new MerkleTree(config.hashPair);
      tree.BuildTree(hashes);
      validatorSet := ValidatorSet(config.initialEpoch, vs, total, tree.root);
      validatorSetInitialized := true;
      return true;
    }

    method Validate() returns (ok: bool)
      ensures ok == Validates(config, Abs())
    {
      if totalAllocated > config.totalSupply {
        return false;
      }
      var i := 0;
      while i < |allocations|
        invariant 0 <= i <= |allocations|
        invariant forall a :: a in allocations[..i] ==>
                    a.amount <= config.cap && (a.amount > config.vestingThreshold ==> a.vesting.Some?)
      {
        var a := allocations[i];
        if a.amount > config.cap || (a.amount > config.vestingThreshold && a.vesting.None?) {
          return false;
        }
        i := i + 1;
      }
      return true;
    }

    method ComputeStateRoot() returns (root: Hash)
      ensures root == AllocationRoot(config, allocations)
    {
      var hashes: seq<Hash> := [];
      var i := 0;
      while i < |allocations|
        invariant 0 <= i <= |allocations|
        invariant hashes == AllocationHashes(config, allocations)[..i]
      {
        hashes := hashes + [config.accountHash(Account(allocations[i].address, allocations[i].amount, 0, 0))];
        i := i + 1;
      }
      assert hashes == AllocationHashes(config, allocations);
      if hashes == [] {
        return 0;
      }
      var tree := new MerkleTree(config.hashPair);
      tree.BuildTree(Sort(Less(), hashes));
      return tree.root;
    }

    method Build() returns (block: Option<Block>)
      ensures block == Built(config, Abs())
    {
      var valid := Validate();
      if !valid || !validatorSetInitialized {
        return None;
      }
      var stateRoot := ComputeStateRoot();
      var txTree := new MerkleTree(config.hashPair);
      txTree.BuildTree([]);
      var header := BlockHeader(0, config.timestamp, 0, stateRoot, txTree.root, validatorSet.merkleRoot, 0,
                                config.initialEpoch);
      return Some(Block(header, [], QuorumCertificate(0, 0, 0, 0, [], 0)));
    }
  }
}
