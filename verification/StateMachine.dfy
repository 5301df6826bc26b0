/** The account state machine: blocks in, receipts and a state root out. */
module StateMachine {
  import opened Types
  import opened Sorting
  import opened KeyOrder
  import opened MerkleTree
  import opened Accounts
  import opened Execution

  datatype ChainState = ChainState(
    ledger: Ledger,
    receipts: map<Hash, Receipt>,
    height: u64,
    snapshots: map<u64, Hash>)

  /** A transaction as a block submits it. */
  datatype Submission = Submission(tx: Transaction, baseFee: u64, proposer: Address)

  /** The state machine validates every transaction against a blank key. */
  const BLANK_KEY: PublicKey := 0

  // ---- Specification ----

  function Submit(cfg: ChainConfig, l: Ledger, s: Submission): Ledger {
    Processed(cfg, l, s.tx, BLANK_KEY, s.baseFee, s.proposer)
  }

  function Run(cfg: ChainConfig, l: Ledger, subs: seq<Submission>): Ledger {
    if subs == [] then l else Submit(cfg, Run(cfg, l, subs[..|subs| - 1]), subs[|subs| - 1])
  }

  function ReceiptsAfter(cfg: ChainConfig, l: Ledger, rs: map<Hash, Receipt>, subs: seq<Submission>, height: u64)
    : map<Hash, Receipt>
  {
    if subs == [] then rs
    else
      var before := subs[..|subs| - 1];
      var r := ReceiptFor(cfg, Run(cfg, l, before), subs[|subs| - 1].tx, BLANK_KEY, height);
      ReceiptsAfter(cfg, l, rs, before, height)[r.txHash := r]
  }

  function SubmissionsOf(block: Block, baseFee: u64, proposer: Address): (r: seq<Submission>)
    ensures |r| == |block.transactions|
    ensures forall i :: 0 <= i < |r| ==> r[i] == Submission(block.transactions[i], baseFee, proposer)
  {
    seq(|block.transactions|, i requires 0 <= i < |block.transactions| =>
          Submission(block.transactions[i], baseFee, proposer))
  }

  function Less(): (Hash, Hash) -> bool {
    (a, b) => a < b
  }

  function AccountHashes(cfg: ChainConfig, m: AccountMap, keys: seq<Address>): (r: seq<Hash>)
    requires forall i :: 0 <= i < |keys| ==> keys[i] in m
    ensures |r| == |keys| && forall i :: 0 <= i < |keys| ==> r[i] == cfg.accountHash(m[keys[i]])
  {
    seq<Hash>(|keys|, i requires 0 <= i < |keys| => cfg.accountHash(m[keys[i]]))
  }

  function StateRoot(cfg: ChainConfig, m: AccountMap): Hash {
    if m == map[] then 0 else Root(cfg.hashPair, Sort(Less(), AccountHashes(cfg, m, Ascending(m.Keys))))
  }

  function AfterBlock(cfg: ChainConfig, c: ChainState, block: Block, baseFee: u64, proposer: Address): ChainState {
    var subs := SubmissionsOf(block, baseFee, proposer);
    ChainState(Run(cfg, c.ledger, subs),
               ReceiptsAfter(cfg, c.ledger, c.receipts, subs, block.header.height),
               block.header.height,
               c.snapshots[c.height := StateRoot(cfg, c.ledger.accounts)])
  }

  function Cleared(): ChainState {
    ChainState(Ledger(map[], 0, 0), map[], 0, map[])
  }

  function GenesisAccounts(allocations: seq<GenesisAllocation>): AccountMap {
    if allocations == [] then map[]
    else
      var a := allocations[|allocations| - 1];
      GenesisAccounts(allocations[..|allocations| - 1])[a.address := Account(a.address, a.amount, 0, 0)]
  }

  predicate GenesisAccepted(cfg: ChainConfig, block: Block, allocations: seq<GenesisAllocation>) {
    && block.header.height == 0 && block.header.epoch == 0
    && StateRoot(cfg, GenesisAccounts(allocations)) == block.header.stateRoot
  }

  function AfterGenesis(cfg: ChainConfig, c: ChainState, block: Block, allocations: seq<GenesisAllocation>)
    : ChainState
  {
    if block.header.height != 0 || block.header.epoch != 0 then c
    else if !GenesisAccepted(cfg, block, allocations) then Cleared()
    else
      var m := GenesisAccounts(allocations);
      ChainState(Ledger(m, 0, 0), map[], 0, map[0 := StateRoot(cfg, m)])
  }

  // ---- Object ----

  class StateMachine {
    const config: ChainConfig
    const accountManager: AccountManager
    const executor: TransactionExecutor
    var receipts: map<Hash, Receipt>
    var currentHeight: u64
    var stateSnapshots: map<u64, Hash>

    ghost predicate Valid()
      reads this
    {
      executor.manager == accountManager
    }

    ghost function Abs(): ChainState
      reads this, accountManager, executor
    {
      ChainState(Ledger(accountManager.accounts, executor.totalBurned, executor.totalPriorityFees),
                 receipts, currentHeight, stateSnapshots)
    }

    constructor (config: ChainConfig)
      ensures Valid() && fresh(accountManager) && fresh(executor)
      ensures this.config == config && Abs() == Cleared()
    {
      this.config := config;
      var manager := new AccountManager();
      accountManager := manager;
      executor := new TransactionExecutor(manager);
      receipts, currentHeight, stateSnapshots := map[], 0, map[];
    }

    method Clear()
      requires Valid()
      modifies this, accountManager, executor
      ensures Valid() && Abs() == Cleared()
    {
      accountManager.Clear();
      receipts, currentHeight, stateSnapshots := map[], 0, map[];
      executor.ResetCounters();
    }

    method ComputeStateRoot() returns (root: Hash)
      ensures root == StateRoot(config, accountManager.accounts)
    {
      var accounts := accountManager.accounts;
      if accounts == map[] {
        return 0;
      }
      var keys := Ascending(accounts.Keys);
      var hashes: seq<Hash> := [];
      var i := 0;
      while i < |keys|
        invariant 0 <= i <= |keys|
        invariant hashes == AccountHashes(config, accounts, keys)[..i]
      {
        hashes := hashes + [config.accountHash(accounts[keys[i]])];
        i := i + 1;
      }
      assert hashes == AccountHashes(config, accounts, keys);
      var tree := new MerkleTree(config.hashPair);
      tree.BuildTree(Sort(Less(), hashes));
      return tree.root;
    }

    method ExecuteTransaction(tx: Transaction, key: PublicKey, height: u64, baseFee: u64, proposer: Address)
        returns (receipt: Receipt)
      requires Valid()
      modifies accountManager, executor
      ensures Abs() == old(Abs()).(ledger := Processed(config, old(Abs()).ledger, tx, key, baseFee, proposer))
      ensures receipt == ReceiptFor(config, old(Abs()).ledger, tx, key, height)
    {
      var error := ValidateTransaction(config, tx, key, accountManager);
      if error.Some? {
        return Receipt(config.txHash(tx), height, false, 0, error);
      }
      receipt := executor.ExecuteTransaction(config, tx, height, baseFee, proposer);
    }

    method ExecuteBlock(block: Block, baseFee: u64, proposer: Address) returns (root: Hash)
      requires Valid()
      modifies this, accountManager, executor
      ensures Valid() && Abs() == AfterBlock(config, old(Abs()), block, baseFee, proposer)
      ensures root == StateRoot(config, Abs().ledger.accounts)
    {
      var snapshot := ComputeStateRoot();
      stateSnapshots := stateSnapshots[currentHeight := snapshot];
      ExecuteAll(block, baseFee, proposer);
      currentHeight := block.header.height;
      root := ComputeStateRoot();
    }

    method ExecuteAll(block: Block, baseFee: u64, proposer: Address)
      requires Valid()
      modifies this`receipts, accountManager, executor
      ensures var subs := SubmissionsOf(block, baseFee, proposer);
              Abs() == old(Abs()).(
                ledger := Run(config, old(Abs()).ledger, subs),
                receipts := ReceiptsAfter(config, old(Abs()).ledger, old(receipts), subs, block.header.height))
    {
      ghost var subs := SubmissionsOf(block, baseFee, proposer);
      ghost var start := Abs();
      var i := 0;
      while i < |block.transactions|
        invariant 0 <= i <= |block.transactions|
        invariant Abs() == start.(
                    ledger := Run(config, start.ledger, subs[..i]),
                    receipts := ReceiptsAfter(config, start.ledger, start.receipts, subs[..i], block.header.height))
      {
        var receipt := ExecuteTransaction(block.transactions[i], BLANK_KEY, block.header.height, baseFee, proposer);
        receipts := receipts[receipt.txHash := receipt];
        assert subs[..i + 1][..i] == subs[..i];
        i := i + 1;
      }
      assert subs[..i] == subs;
    }

    method InitializeFromGenesis(block: Block, allocations: seq<GenesisAllocation>) returns (ok: bool)
      requires Valid()
      modifies this, accountManager, executor
      ensures Valid() && ok == GenesisAccepted(config, block, allocations)
      ensures Abs() == AfterGenesis(config, old(Abs()), block, allocations)
    {
      if block.header.height != 0 || block.header.epoch != 0 {
        return false;
      }
      Clear();
      var i := 0;
      while i < |allocations|
        invariant 0 <= i <= |allocations| && Valid()
        invariant Abs() == Cleared().(ledger := Ledger(GenesisAccounts(allocations[..i]), 0, 0))
      {
        var account := accountManager.CreateAccount(allocations[i].address, allocations[i].amount);
        assert allocations[..i + 1][..i] == allocations[..i];
        i := i + 1;
      }
      assert allocations[..i] == allocations;
      var root := ComputeStateRoot();
      if root != block.header.stateRoot {
        Clear();
        return false;
      }
      currentHeight := 0;
      stateSnapshots := stateSnapshots[0 := root];
      return true;
    }
  }
}
