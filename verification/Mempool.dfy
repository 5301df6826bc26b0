/** The pool of pending transactions: a lookup by hash, an index by fee and a queue
    per sender, and the selection of a block's transactions from them. */
module Mempool {
  import opened Types
  import opened KeyOrder
  import opened Accounts
  import opened Execution

  datatype PoolConfig = PoolConfig(maxPerAccount: u64, maxNonceGap: u64, maxAge: u64, txHash: Transaction -> Hash)

  datatype PoolTx = PoolTx(tx: Transaction, received: u64, totalFee: u64)

  datatype AccountQueue = AccountQueue(account: Address, transactions: seq<PoolTx>, nextExpected: u64)

  datatype FeeEntry = FeeEntry(fee: u64, hash: Hash)

  /** `feeIndex` is in ascending fee order, entries of one fee in insertion order. */
  datatype PoolState = PoolState(
    queues: map<Address, AccountQueue>,
    feeIndex: seq<FeeEntry>,
    transactions: map<Hash, PoolTx>)

  // ---- Adding ----

  /** Balance and nonce checks, made only when an account manager is set. */
  predicate Admissible(cfg: PoolConfig, accounts: Option<AccountMap>, tx: Transaction) {
    accounts.Some? ==>
      var account := AccountAt(accounts.value, tx.from);
      && account.balance >= Cost(tx)
      && account.nonce <= tx.nonce <= Wrap(account.nonce + cfg.maxNonceGap)
  }

  /** The sender's queue, created and claimed if need be. */
  function QueueOf(st: PoolState, accounts: Option<AccountMap>, a: Address): AccountQueue {
    var q := if a in st.queues then st.queues[a] else AccountQueue(0, [], 0);
    if q.account != 0 then q
    else q.(account := a, nextExpected := if accounts.Some? then AccountAt(accounts.value, a).nonce else q.nextExpected)
  }

  /** The first position whose nonce is not below `nonce`. */
  function NoncePosition(q: seq<PoolTx>, nonce: u64): (p: nat)
    ensures p <= |q| && (p < |q| ==> q[p].tx.nonce >= nonce)
    ensures forall i :: 0 <= i < p ==> q[i].tx.nonce < nonce
  {
    if q == [] || q[0].tx.nonce >= nonce then 0 else 1 + NoncePosition(q[1..], nonce)
  }

  /** The first position whose fee is above `fee`. */
  function UpperBound(index: seq<FeeEntry>, fee: u64): (p: nat)
    ensures p <= |index| && (p < |index| ==> index[p].fee > fee)
    ensures forall i :: 0 <= i < p ==> index[i].fee <= fee
  {
    if index == [] || index[0].fee > fee then 0 else 1 + UpperBound(index[1..], fee)
  }

  function InsertAt<T>(s: seq<T>, p: nat, x: T): (r: seq<T>)
    requires p <= |s|
    ensures |r| == |s| + 1 && r[p] == x
    ensures forall i :: 0 <= i < p ==> r[i] == s[i]
    ensures forall i :: p <= i < |s| ==> r[i + 1] == s[i]
  {
    s[..p] + [x] + s[p..]
  }

  function Enqueued(q: AccountQueue, t: PoolTx): AccountQueue {
    q.(transactions := InsertAt(q.transactions, NoncePosition(q.transactions, t.tx.nonce), t))
  }

  function Reindexed(index: seq<FeeEntry>, e: FeeEntry): seq<FeeEntry> {
    InsertAt(index, UpperBound(index, e.fee), e)
  }

  predicate Takes(cfg: PoolConfig, st: PoolState, accounts: Option<AccountMap>, tx: Transaction) {
    && cfg.txHash(tx) !in st.transactions && Admissible(cfg, accounts, tx)
    && |QueueOf(st, accounts, tx.from).transactions| < cfg.maxPerAccount
  }

  function WithTransaction(cfg: PoolConfig, st: PoolState, accounts: Option<AccountMap>, tx: Transaction, now: u64)
    : PoolState
  {
    var hash := cfg.txHash(tx);
    if hash in st.transactions || !Admissible(cfg, accounts, tx) then st
    else
      var q := QueueOf(st, accounts, tx.from);
      if |q.transactions| >= cfg.maxPerAccount then st.(queues := st.queues[tx.from := q])
      else
        var t := PoolTx(tx, now, tx.fee);
        PoolState(st.queues[tx.from := Enqueued(q, t)],
                  Reindexed(st.feeIndex, FeeEntry(tx.fee, hash)),
                  st.transactions[hash := t])
  }

  // ---- Removing ----

  function Without(cfg: PoolConfig, q: seq<PoolTx>, hash: Hash): seq<PoolTx> {
    if q == [] then []
    else
      var t := q[|q| - 1];
      Without(cfg, q[..|q| - 1], hash) + if cfg.txHash(t.tx) == hash then [] else [t]
  }

  function QueuesWithout(cfg: PoolConfig, queues: map<Address, AccountQueue>, a: Address, hash: Hash)
    : map<Address, AccountQueue>
  {
    if a !in queues then queues
    else
      var left := Without(cfg, queues[a].transactions, hash);
      if left == [] then queues - {a} else queues[a := queues[a].(transactions := left)]
  }

  /** The first position of an entry, or the length. */
  function EntryPosition(index: seq<FeeEntry>, e: FeeEntry): (p: nat)
    ensures p <= |index| && (p < |index| ==> index[p] == e)
    ensures forall i :: 0 <= i < p ==> index[i] != e
  {
    if index == [] || index[0] == e then 0 else 1 + EntryPosition(index[1..], e)
  }

  function IndexWithout(index: seq<FeeEntry>, e: FeeEntry): seq<FeeEntry> {
    var p := EntryPosition(index, e);
    if p == |index| then index else index[..p] + index[p + 1..]
  }

  function WithoutOne(cfg: PoolConfig, st: PoolState, hash: Hash): PoolState {
    if hash !in st.transactions then st
    else
      var t := st.transactions[hash];
      PoolState(QueuesWithout(cfg, st.queues, t.tx.from, hash),
                IndexWithout(st.feeIndex, FeeEntry(t.totalFee, hash)),
                st.transactions - {hash})
  }

  function WithoutAll(cfg: PoolConfig, st: PoolState, hashes: seq<Hash>): PoolState {
    if hashes == [] then st
    else WithoutOne(cfg, WithoutAll(cfg, st, hashes[..|hashes| - 1]), hashes[|hashes| - 1])
  }

  predicate Expired(cfg: PoolConfig, t: PoolTx, now: u64) {
    Wrap(now - t.received) > cfg.maxAge
  }

  function ExpiredAmong(cfg: PoolConfig, m: map<Hash, PoolTx>, keys: seq<Hash>, now: u64): seq<Hash>
    requires forall i :: 0 <= i < |keys| ==> keys[i] in m
  {
    if keys == [] then []
    else
      var k := keys[|keys| - 1];
      ExpiredAmong(cfg, m, keys[..|keys| - 1], now) + if Expired(cfg, m[k], now) then [k] else []
  }

  function Pruned(cfg: PoolConfig, st: PoolState, now: u64): PoolState {
    WithoutAll(cfg, st, ExpiredAmong(cfg, st.transactions, Ascending(st.transactions.Keys), now))
  }

  // ---- Selecting ----

  /** What the selection loop carries. */
  datatype Pick = Pick(chosen: seq<Transaction>, gas: u64, next: map<Address, u64>)

  function StartNonces(st: PoolState, accounts: Option<AccountMap>): map<Address, u64> {
    if accounts.None? then map[] else map a | a in st.queues :: AccountAt(accounts.value, a).nonce
  }

  function Consider(st: PoolState, managed: bool, maxGas: u64, minFee: u64, p: Pick, e: FeeEntry): Pick {
    if e.hash !in st.transactions then p
    else
      var tx := st.transactions[e.hash].tx;
      if tx.fee < minFee || Wrap(p.gas + tx.gasLimit) > maxGas then p
      else if !managed || tx.from !in p.next then
        Pick(p.chosen + [tx], Wrap(p.gas + tx.gasLimit), p.next)
      else if tx.nonce != p.next[tx.from] then p
      else
        Pick(p.chosen + [tx], Wrap(p.gas + tx.gasLimit), p.next[tx.from := Wrap(p.next[tx.from] as int + 1)])
  }

  /** The selection after the k entries of highest fee. */
  function PickAmong(st: PoolState, accounts: Option<AccountMap>, maxGas: u64, minFee: u64, k: nat): Pick
    requires k <= |st.feeIndex|
  {
    if k == 0 then Pick([], 0, StartNonces(st, accounts))
    else
      Consider(st, accounts.Some?, maxGas, minFee, PickAmong(st, accounts, maxGas, minFee, k - 1),
               st.feeIndex[|st.feeIndex| - k])
  }

  // ---- Object ----

  class Mempool {
    const config: PoolConfig
    var accountManager: AccountManager?
    var accountQueues: map<Address, AccountQueue>
    var feeIndex: seq<FeeEntry>
    var transactions: map<Hash, PoolTx>

    ghost function Abs(): PoolState
      reads this
    {
      PoolState(accountQueues, feeIndex, transactions)
    }

    ghost function Accounts(): Option<AccountMap>
      reads this, accountManager
    {
      if accountManager == null then None else Some(accountManager.accounts)
    }

    constructor (config: PoolConfig)
      ensures this.config == config && Abs() == PoolState(map[], [], map[]) && accountManager == null
    {
      this.config := config;
      accountManager := null;
      accountQueues, feeIndex, transactions := map[], [], map[];
    }

    method SetAccountManager(manager: AccountManager?)
      modifies this`accountManager
      ensures accountManager == manager
    {
      accountManager := manager;
    }

    method CheckAgainstAccounts(tx: Transaction) returns (ok: bool)
      ensures ok == Admissible(config, Accounts(), tx)
    {
      if accountManager == null {
        return true;
      }
      var required := Wrap(tx.amount + tx.fee);
      var funded := accountManager.HasSufficientBalance(tx.from, required);
      if !funded {
        return false;
      }
      var account := accountManager.GetAccount(tx.from);
      if tx.nonce < account.nonce {
        return false;
      }
      if tx.nonce > Wrap(account.nonce + config.maxNonceGap) {
        return false;
      }
      return true;
    }

    method ClaimQueue(a: Address) returns (queue: AccountQueue)
      modifies this`accountQueues
      ensures queue == QueueOf(old(Abs()), old(Accounts()), a)
      ensures accountQueues == old(accountQueues)[a := queue]
    {
      queue := if a in accountQueues then accountQueues[a] else AccountQueue(0, [], 0);
      if queue.account == 0 {
        queue := queue.(account := a);
        if accountManager != null {
          var account := accountManager.GetAccount(a);
          queue := queue.(nextExpected := account.nonce);
        }
      }
      accountQueues := accountQueues[a := queue];
    }

    method AddTransaction(tx: Transaction, now: u64) returns (ok: bool)
      modifies this`accountQueues, this`feeIndex, this`transactions
      ensures ok == Takes(config, old(Abs()), old(Accounts()), tx)
      ensures Abs() == WithTransaction(config, old(Abs()), old(Accounts()), tx, now)
    {
      var hash := config.txHash(tx);
      if hash in transactions {
        return false;
      }
      var admissible := CheckAgainstAccounts(tx);
      if !admissible {
        return false;
      }
      var queue := ClaimQueue(tx.from);
      if |queue.transactions| >= config.maxPerAccount {
        return false;
      }
      var t := PoolTx(tx, now, tx.fee);
      var enqueued := InsertInNonceOrder(queue, t);
      accountQueues := accountQueues[tx.from := enqueued];
      transactions := transactions[hash := t];
      InsertIntoFeeIndex(FeeEntry(tx.fee, hash));
      return true;
    }

    method InsertInNonceOrder(queue: AccountQueue, t: PoolTx) returns (r: AccountQueue)
      ensures r == Enqueued(queue, t)
    {
      var q := queue.transactions;
      var i := 0;
      while i < |q| && q[i].tx.nonce < t.tx.nonce
        invariant 0 <= i <= |q|
        invariant forall j :: 0 <= j < i ==> q[j].tx.nonce < t.tx.nonce
      {
        i := i + 1;
      }
      assert i == NoncePosition(q, t.tx.nonce);
      return queue.(transactions := q[..i] + [t] + q[i..]);
    }

    method InsertIntoFeeIndex(e: FeeEntry)
      modifies this`feeIndex
      ensures feeIndex == Reindexed(old(feeIndex), e)
    {
      var i := 0;
      while i < |feeIndex| && feeIndex[i].fee <= e.fee
        invariant 0 <= i <= |feeIndex|
        invariant forall j :: 0 <= j < i ==> feeIndex[j].fee <= e.fee
      {
        i := i + 1;
      }
      assert i == UpperBound(feeIndex, e.fee);
      feeIndex := feeIndex[..i] + [e] + feeIndex[i..];
    }

    method RemoveFromQueue(a: Address, hash: Hash)
      modifies this`accountQueues
      ensures accountQueues == QueuesWithout(config, old(accountQueues), a, hash)
    {
      if a in accountQueues {
        var q := accountQueues[a].transactions;
        var left: seq<PoolTx> := [];
        var i := 0;
        while i < |q|
          invariant 0 <= i <= |q| && left == Without(config, q[..i], hash)
        {
          assert q[..i + 1][..i] == q[..i];
          if config.txHash(q[i].tx) != hash {
            left := left + [q[i]];
          }
          i := i + 1;
        }
        assert q[..i] == q;
        if left == [] {
          accountQueues := accountQueues - {a};
        } else {
          accountQueues := accountQueues[a := accountQueues[a].(transactions := left)];
        }
      }
    }

    method RemoveFromFeeIndex(e: FeeEntry)
      modifies this`feeIndex
      ensures feeIndex == IndexWithout(old(feeIndex), e)
    {
      var i := 0;
      while i < |feeIndex| && feeIndex[i] != e
        invariant 0 <= i <= |feeIndex|
        invariant forall j :: 0 <= j < i ==> feeIndex[j] != e
      {
        i := i + 1;
      }
      assert i == EntryPosition(feeIndex, e);
      if i < |feeIndex| {
        feeIndex := feeIndex[..i] + feeIndex[i + 1..];
      }
    }

    method RemoveTransactions(hashes: seq<Hash>)
      modifies this`accountQueues, this`feeIndex, this`transactions
      ensures Abs() == WithoutAll(config, old(Abs()), hashes)
    {
      var i := 0;
      while i < |hashes|
        invariant 0 <= i <= |hashes|
        invariant Abs() == WithoutAll(config, old(Abs()), hashes[..i])
      {
        var hash := hashes[i];
        assert hashes[..i + 1][..i] == hashes[..i];
        if hash in transactions {
          var t := transactions[hash];
          RemoveFromQueue(t.tx.from, hash);
          RemoveFromFeeIndex(FeeEntry(t.totalFee, hash));
          transactions := transactions - {hash};
        }
        i := i + 1;
      }
      assert hashes[..i] == hashes;
    }

    method PruneOldTransactions(now: u64)
      modifies this`accountQueues, this`feeIndex, this`transactions
      ensures Abs() == Pruned(config, old(Abs()), now)
    {
      var keys := Ascending(transactions.Keys);
      var expired: seq<Hash> := [];
      var i := 0;
      while i < |keys|
        invariant 0 <= i <= |keys|
        invariant expired == ExpiredAmong(config, transactions, keys[..i], now)
      {
        assert keys[..i + 1][..i] == keys[..i];
        if Wrap(now - transactions[keys[i]].received) > config.maxAge {
          expired := expired + [keys[i]];
        }
        i := i + 1;
      }
      assert keys[..i] == keys;
      RemoveTransactions(expired);
    }

    method Clear()
      modifies this`accountQueues, this`feeIndex, this`transactions
      ensures Abs() == PoolState(map[], [], map[])
    {
      accountQueues, feeIndex, transactions := map[], [], map[];
    }

    method GetAccountTransactions(a: Address) returns (result: seq<Transaction>)
      ensures |result| == if a in accountQueues then |accountQueues[a].transactions| else 0
      ensures forall i :: 0 <= i < |result| ==> result[i] == accountQueues[a].transactions[i].tx
    {
      result := [];
      if a in accountQueues {
        var q := accountQueues[a].transactions;
        var i := 0;
        while i < |q|
          invariant 0 <= i <= |q| && |result| == i
          invariant forall j :: 0 <= j < i ==> result[j] == q[j].tx
        {
          result := result + [q[i].tx];
          i := i + 1;
        }
      }
    }

    method GetTransactionsForBlock(maxGas: u64, minFee: u64) returns (result: seq<Transaction>)
      ensures result == PickAmong(Abs(), Accounts(), maxGas, minFee, |feeIndex|).chosen
    {
      result := [];
      var gasUsed: u64 := 0;
      var next: map<Address, u64> := map[];
      if accountManager != null {
        next := map a | a in accountQueues :: AccountAt(accountManager.accounts, a).nonce;
      }
      var k := 0;
      while k < |feeIndex|
        invariant 0 <= k <= |feeIndex|
        invariant Pick(result, gasUsed, next) == PickAmong(Abs(), Accounts(), maxGas, minFee, k)
      {
        var e := feeIndex[|feeIndex| - 1 - k];
        k := k + 1;
        if e.hash !in transactions {
          continue;
        }
        var tx := transactions[e.hash].tx;
        if tx.fee < minFee {
          continue;
        }
        if Wrap(gasUsed + tx.gasLimit) > maxGas {
          continue;
        }
        if accountManager != null && tx.from in next {
          if tx.nonce != next[tx.from] {
            continue;
          }
          next := next[tx.from := Wrap(next[tx.from] as int + 1)];
        }
        result := result + [tx];
        gasUsed := Wrap(gasUsed + tx.gasLimit);
      }
    }
  }
}
