/** The pool's three containers stay in step over every run. */
module PoolIndexes {
  import opened Types
  import opened KeyOrder
  import opened Sorting
  import opened Accounts
  import opened Execution
  import opened Mempool

  // ---- The invariant ----

  ghost predicate Stored(cfg: PoolConfig, txs: map<Hash, PoolTx>) {
    forall h :: h in txs ==> cfg.txHash(txs[h].tx) == h && txs[h].totalFee == txs[h].tx.fee
  }

  ghost predicate FeeSorted(index: seq<FeeEntry>) {
    forall i, j :: 0 <= i < j < |index| ==> index[i].fee <= index[j].fee
  }

  ghost predicate DistinctHashes(index: seq<FeeEntry>) {
    forall i, j :: 0 <= i < j < |index| ==> index[i].hash != index[j].hash
  }

  /** The fee index lists every stored transaction once, under its fee. */
  ghost predicate Indexed(index: seq<FeeEntry>, txs: map<Hash, PoolTx>) {
    && FeeSorted(index) && DistinctHashes(index)
    && (forall e :: e in index ==> e.hash in txs && e.fee == txs[e.hash].totalFee)
    && (forall h :: h in txs ==> FeeEntry(txs[h].totalFee, h) in index)
  }

  ghost predicate NonceSorted(q: seq<PoolTx>) {
    forall i, j :: 0 <= i < j < |q| ==> q[i].tx.nonce <= q[j].tx.nonce
  }

  ghost predicate Holds(cfg: PoolConfig, a: Address, q: seq<PoolTx>, txs: map<Hash, PoolTx>) {
    && NoDuplicates(q) && NonceSorted(q)
    && forall t :: t in q ==> t.tx.from == a && cfg.txHash(t.tx) in txs && txs[cfg.txHash(t.tx)] == t
  }

  ghost predicate QueueOk(cfg: PoolConfig, a: Address, q: AccountQueue, txs: map<Hash, PoolTx>) {
    && q.account == a && 0 < |q.transactions| <= cfg.maxPerAccount && Holds(cfg, a, q.transactions, txs)
  }

  /** Each stored transaction is in its sender's queue; each queue is non-empty,
      within the limit, in nonce order, and holds only stored transactions. */
  ghost predicate Queued(cfg: PoolConfig, queues: map<Address, AccountQueue>, txs: map<Hash, PoolTx>) {
    && (forall a :: a in queues ==> QueueOk(cfg, a, queues[a], txs))
    && (forall h :: h in txs ==> txs[h].tx.from in queues && txs[h] in queues[txs[h].tx.from].transactions)
  }

  ghost predicate PoolInvariant(cfg: PoolConfig, st: PoolState) {
    && Stored(cfg, st.transactions) && Indexed(st.feeIndex, st.transactions) && Queued(cfg, st.queues, st.transactions)
  }

  // ---- Adding ----

  lemma InsertMembers<T(!new)>(s: seq<T>, p: nat, x: T)
    requires p <= |s|
    ensures forall y :: y in InsertAt(s, p, x) <==> y == x || y in s
    ensures NoDuplicates(s) && x !in s ==> NoDuplicates(InsertAt(s, p, x))
  {
    var r := InsertAt(s, p, x);
    forall y | y in s ensures y in r {
      var i :| 0 <= i < |s| && s[i] == y;
      assert r[if i < p then i else i + 1] == y;
    }
    assert r[p] == x;
  }

  lemma ReindexedIsIndex(index: seq<FeeEntry>, txs: map<Hash, PoolTx>, h: Hash, t: PoolTx)
    requires Indexed(index, txs) && h !in txs
    ensures Indexed(Reindexed(index, FeeEntry(t.totalFee, h)), txs[h := t])
  {
    var e := FeeEntry(t.totalFee, h);
    InsertMembers(index, UpperBound(index, e.fee), e);
    forall x | x in index ensures x.hash != h {}
    InsertSortedFee(index, e);
  }

  lemma InsertSortedFee(index: seq<FeeEntry>, e: FeeEntry)
    requires FeeSorted(index) && DistinctHashes(index) && forall x :: x in index ==> x.hash != e.hash
    ensures FeeSorted(Reindexed(index, e)) && DistinctHashes(Reindexed(index, e))
  {
    var p := UpperBound(index, e.fee);
    var r := Reindexed(index, e);
    forall i, j | 0 <= i < j < |r| ensures r[i].fee <= r[j].fee && r[i].hash != r[j].hash {
      assert i < p ==> r[i] == index[i];
      assert i > p ==> r[i] == index[i - 1];
      assert j < p ==> r[j] == index[j];
      assert j > p ==> r[j] == index[j - 1];
    }
  }

  lemma InsertNonceSorted(q: seq<PoolTx>, t: PoolTx)
    requires NonceSorted(q)
    ensures NonceSorted(InsertAt(q, NoncePosition(q, t.tx.nonce), t))
  {
    var p := NoncePosition(q, t.tx.nonce);
    var r := InsertAt(q, p, t);
    forall i, j | 0 <= i < j < |r| ensures r[i].tx.nonce <= r[j].tx.nonce {
      assert i < p ==> r[i] == q[i];
      assert i > p ==> r[i] == q[i - 1];
      assert j < p ==> r[j] == q[j];
      assert j > p ==> r[j] == q[j - 1];
    }
  }

  /** Queues of other senders do not notice a new transaction. */
  lemma HoldsMore(cfg: PoolConfig, a: Address, q: seq<PoolTx>, txs: map<Hash, PoolTx>, h: Hash, t: PoolTx)
    requires Holds(cfg, a, q, txs) && h !in txs
    ensures Holds(cfg, a, q, txs[h := t])
  {
  }

  lemma EnqueuedHolds(cfg: PoolConfig, a: Address, q: AccountQueue, txs: map<Hash, PoolTx>, h: Hash, t: PoolTx)
    requires Holds(cfg, a, q.transactions, txs) && h !in txs && cfg.txHash(t.tx) == h && t.tx.from == a
    ensures Holds(cfg, a, Enqueued(q, t).transactions, txs[h := t])
    ensures forall x :: x in Enqueued(q, t).transactions <==> x == t || x in q.transactions
  {
    InsertMembers(q.transactions, NoncePosition(q.transactions, t.tx.nonce), t);
    InsertNonceSorted(q.transactions, t);
  }

  /** `q` holds what the sender's queue does, nothing if it has none. */
  ghost predicate Claimed(queues: map<Address, AccountQueue>, a: Address, q: AccountQueue) {
    q.account == a && q.transactions == if a in queues then queues[a].transactions else []
  }

  lemma QueueOfIsClaimed(cfg: PoolConfig, st: PoolState, accounts: Option<AccountMap>, a: Address)
    requires Queued(cfg, st.queues, st.transactions)
    ensures Claimed(st.queues, a, QueueOf(st, accounts, a))
  {
  }

  lemma EnqueuedIsQueued(cfg: PoolConfig, queues: map<Address, AccountQueue>, txs: map<Hash, PoolTx>,
                         q: AccountQueue, h: Hash, t: PoolTx)
    requires Queued(cfg, queues, txs) && h !in txs && cfg.txHash(t.tx) == h
    requires Claimed(queues, t.tx.from, q) && |q.transactions| < cfg.maxPerAccount
    ensures Queued(cfg, queues[t.tx.from := Enqueued(q, t)], txs[h := t])
  {
    var a := t.tx.from;
    assert a in queues ==> QueueOk(cfg, a, queues[a], txs);
    EnqueuedHolds(cfg, a, q, txs, h, t);
    forall b | b in queues && b != a ensures QueueOk(cfg, b, queues[b], txs[h := t]) {
      HoldsMore(cfg, b, queues[b].transactions, txs, h, t);
    }
  }

  lemma RefusedQueueKept(cfg: PoolConfig, queues: map<Address, AccountQueue>, txs: map<Hash, PoolTx>,
                         a: Address, q: AccountQueue)
    requires Queued(cfg, queues, txs) && Claimed(queues, a, q) && |q.transactions| >= cfg.maxPerAccount
    ensures Queued(cfg, queues[a := q], txs) <==> cfg.maxPerAccount >= 1
  {
    if cfg.maxPerAccount >= 1 {
      assert a in queues && QueueOk(cfg, a, queues[a], txs);
    } else {
      assert a in queues[a := q] && !QueueOk(cfg, a, queues[a := q][a], txs);
    }
  }

  /** With an account manager: the sender's balance covers the 64-bit cost, and the nonce
      is in the window from the sender's. */
  ghost predicate Funded(cfg: PoolConfig, accounts: Option<AccountMap>, tx: Transaction) {
    accounts.Some? ==>
      && (tx.amount + tx.fee) % TWO_64 <= BalanceIn(accounts.value, tx.from)
      && NonceIn(accounts.value, tx.from) <= tx.nonce
      && tx.nonce <= (NonceIn(accounts.value, tx.from) + cfg.maxNonceGap) % TWO_64
  }

  lemma AdmissibleKeepsIndexes(cfg: PoolConfig, st: PoolState, accounts: Option<AccountMap>, tx: Transaction, now: u64)
    requires PoolInvariant(cfg, st)
    ensures PoolInvariant(cfg, WithTransaction(cfg, st, accounts, tx, now))
       <==> cfg.maxPerAccount >= 1 || !Admissible(cfg, accounts, tx)
  {
    var h := cfg.txHash(tx);
    if h in st.transactions {
      assert QueueOk(cfg, st.transactions[h].tx.from, st.queues[st.transactions[h].tx.from], st.transactions);
    } else if Admissible(cfg, accounts, tx) {
      var q := QueueOf(st, accounts, tx.from);
      QueueOfIsClaimed(cfg, st, accounts, tx.from);
      if |q.transactions| < cfg.maxPerAccount {
        var t := PoolTx(tx, now, tx.fee);
        ReindexedIsIndex(st.feeIndex, st.transactions, h, t);
        EnqueuedIsQueued(cfg, st.queues, st.transactions, q, h, t);
      } else {
        RefusedQueueKept(cfg, st.queues, st.transactions, tx.from, q);
      }
    }
  }

  lemma AdmissibleIsFunded(cfg: PoolConfig, accounts: Option<AccountMap>, tx: Transaction)
    ensures Admissible(cfg, accounts, tx) <==> Funded(cfg, accounts, tx)
  {
  }

  /** Adding keeps the indexes in step unless the limit is 0: then a funded transaction
      leaves an empty queue behind. */
  lemma AddKeepsIndexesExactly(cfg: PoolConfig, st: PoolState, accounts: Option<AccountMap>, tx: Transaction, now: u64)
    requires PoolInvariant(cfg, st)
    ensures PoolInvariant(cfg, WithTransaction(cfg, st, accounts, tx, now))
       <==> cfg.maxPerAccount >= 1 || !Funded(cfg, accounts, tx)
  {
    AdmissibleIsFunded(cfg, accounts, tx);
    AdmissibleKeepsIndexes(cfg, st, accounts, tx, now);
  }

  // ---- Removing ----

  lemma {:induction false} WithoutMembers(cfg: PoolConfig, q: seq<PoolTx>, hash: Hash)
    ensures forall t :: t in Without(cfg, q, hash) <==> t in q && cfg.txHash(t.tx) != hash
    ensures |Without(cfg, q, hash)| <= |q|
  {
    if q != [] {
      WithoutMembers(cfg, q[..|q| - 1], hash);
      assert q == q[..|q| - 1] + [q[|q| - 1]];
    }
  }

  lemma {:induction false} WithoutInOrder(cfg: PoolConfig, q: seq<PoolTx>, hash: Hash)
    requires NoDuplicates(q) && NonceSorted(q)
    ensures NoDuplicates(Without(cfg, q, hash)) && NonceSorted(Without(cfg, q, hash))
  {
    if q != [] {
      var init, t := q[..|q| - 1], q[|q| - 1];
      WithoutInOrder(cfg, init, hash);
      WithoutMembers(cfg, init, hash);
      assert forall x :: x in init ==> x != t && x.tx.nonce <= t.tx.nonce;
    }
  }

  lemma RemoveAtFacts(index: seq<FeeEntry>, p: nat)
    requires FeeSorted(index) && DistinctHashes(index) && p < |index|
    ensures var r := index[..p] + index[p + 1..];
            && FeeSorted(r) && DistinctHashes(r)
            && forall x :: x in r <==> x in index && x.hash != index[p].hash
  {
    var r := index[..p] + index[p + 1..];
    forall x | x in index && x.hash != index[p].hash ensures x in r {
      var i :| 0 <= i < |index| && index[i] == x;
      assert r[if i < p then i else i - 1] == x;
    }
  }

  lemma IndexWithoutIsIndex(index: seq<FeeEntry>, txs: map<Hash, PoolTx>, h: Hash)
    requires Indexed(index, txs) && h in txs
    ensures Indexed(IndexWithout(index, FeeEntry(txs[h].totalFee, h)), txs - {h})
  {
    var e := FeeEntry(txs[h].totalFee, h);
    assert e in index;
    RemoveAtFacts(index, EntryPosition(index, e));
    IndexedAfter(index, IndexWithout(index, e), txs, h);
  }

  lemma IndexedAfter(index: seq<FeeEntry>, r: seq<FeeEntry>, txs: map<Hash, PoolTx>, h: Hash)
    requires Indexed(index, txs) && FeeSorted(r) && DistinctHashes(r)
    requires forall x :: x in r <==> x in index && x.hash != h
    ensures Indexed(r, txs - {h})
  {
  }

  lemma QueuesWithoutIsQueued(cfg: PoolConfig, queues: map<Address, AccountQueue>, txs: map<Hash, PoolTx>, h: Hash)
    requires Stored(cfg, txs) && Queued(cfg, queues, txs) && h in txs
    ensures Queued(cfg, QueuesWithout(cfg, queues, txs[h].tx.from, h), txs - {h})
  {
    var a := txs[h].tx.from;
    WithoutMembers(cfg, queues[a].transactions, h);
    WithoutInOrder(cfg, queues[a].transactions, h);
    var queues' := QueuesWithout(cfg, queues, a, h);
    forall b | b in queues' ensures QueueOk(cfg, b, queues'[b], txs - {h}) {
      assert QueueOk(cfg, b, queues[b], txs);
      if b != a {
        forall t | t in queues[b].transactions ensures cfg.txHash(t.tx) != h {}
      }
    }
    forall k | k in txs && k != h
      ensures txs[k].tx.from in queues' && txs[k] in queues'[txs[k].tx.from].transactions
    {
      assert cfg.txHash(txs[k].tx) == k;
    }
  }

  lemma RemoveOneKeepsIndexes(cfg: PoolConfig, st: PoolState, h: Hash)
    requires PoolInvariant(cfg, st)
    ensures PoolInvariant(cfg, WithoutOne(cfg, st, h))
    ensures WithoutOne(cfg, st, h).transactions == st.transactions - {h}
  {
    if h in st.transactions {
      IndexWithoutIsIndex(st.feeIndex, st.transactions, h);
      QueuesWithoutIsQueued(cfg, st.queues, st.transactions, h);
    }
  }

  /** Removal takes out exactly the named transactions, from all three containers. */
  lemma {:induction false} RemoveKeepsIndexes(cfg: PoolConfig, st: PoolState, hashes: seq<Hash>)
    requires PoolInvariant(cfg, st)
    ensures LeftAfter(cfg, st, WithoutAll(cfg, st, hashes), Elements(hashes))
  {
    if hashes != [] {
      var init, h := hashes[..|hashes| - 1], hashes[|hashes| - 1];
      RemoveKeepsIndexes(cfg, st, init);
      RemoveOneMore(cfg, st, WithoutAll(cfg, st, init), Elements(init), h);
      ElementsSnoc(init, h);
      assert hashes == init + [h];
    }
  }

  ghost predicate LeftAfter(cfg: PoolConfig, st: PoolState, st': PoolState, gone: set<Hash>) {
    PoolInvariant(cfg, st') && st'.transactions == st.transactions - gone
  }

  lemma RemoveOneMore(cfg: PoolConfig, st: PoolState, st1: PoolState, gone: set<Hash>, h: Hash)
    requires LeftAfter(cfg, st, st1, gone)
    ensures LeftAfter(cfg, st, WithoutOne(cfg, st1, h), gone + {h})
  {
    RemoveOneKeepsIndexes(cfg, st1, h);
  }

  function Elements(s: seq<Hash>): set<Hash> {
    set h | h in s
  }

  lemma ElementsSnoc(s: seq<Hash>, h: Hash)
    ensures Elements(s + [h]) == Elements(s) + {h}
  {
  }

  lemma {:induction false} ExpiredExact(cfg: PoolConfig, m: map<Hash, PoolTx>, keys: seq<Hash>, now: u64)
    requires forall i :: 0 <= i < |keys| ==> keys[i] in m
    ensures forall h :: h in ExpiredAmong(cfg, m, keys, now) <==> h in keys && h in m && Expired(cfg, m[h], now)
  {
    if keys != [] {
      ExpiredExact(cfg, m, keys[..|keys| - 1], now);
      assert keys == keys[..|keys| - 1] + [keys[|keys| - 1]];
    }
  }

  /** The 64-bit time since is more than this age. */
  ghost predicate Older(now: u64, received: u64, age: u64) {
    (now - received) % TWO_64 > age
  }

  /** Pruning removes exactly the transactions older, modulo 2^64, than the limit. */
  lemma PruneKeepsIndexes(cfg: PoolConfig, st: PoolState, now: u64)
    requires PoolInvariant(cfg, st)
    ensures var st' := Pruned(cfg, st, now);
            && PoolInvariant(cfg, st')
            && (forall h :: h in st'.transactions <==>
                  h in st.transactions && !Older(now, st.transactions[h].received, cfg.maxAge))
            && (forall h :: h in st'.transactions ==> st'.transactions[h] == st.transactions[h])
  {
    var keys := Ascending(st.transactions.Keys);
    AscendingIsOrder(st.transactions.Keys);
    ExpiredExact(cfg, st.transactions, keys, now);
    RemoveKeepsIndexes(cfg, st, ExpiredAmong(cfg, st.transactions, keys, now));
  }

  // ---- Runs ----

  datatype Op =
    | Add(accounts: Option<AccountMap>, tx: Transaction, now: u64)
    | Remove(hashes: seq<Hash>)
    | Prune(time: u64)
    | Clear

  function Apply(cfg: PoolConfig, st: PoolState, op: Op): PoolState {
    match op
    case Add(accounts, tx, now) => WithTransaction(cfg, st, accounts, tx, now)
    case Remove(hashes) => WithoutAll(cfg, st, hashes)
    case Prune(now) => Pruned(cfg, st, now)
    case Clear => PoolState(map[], [], map[])
  }

  function Run(cfg: PoolConfig, ops: seq<Op>): PoolState {
    if ops == [] then PoolState(map[], [], map[])
    else Apply(cfg, Run(cfg, ops[..|ops| - 1]), ops[|ops| - 1])
  }

  lemma {:induction false} IndexesAgree(cfg: PoolConfig, ops: seq<Op>)
    requires cfg.maxPerAccount >= 1
    ensures PoolInvariant(cfg, Run(cfg, ops))
  {
    if ops != [] {
      var st := Run(cfg, ops[..|ops| - 1]);
      IndexesAgree(cfg, ops[..|ops| - 1]);
      match ops[|ops| - 1]
      case Add(accounts, tx, now) => AddKeepsIndexesExactly(cfg, st, accounts, tx, now);
      case Remove(hashes) => RemoveKeepsIndexes(cfg, st, hashes);
      case Prune(now) => PruneKeepsIndexes(cfg, st, now);
      case Clear =>
    }
  }

  /** In agreement, the three containers have the same size. */
  lemma SameCount(cfg: PoolConfig, st: PoolState)
    requires PoolInvariant(cfg, st)
    ensures |st.feeIndex| == |st.transactions|
  {
    var hashes := seq<Hash>(|st.feeIndex|, i requires 0 <= i < |st.feeIndex| => st.feeIndex[i].hash);
    CountDistinct(hashes);
    assert Elements(hashes) == st.transactions.Keys by {
      forall h | h in st.transactions ensures h in hashes {
        var i :| 0 <= i < |st.feeIndex| && st.feeIndex[i] == FeeEntry(st.transactions[h].totalFee, h);
        assert hashes[i] == h;
      }
    }
  }

  lemma {:induction false} CountDistinct(s: seq<Hash>)
    requires NoDuplicates(s)
    ensures |Elements(s)| == |s|
  {
    if s != [] {
      var init, last := s[..|s| - 1], s[|s| - 1];
      CountDistinct(init);
      assert s == init + [last];
      ElementsSnoc(init, last);
    }
  }
}
