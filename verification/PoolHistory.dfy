/** The pool against its history: which transactions are pooled after any run. */
module PoolHistory {
  import opened Types
  import opened Places
  import opened Accounts
  import opened Execution
  import opened Mempool
  import opened PoolIndexes

  ghost function PooledFrom(txs: map<Hash, PoolTx>, a: Address): set<Hash> {
    set h | h in txs && txs[h].tx.from == a
  }

  /** New, funded, and one of fewer than the limit from its sender. */
  ghost predicate Admitted(cfg: PoolConfig, txs: map<Hash, PoolTx>, accounts: Option<AccountMap>, tx: Transaction) {
    && cfg.txHash(tx) !in txs && Funded(cfg, accounts, tx)
    && |PooledFrom(txs, tx.from)| < cfg.maxPerAccount
  }

  ghost function HashesIn(cfg: PoolConfig, q: seq<PoolTx>): set<Hash> {
    set t | t in q :: cfg.txHash(t.tx)
  }

  lemma {:induction false} HashesCounted(cfg: PoolConfig, q: seq<PoolTx>)
    requires forall i, j :: 0 <= i < j < |q| ==> cfg.txHash(q[i].tx) != cfg.txHash(q[j].tx)
    ensures |HashesIn(cfg, q)| == |q|
  {
    if q != [] {
      var init, t := q[..|q| - 1], q[|q| - 1];
      HashesCounted(cfg, init);
      assert q == init + [t];
      assert HashesIn(cfg, q) == HashesIn(cfg, init) + {cfg.txHash(t.tx)};
    }
  }

  /** A sender's queue is as long as it has transactions pooled. */
  lemma QueueLength(cfg: PoolConfig, st: PoolState, a: Address)
    requires PoolInvariant(cfg, st)
    ensures |PooledFrom(st.transactions, a)| == if a in st.queues then |st.queues[a].transactions| else 0
  {
    if a in st.queues {
      var q := st.queues[a].transactions;
      assert QueueOk(cfg, a, st.queues[a], st.transactions);
      forall i, j | 0 <= i < j < |q| ensures cfg.txHash(q[i].tx) != cfg.txHash(q[j].tx) {
        assert q[i] in q && q[j] in q;
      }
      HashesCounted(cfg, q);
      assert HashesIn(cfg, q) == PooledFrom(st.transactions, a) by {
        forall h | h in PooledFrom(st.transactions, a) ensures h in HashesIn(cfg, q) {
          assert st.transactions[h] in q && cfg.txHash(st.transactions[h].tx) == h;
        }
      }
    } else {
      assert PooledFrom(st.transactions, a) == {};
    }
  }

  lemma TakesExactly(cfg: PoolConfig, st: PoolState, accounts: Option<AccountMap>, tx: Transaction)
    requires PoolInvariant(cfg, st)
    ensures Takes(cfg, st, accounts, tx) <==> Admitted(cfg, st.transactions, accounts, tx)
  {
    AdmissibleIsFunded(cfg, accounts, tx);
    QueueLength(cfg, st, tx.from);
    QueueOfIsClaimed(cfg, st, accounts, tx.from);
  }

  lemma TakenIsPooled(cfg: PoolConfig, st: PoolState, accounts: Option<AccountMap>, tx: Transaction, now: u64)
    ensures WithTransaction(cfg, st, accounts, tx, now).transactions
         == if Takes(cfg, st, accounts, tx)
            then st.transactions[cfg.txHash(tx) := PoolTx(tx, now, tx.fee)] else st.transactions
  {
  }

  /** Adding pools exactly the admitted transactions, with their time and fee; anything
      else leaves what is pooled as it was. */
  lemma AddExact(cfg: PoolConfig, st: PoolState, accounts: Option<AccountMap>, tx: Transaction, now: u64)
    requires PoolInvariant(cfg, st)
    ensures Takes(cfg, st, accounts, tx) <==> Admitted(cfg, st.transactions, accounts, tx)
    ensures WithTransaction(cfg, st, accounts, tx, now).transactions
         == if Admitted(cfg, st.transactions, accounts, tx)
            then st.transactions[cfg.txHash(tx) := PoolTx(tx, now, tx.fee)] else st.transactions
  {
    TakesExactly(cfg, st, accounts, tx);
    TakenIsPooled(cfg, st, accounts, tx, now);
  }

  // ---- Places in the index and the queue ----

  /** A fee entry goes behind those of lower or equal fee, so equal fees keep the order of
      arrival; a queued transaction goes before the first of no smaller nonce. */
  lemma EntersAt(index: seq<FeeEntry>, e: FeeEntry, q: AccountQueue, t: PoolTx) returns (p: nat, k: nat)
    ensures p <= |index| && Reindexed(index, e) == index[..p] + [e] + index[p..]
    ensures p < |index| ==> index[p].fee > e.fee
    ensures forall i :: 0 <= i < p ==> index[i].fee <= e.fee
    ensures k <= |q.transactions|
    ensures Enqueued(q, t).transactions == q.transactions[..k] + [t] + q.transactions[k..]
    ensures k < |q.transactions| ==> q.transactions[k].tx.nonce >= t.tx.nonce
    ensures forall i :: 0 <= i < k ==> q.transactions[i].tx.nonce < t.tx.nonce
  {
    p := UpperBound(index, e.fee);
    k := NoncePosition(q.transactions, t.tx.nonce);
  }

  // ---- Whole runs ----

  /** This step drops a transaction with this digest, received then. */
  ghost predicate Drops(cfg: PoolConfig, op: Op, h: Hash, received: u64) {
    match op
    case Add(_, _, _) => false
    case Remove(hashes) => h in hashes
    case Prune(now) => Older(now, received, cfg.maxAge)
    case Clear => true
  }

  /** Step k admitted this transaction, and none since dropped it. */
  ghost predicate PooledAt(cfg: PoolConfig, ops: seq<Op>, t: PoolTx, k: int) {
    && 0 <= k < |ops| && ops[k].Add?
    && t == PoolTx(ops[k].tx, ops[k].now, ops[k].tx.fee)
    && Admitted(cfg, Run(cfg, ops[..k]).transactions, ops[k].accounts, ops[k].tx)
    && forall j :: k < j < |ops| ==> !Drops(cfg, ops[j], cfg.txHash(t.tx), t.received)
  }

  ghost predicate IsPooled(cfg: PoolConfig, txs: map<Hash, PoolTx>, t: PoolTx) {
    cfg.txHash(t.tx) in txs && txs[cfg.txHash(t.tx)] == t
  }

  ghost predicate Adds(cfg: PoolConfig, txs: map<Hash, PoolTx>, op: Op, t: PoolTx) {
    op.Add? && t == PoolTx(op.tx, op.now, op.tx.fee) && Admitted(cfg, txs, op.accounts, op.tx)
  }

  lemma PooledSnoc(cfg: PoolConfig, ops: seq<Op>, op: Op, t: PoolTx, k: int)
    ensures PooledAt(cfg, ops + [op], t, k) <==>
              if k == |ops| then
                Adds(cfg, Run(cfg, ops).transactions, op, t)
              else PooledAt(cfg, ops, t, k) && !Drops(cfg, op, cfg.txHash(t.tx), t.received)
  {
    var after := ops + [op];
    assert after[|ops|] == op && after[..|ops|] == ops;
    assert forall j :: 0 <= j < |ops| ==> after[j] == ops[j];
    if 0 <= k < |ops| {
      assert after[..k] == ops[..k];
    }
  }

  /** What one step does to what is pooled. */
  ghost predicate StepEffect(cfg: PoolConfig, m: map<Hash, PoolTx>, m': map<Hash, PoolTx>, op: Op) {
    match op
    case Add(accounts, tx, now) =>
      m' == if Admitted(cfg, m, accounts, tx) then m[cfg.txHash(tx) := PoolTx(tx, now, tx.fee)] else m
    case Remove(hashes) => forall h :: h in m' <==> h in m && h !in hashes
    case Prune(now) => forall h :: h in m' <==> h in m && !Older(now, m[h].received, cfg.maxAge)
    case Clear => m' == map[]
  }

  /** Nothing new, and what stays, stays as it was. */
  ghost predicate Subpool(m: map<Hash, PoolTx>, m': map<Hash, PoolTx>) {
    forall h :: h in m' ==> h in m && m'[h] == m[h]
  }

  lemma RemoveEffect(cfg: PoolConfig, st: PoolState, hashes: seq<Hash>)
    requires PoolInvariant(cfg, st)
    ensures forall h :: h in WithoutAll(cfg, st, hashes).transactions <==> h in st.transactions && h !in hashes
    ensures Subpool(st.transactions, WithoutAll(cfg, st, hashes).transactions)
  {
    RemoveKeepsIndexes(cfg, st, hashes);
  }

  lemma PruneEffect(cfg: PoolConfig, st: PoolState, now: u64)
    requires PoolInvariant(cfg, st)
    ensures StepEffect(cfg, st.transactions, Pruned(cfg, st, now).transactions, Prune(now))
    ensures Subpool(st.transactions, Pruned(cfg, st, now).transactions)
  {
    PruneKeepsIndexes(cfg, st, now);
  }

  lemma AddEffect(cfg: PoolConfig, st: PoolState, accounts: Option<AccountMap>, tx: Transaction, now: u64)
    requires PoolInvariant(cfg, st)
    ensures StepEffect(cfg, st.transactions, WithTransaction(cfg, st, accounts, tx, now).transactions,
                       Op.Add(accounts, tx, now))
  {
    AddExact(cfg, st, accounts, tx, now);
  }

  /** Every step of the pool: it pools what it admits and drops exactly what is removed,
      expired or cleared; what stays, stays as it was. */
  lemma StepExact(cfg: PoolConfig, st: PoolState, op: Op)
    requires PoolInvariant(cfg, st)
    ensures StepEffect(cfg, st.transactions, Apply(cfg, st, op).transactions, op)
    ensures !op.Add? ==> Subpool(st.transactions, Apply(cfg, st, op).transactions)
  {
    match op
    case Add(accounts, tx, now) => AddEffect(cfg, st, accounts, tx, now);
    case Remove(hashes) => RemoveEffect(cfg, st, hashes);
    case Prune(now) => PruneEffect(cfg, st, now);
    case Clear =>
  }

  lemma StepPools(cfg: PoolConfig, m: map<Hash, PoolTx>, m': map<Hash, PoolTx>, op: Op, t: PoolTx)
    requires StepEffect(cfg, m, m', op)
    requires !op.Add? ==> Subpool(m, m')
    ensures IsPooled(cfg, m', t) <==>
              || (IsPooled(cfg, m, t) && !Drops(cfg, op, cfg.txHash(t.tx), t.received))
              || Adds(cfg, m, op, t)
  {
  }

  lemma PooledNext(cfg: PoolConfig, ops: seq<Op>, op: Op, t: PoolTx)
    requires cfg.maxPerAccount >= 1
    requires IsPooled(cfg, Run(cfg, ops).transactions, t) <==> exists k :: PooledAt(cfg, ops, t, k)
    ensures IsPooled(cfg, Run(cfg, ops + [op]).transactions, t) <==> exists k :: PooledAt(cfg, ops + [op], t, k)
  {
    assert (ops + [op])[..|ops|] == ops;
    IndexesAgree(cfg, ops);
    StepExact(cfg, Run(cfg, ops), op);
    StepPools(cfg, Run(cfg, ops).transactions, Run(cfg, ops + [op]).transactions, op, t);
    PooledSnoc(cfg, ops, op, t, |ops|);
    forall k | k != |ops|
      ensures PooledAt(cfg, ops + [op], t, k)
         <==> PooledAt(cfg, ops, t, k) && !Drops(cfg, op, cfg.txHash(t.tx), t.received)
    {
      PooledSnoc(cfg, ops, op, t, k);
    }
    if k :| PooledAt(cfg, ops, t, k) {
      assert k != |ops|;
    }
  }

  /** After any run, pooled are exactly the transactions some step admitted and no later
      step removed, expired or cleared. */
  lemma PooledExactly(cfg: PoolConfig, ops: seq<Op>, t: PoolTx)
    requires cfg.maxPerAccount >= 1
    ensures IsPooled(cfg, Run(cfg, ops).transactions, t) <==> exists k :: PooledAt(cfg, ops, t, k)
  {
    var holds := (s: seq<Op>) => IsPooled(cfg, Run(cfg, s).transactions, t) <==> exists k :: PooledAt(cfg, s, t, k);
    forall init, op | holds(init) ensures holds(init + [op]) {
      PooledNext(cfg, init, op, t);
    }
    ByAppending(holds, ops);
  }
}
