/** What a block takes from the pool: the one greedy choice by descending fee within
    the gas budget and in nonce order. */
module BlockSelection {
  import opened Types
  import opened Places
  import opened Sorting
  import opened Accounts
  import opened Execution
  import opened Mempool
  import opened PoolIndexes

  /** `accounts` are those of the account manager, if one is set. */
  datatype Rules = Rules(accounts: Option<AccountMap>, maxGas: u64, minFee: u64)

  // ---- A reference definition ----

  function GasSum(txs: seq<Transaction>): nat {
    if txs == [] then 0 else GasSum(txs[..|txs| - 1]) + txs[|txs| - 1].gasLimit
  }

  function CountFrom(txs: seq<Transaction>, a: Address): nat {
    if txs == [] then 0 else CountFrom(txs[..|txs| - 1], a) + if txs[|txs| - 1].from == a then 1 else 0
  }

  /** `tx` may follow `before` in a block. The gas used so far is a 64-bit sum; nonces
      matter only with an account manager. */
  ghost predicate Follows(rules: Rules, before: seq<Transaction>, tx: Transaction) {
    && tx.fee >= rules.minFee
    && Wrap(GasSum(before) + tx.gasLimit) <= rules.maxGas
    && (rules.accounts.Some? ==> tx.nonce == Expected(rules, before, tx.from))
  }

  ghost function StartNonce(rules: Rules, a: Address): u64 {
    if rules.accounts.Some? then NonceIn(rules.accounts.value, a) else 0
  }

  /** The nonce a sender's next transaction must carry. */
  ghost function Expected(rules: Rules, before: seq<Transaction>, a: Address): u64 {
    Wrap(StartNonce(rules, a) + CountFrom(before, a))
  }

  /** The candidates that are in r, in candidate order. */
  function Kept(candidates: seq<Transaction>, r: seq<Transaction>): (kept: seq<Transaction>)
    ensures forall x :: x in kept <==> x in candidates && x in r
  {
    if candidates == [] then []
    else
      var x := candidates[|candidates| - 1];
      assert candidates == candidates[..|candidates| - 1] + [x];
      Kept(candidates[..|candidates| - 1], r) + if x in r then [x] else []
  }

  /** r picks from the candidates, in their order, exactly those that may follow the
      ones it picked before. */
  ghost predicate Greedy(rules: Rules, candidates: seq<Transaction>, r: seq<Transaction>) {
    r == Kept(candidates, r) && PicksRight(rules, candidates, r)
  }

  ghost predicate PicksRight(rules: Rules, candidates: seq<Transaction>, r: seq<Transaction>) {
    forall k :: 0 <= k < |candidates| ==>
      (candidates[k] in r <==> Follows(rules, Kept(candidates[..k], r), candidates[k]))
  }

  // ---- The greedy choice is unique, and the loop makes it ----

  ghost function Selected(rules: Rules, candidates: seq<Transaction>): (r: seq<Transaction>)
    ensures forall x :: x in r ==> x in candidates
  {
    if candidates == [] then []
    else
      var before := Selected(rules, candidates[..|candidates| - 1]);
      var x := candidates[|candidates| - 1];
      before + if Follows(rules, before, x) then [x] else []
  }

  lemma {:induction false} SelectedGrows(rules: Rules, candidates: seq<Transaction>, k: nat)
    requires k <= |candidates|
    ensures Selected(rules, candidates[..k]) <= Selected(rules, candidates)
    ensures forall x :: x in Selected(rules, candidates) && x !in Selected(rules, candidates[..k]) ==>
              x in candidates[k..]
  {
    if k < |candidates| {
      var init := candidates[..|candidates| - 1];
      SelectedGrows(rules, init, k);
      assert init[..k] == candidates[..k];
      assert forall x :: x in init[k..] ==> x in candidates[k..];
    } else {
      assert candidates[..k] == candidates;
    }
  }

  /** Of the first k candidates, the selection keeps what it had selected from them. */
  lemma {:induction false} KeptOfSelected(rules: Rules, candidates: seq<Transaction>, k: nat)
    requires NoDuplicates(candidates) && k <= |candidates|
    ensures Kept(candidates[..k], Selected(rules, candidates)) == Selected(rules, candidates[..k])
  {
    if k > 0 {
      KeptOfSelected(rules, candidates, k - 1);
      assert candidates[..k][..k - 1] == candidates[..k - 1];
      InSelection(rules, candidates, k - 1);
    }
  }

  lemma InSelection(rules: Rules, candidates: seq<Transaction>, k: nat)
    requires NoDuplicates(candidates) && k < |candidates|
    ensures candidates[k] in Selected(rules, candidates)
       <==> Follows(rules, Selected(rules, candidates[..k]), candidates[k])
  {
    var x := candidates[k];
    SelectedGrows(rules, candidates, k + 1);
    assert candidates[..k + 1][..k] == candidates[..k];
    assert x !in candidates[k + 1..];
    assert x !in candidates[..k];
  }

  /** A greedy choice from the candidates exists and is unique. */
  lemma {:induction false} GreedyExact(rules: Rules, candidates: seq<Transaction>, r: seq<Transaction>)
    requires NoDuplicates(candidates)
    ensures Greedy(rules, candidates, r) <==> r == Selected(rules, candidates)
  {
    if Greedy(rules, candidates, r) {
      RightPicks(rules, candidates, r);
    }
    if r == Selected(rules, candidates) {
      KeptOfSelected(rules, candidates, |candidates|);
      assert candidates[..|candidates|] == candidates;
      forall k | 0 <= k < |candidates|
        ensures candidates[k] in r <==> Follows(rules, Kept(candidates[..k], r), candidates[k])
      {
        KeptOfSelected(rules, candidates, k);
        InSelection(rules, candidates, k);
      }
    }
  }

  lemma RightPicksNext(rules: Rules, before: seq<Transaction>, x: Transaction, r: seq<Transaction>)
    requires PicksRight(rules, before, r) ==> Kept(before, r) == Selected(rules, before)
    requires PicksRight(rules, before + [x], r)
    ensures Kept(before + [x], r) == Selected(rules, before + [x])
  {
    PicksRightBefore(rules, before + [x], r);
    assert (before + [x])[..|before|] == before;
    GreedyNext(rules, before, x, r);
  }

  lemma RightPicks(rules: Rules, candidates: seq<Transaction>, r: seq<Transaction>)
    requires PicksRight(rules, candidates, r)
    ensures Kept(candidates, r) == Selected(rules, candidates)
  {
    var holds := (s: seq<Transaction>) => PicksRight(rules, s, r) ==> Kept(s, r) == Selected(rules, s);
    forall init, x | holds(init) ensures holds(init + [x]) {
      if PicksRight(rules, init + [x], r) {
        RightPicksNext(rules, init, x, r);
      }
    }
    ByAppending(holds, candidates);
  }

  lemma PicksRightBefore(rules: Rules, candidates: seq<Transaction>, r: seq<Transaction>)
    requires PicksRight(rules, candidates, r) && candidates != []
    ensures var n := |candidates| - 1;
            && PicksRight(rules, candidates[..n], r)
            && (candidates[n] in r <==> Follows(rules, Kept(candidates[..n], r), candidates[n]))
  {
    var n := |candidates| - 1;
    forall k | 0 <= k < n
      ensures candidates[..n][k] in r <==> Follows(rules, Kept(candidates[..n][..k], r), candidates[..n][k])
    {
      assert candidates[..n][..k] == candidates[..k];
    }
  }

  lemma GreedyNext(rules: Rules, before: seq<Transaction>, x: Transaction, r: seq<Transaction>)
    requires Kept(before, r) == Selected(rules, before) && (x in r <==> Follows(rules, Kept(before, r), x))
    ensures Kept(before + [x], r) == Selected(rules, before + [x])
  {
    KeptSnoc(before, x, r);
    SelectedSnoc(rules, before, x);
  }

  lemma KeptSnoc(candidates: seq<Transaction>, x: Transaction, r: seq<Transaction>)
    ensures Kept(candidates + [x], r) == Kept(candidates, r) + if x in r then [x] else []
  {
    assert (candidates + [x])[..|candidates|] == candidates;
  }

  lemma SelectedSnoc(rules: Rules, before: seq<Transaction>, x: Transaction)
    ensures Selected(rules, before + [x])
         == Selected(rules, before) + if Follows(rules, Selected(rules, before), x) then [x] else []
  {
    assert (before + [x])[..|before|] == before;
  }

  // ---- The loop ----

  /** The transactions of the last k entries, from the last one down. */
  function Pooled(index: seq<FeeEntry>, txs: map<Hash, PoolTx>, k: nat): (r: seq<Transaction>)
    requires k <= |index| && forall e :: e in index ==> e.hash in txs
    ensures |r| == k && forall i :: 0 <= i < k ==> r[i] == txs[index[|index| - 1 - i].hash].tx
  {
    if k == 0 then [] else Pooled(index, txs, k - 1) + [txs[index[|index| - k].hash].tx]
  }

  /** The pool's transactions, dearest first. */
  function Candidates(st: PoolState): (r: seq<Transaction>)
    requires forall e :: e in st.feeIndex ==> e.hash in st.transactions
    ensures |r| == |st.feeIndex|
    ensures forall k :: 0 <= k < |r| ==> r[k] == st.transactions[st.feeIndex[|r| - 1 - k].hash].tx
  {
    Pooled(st.feeIndex, st.transactions, |st.feeIndex|)
  }

  /** The i-th candidate is the stored transaction of its fee entry. */
  lemma CandidateEntry(cfg: PoolConfig, st: PoolState, i: nat)
    requires PoolInvariant(cfg, st) && i < |st.feeIndex|
    ensures var e, x := st.feeIndex[|st.feeIndex| - 1 - i], Candidates(st)[i];
            && e.hash in st.transactions && st.transactions[e.hash].tx == x
            && cfg.txHash(x) == e.hash && x.fee == e.fee && x.from in st.queues
  {
    assert st.feeIndex[|st.feeIndex| - 1 - i] in st.feeIndex;
  }

  lemma CandidatesOrdered(cfg: PoolConfig, st: PoolState)
    requires PoolInvariant(cfg, st)
    ensures NoDuplicates(Candidates(st))
    ensures forall i, j :: 0 <= i < j < |Candidates(st)| ==> Candidates(st)[i].fee >= Candidates(st)[j].fee
  {
    var c, n := Candidates(st), |st.feeIndex|;
    forall i, j | 0 <= i < j < n ensures c[i] != c[j] && c[i].fee >= c[j].fee {
      CandidateEntry(cfg, st, i);
      CandidateEntry(cfg, st, j);
      assert st.feeIndex[n - 1 - j].hash != st.feeIndex[n - 1 - i].hash;
    }
  }

  lemma CandidatesStored(cfg: PoolConfig, st: PoolState)
    requires PoolInvariant(cfg, st)
    ensures forall tx :: tx in Candidates(st) ==>
              cfg.txHash(tx) in st.transactions && st.transactions[cfg.txHash(tx)].tx == tx
    ensures forall h :: h in st.transactions ==> st.transactions[h].tx in Candidates(st)
  {
    var c, n := Candidates(st), |st.feeIndex|;
    forall tx | tx in c ensures cfg.txHash(tx) in st.transactions && st.transactions[cfg.txHash(tx)].tx == tx {
      var i :| 0 <= i < n && c[i] == tx;
      CandidateEntry(cfg, st, i);
    }
    forall h | h in st.transactions ensures st.transactions[h].tx in c {
      var i :| 0 <= i < n && st.feeIndex[i] == FeeEntry(st.transactions[h].totalFee, h);
      assert c[n - 1 - i] == st.transactions[h].tx;
    }
  }

  /** The loop's variables mirror the selection so far. */
  ghost predicate Mirrors(st: PoolState, rules: Rules, p: Pick, chosen: seq<Transaction>) {
    && p.chosen == chosen && p.gas == Wrap(GasSum(chosen))
    && p.next.Keys == (if rules.accounts.Some? then st.queues.Keys else {}) && Expecting(rules, p.next, chosen)
  }

  ghost predicate Expecting(rules: Rules, next: map<Address, u64>, chosen: seq<Transaction>) {
    forall a :: a in next ==> next[a] == Expected(rules, chosen, a)
  }

  lemma GasSnoc(txs: seq<Transaction>, x: Transaction)
    ensures GasSum(txs + [x]) == GasSum(txs) + x.gasLimit
  {
    assert (txs + [x])[..|txs|] == txs;
  }

  lemma ExpectedSnoc(rules: Rules, txs: seq<Transaction>, x: Transaction, a: Address)
    ensures Expected(rules, txs + [x], a)
         == if x.from == a then Wrap(Expected(rules, txs, a) as int + 1) else Expected(rules, txs, a)
  {
    assert (txs + [x])[..|txs|] == txs;
    WrapNext(StartNonce(rules, a), CountFrom(txs, a));
  }

  lemma WrapNext(n: u64, k: nat)
    ensures Wrap(Wrap(n + k) + 1) == Wrap(n + (k + 1))
  {
  }

  lemma WrapSum(a: nat, b: u64)
    ensures Wrap(Wrap(a) + b) == Wrap(a + b)
  {
  }

  /** What the loop carries after taking a transaction. */
  function Taken(p: Pick, x: Transaction): Pick {
    Pick(p.chosen + [x], Wrap(p.gas + x.gasLimit),
         if x.from in p.next then p.next[x.from := Wrap(p.next[x.from] as int + 1)] else p.next)
  }

  lemma ConsiderMirrors(st: PoolState, rules: Rules, p: Pick, chosen: seq<Transaction>, e: FeeEntry)
    requires Mirrors(st, rules, p, chosen) && e.hash in st.transactions
    requires st.transactions[e.hash].tx.from in st.queues
    ensures var x := st.transactions[e.hash].tx;
            Mirrors(st, rules, Consider(st, rules.accounts.Some?, rules.maxGas, rules.minFee, p, e),
                    chosen + if Follows(rules, chosen, x) then [x] else [])
  {
    var x := st.transactions[e.hash].tx;
    assert chosen + [] == chosen;
    ConsiderTakes(st, rules, p, chosen, e);
    if Follows(rules, chosen, x) {
      TakenMirrors(st, rules, p, chosen, x);
    }
  }

  lemma ConsiderTakes(st: PoolState, rules: Rules, p: Pick, chosen: seq<Transaction>, e: FeeEntry)
    requires Mirrors(st, rules, p, chosen) && e.hash in st.transactions
    requires st.transactions[e.hash].tx.from in st.queues
    ensures var x := st.transactions[e.hash].tx;
            Consider(st, rules.accounts.Some?, rules.maxGas, rules.minFee, p, e)
            == if Follows(rules, chosen, x) then Taken(p, x) else p
  {
    WrapSum(GasSum(chosen), st.transactions[e.hash].tx.gasLimit);
  }

  lemma TakenMirrors(st: PoolState, rules: Rules, p: Pick, chosen: seq<Transaction>, x: Transaction)
    requires Mirrors(st, rules, p, chosen) && x.from in st.queues
    ensures Mirrors(st, rules, Taken(p, x), chosen + [x])
  {
    GasSnoc(chosen, x);
    WrapSum(GasSum(chosen), x.gasLimit);
    if rules.accounts.Some? {
      ExpectedSnoc(rules, chosen, x, x.from);
      TakenExpecting(rules, p.next, chosen, x, Wrap(p.next[x.from] as int + 1));
    }
  }

  lemma TakenExpecting(rules: Rules, next: map<Address, u64>, chosen: seq<Transaction>, x: Transaction, n: u64)
    requires Expecting(rules, next, chosen) && x.from in next && n == Expected(rules, chosen + [x], x.from)
    ensures Expecting(rules, next[x.from := n], chosen + [x])
  {
    forall a | a in next && a != x.from ensures next[a] == Expected(rules, chosen + [x], a) {
      ExpectedSnoc(rules, chosen, x, a);
    }
  }

  lemma {:induction false} StartMirrors(st: PoolState, rules: Rules)
    ensures Mirrors(st, rules, Pick([], 0, StartNonces(st, rules.accounts)), [])
  {
  }

  /** c is what the loop meets, its k-th entry from the end of the fee index. */
  ghost predicate Meets(st: PoolState, c: seq<Transaction>) {
    && |c| == |st.feeIndex|
    && forall k :: 0 <= k < |c| ==>
         var h := st.feeIndex[|st.feeIndex| - 1 - k].hash;
         && h in st.transactions && st.transactions[h].tx.from in st.queues
         && c[k] == st.transactions[h].tx
  }

  lemma {:induction false} PickMirrors(st: PoolState, rules: Rules, c: seq<Transaction>, k: nat)
    requires Meets(st, c) && k <= |c|
    ensures Mirrors(st, rules, PickAmong(st, rules.accounts, rules.maxGas, rules.minFee, k),
                    Selected(rules, c[..k]))
  {
    if k == 0 {
      StartMirrors(st, rules);
    } else {
      PickMirrors(st, rules, c, k - 1);
      assert c[..k][..k - 1] == c[..k - 1];
      assert c[k - 1] == c[..k][k - 1];
      ConsiderMirrors(st, rules, PickAmong(st, rules.accounts, rules.maxGas, rules.minFee, k - 1),
                      Selected(rules, c[..k - 1]), st.feeIndex[|st.feeIndex| - 1 - (k - 1)]);
    }
  }

  lemma MeetsCandidates(cfg: PoolConfig, st: PoolState)
    requires PoolInvariant(cfg, st)
    ensures Meets(st, Candidates(st))
  {
    forall k | 0 <= k < |Candidates(st)|
      ensures var h := st.feeIndex[|st.feeIndex| - 1 - k].hash;
              && h in st.transactions && st.transactions[h].tx.from in st.queues
              && Candidates(st)[k] == st.transactions[h].tx
    {
      CandidateEntry(cfg, st, k);
    }
  }

  lemma PickIsSelected(cfg: PoolConfig, st: PoolState, rules: Rules)
    requires PoolInvariant(cfg, st)
    ensures PickAmong(st, rules.accounts, rules.maxGas, rules.minFee, |st.feeIndex|).chosen
         == Selected(rules, Candidates(st))
  {
    MeetsCandidates(cfg, st);
    PickMirrors(st, rules, Candidates(st), |st.feeIndex|);
    assert Candidates(st)[..|st.feeIndex|] == Candidates(st);
  }

  /** With or without an account manager, the loop's result is the greedy choice and
      nothing else is. */
  lemma SelectionIsGreedy(cfg: PoolConfig, st: PoolState, rules: Rules, r: seq<Transaction>)
    requires PoolInvariant(cfg, st)
    ensures r == PickAmong(st, rules.accounts, rules.maxGas, rules.minFee, |st.feeIndex|).chosen
       <==> Greedy(rules, Candidates(st), r)
  {
    PickIsSelected(cfg, st, rules);
    CandidatesOrdered(cfg, st);
    GreedyExact(rules, Candidates(st), r);
  }

  // ---- What a block proposer relies on ----

  function NoncesOf(txs: seq<Transaction>, a: Address): seq<u64> {
    if txs == [] then []
    else NoncesOf(txs[..|txs| - 1], a) + if txs[|txs| - 1].from == a then [txs[|txs| - 1].nonce] else []
  }

  ghost predicate InBlock(rules: Rules, txs: seq<Transaction>) {
    && NoDuplicates(txs) && Wrap(GasSum(txs)) <= rules.maxGas
    && (forall i, j :: 0 <= i < j < |txs| ==> txs[i].fee >= txs[j].fee)
    && (forall tx :: tx in txs ==> tx.fee >= rules.minFee)
  }

  ghost predicate NoncesFrom(txs: seq<Transaction>, a: Address, start: u64) {
    && |NoncesOf(txs, a)| == CountFrom(txs, a)
    && forall i :: 0 <= i < |NoncesOf(txs, a)| ==> NoncesOf(txs, a)[i] == Wrap(start + i)
  }

  lemma {:induction false} SelectedNonces(rules: Rules, candidates: seq<Transaction>, a: Address)
    requires rules.accounts.Some?
    ensures NoncesFrom(Selected(rules, candidates), a, StartNonce(rules, a))
  {
    if candidates != [] {
      var init, x := candidates[..|candidates| - 1], candidates[|candidates| - 1];
      SelectedNonces(rules, init, a);
      var before := Selected(rules, init);
      assert (before + [x])[..|before|] == before;
      assert before + [] == before;
    }
  }

  lemma {:induction false} SelectedInBlock(rules: Rules, candidates: seq<Transaction>)
    requires NoDuplicates(candidates)
    requires forall i, j :: 0 <= i < j < |candidates| ==> candidates[i].fee >= candidates[j].fee
    ensures InBlock(rules, Selected(rules, candidates))
  {
    if candidates != [] {
      var init, x := candidates[..|candidates| - 1], candidates[|candidates| - 1];
      SelectedInBlock(rules, init);
      var before := Selected(rules, init);
      GasSnoc(before, x);
      assert before + [] == before;
      if Follows(rules, before, x) {
        assert forall y :: y in init ==> y != x && y.fee >= x.fee;
        OneMoreInBlock(rules, before, x);
      }
    }
  }

  lemma OneMoreInBlock(rules: Rules, before: seq<Transaction>, x: Transaction)
    requires InBlock(rules, before) && forall y :: y in before ==> y != x && y.fee >= x.fee
    requires x.fee >= rules.minFee && Wrap(GasSum(before + [x])) <= rules.maxGas
    ensures InBlock(rules, before + [x])
  {
  }

  /** The chosen transactions are distinct pool members paying at least the minimum
      fee, in non-increasing fee order, their 64-bit gas sum within the budget, and with
      an account manager each sender's nonces run on from its current one without a gap.
      Their real gas sum is within the budget if no gas limit can carry the budget past 2^64. */
  lemma BlockIsValid(cfg: PoolConfig, st: PoolState, rules: Rules, a: Address)
    requires PoolInvariant(cfg, st)
    ensures var r := PickAmong(st, rules.accounts, rules.maxGas, rules.minFee, |st.feeIndex|).chosen;
            && InBlock(rules, r) && (rules.accounts.Some? ==> NoncesFrom(r, a, StartNonce(rules, a)))
            && (forall tx :: tx in r ==> cfg.txHash(tx) in st.transactions && st.transactions[cfg.txHash(tx)].tx == tx)
            && ((forall tx :: tx in Candidates(st) ==> rules.maxGas + tx.gasLimit < TWO_64)
                ==> GasSum(r) <= rules.maxGas)
  {
    PickIsSelected(cfg, st, rules);
    CandidatesOrdered(cfg, st);
    CandidatesStored(cfg, st);
    SelectedInBlock(rules, Candidates(st));
    if rules.accounts.Some? { SelectedNonces(rules, Candidates(st), a); }
    if forall tx :: tx in Candidates(st) ==> rules.maxGas + tx.gasLimit < TWO_64 {
      BudgetKept(rules, Candidates(st));
    }
  }

  // ---- When the gas budget holds ----

  lemma {:induction false} BudgetKept(rules: Rules, candidates: seq<Transaction>)
    requires forall tx :: tx in candidates ==> rules.maxGas + tx.gasLimit < TWO_64
    ensures GasSum(Selected(rules, candidates)) <= rules.maxGas
  {
    if candidates != [] {
      var init, x := candidates[..|candidates| - 1], candidates[|candidates| - 1];
      assert x in candidates && forall tx :: tx in init ==> tx in candidates;
      BudgetKept(rules, init);
      GasSnoc(Selected(rules, init), x);
      assert Selected(rules, init) + [] == Selected(rules, init);
    }
  }

  /** Whatever is pooled with gas limits up to `limit`, a block keeps to the budget. */
  ghost predicate KeepsBudget(maxGas: u64, limit: u64) {
    forall rules: Rules, candidates: seq<Transaction> ::
      rules.maxGas == maxGas && NoDuplicates(candidates) && (forall tx :: tx in candidates ==> tx.gasLimit <= limit)
      ==> GasSum(Selected(rules, candidates)) <= maxGas
  }

  function Sent(from: Address, gas: u64): Transaction {
    Transaction(from, 0, 0, 0, 0, gas, 0, 0)
  }

  function Share(room: u64, limit: u64): (r: u64)
    ensures r <= room && r <= limit && (r == room || r == limit)
  {
    if room < limit then room else limit
  }

  lemma {:induction false} CountNone(txs: seq<Transaction>, a: Address)
    requires forall tx :: tx in txs ==> tx.from != a
    ensures CountFrom(txs, a) == 0
  {
    if txs != [] {
      assert txs[|txs| - 1] in txs;
      CountNone(txs[..|txs| - 1], a);
    }
  }

  lemma NewSenderFollows(rules: Rules, chosen: seq<Transaction>, from: Address, gas: u64)
    requires rules.accounts == Some(map[]) && rules.minFee == 0
    requires forall tx :: tx in chosen ==> tx.from != from
    requires Wrap(GasSum(chosen) + gas) <= rules.maxGas
    ensures Follows(rules, chosen, Sent(from, gas))
  {
    CountNone(chosen, from);
  }

  /** A first transaction of a new sender is chosen if the 64-bit gas sum allows. */
  lemma NewSenderChosen(rules: Rules, before: seq<Transaction>, from: Address, gas: u64)
    requires rules.accounts == Some(map[]) && rules.minFee == 0
    requires forall tx :: tx in before ==> tx.from != from
    requires Wrap(GasSum(Selected(rules, before)) + gas) <= rules.maxGas
    ensures GasSum(Selected(rules, before + [Sent(from, gas)])) == GasSum(Selected(rules, before)) + gas
  {
    var chosen := Selected(rules, before);
    NewSenderFollows(rules, chosen, from, gas);
    SelectedSnoc(rules, before, Sent(from, gas));
    GasSnoc(chosen, Sent(from, gas));
  }

  ghost predicate FromUpTo(txs: seq<Transaction>, n: nat, limit: u64) {
    NoDuplicates(txs) && forall tx :: tx in txs ==> tx.from <= n && tx.gasLimit <= limit
  }

  lemma OneMoreSender(txs: seq<Transaction>, n: nat, limit: u64, gas: u64)
    requires FromUpTo(txs, n, limit) && gas <= limit
    ensures FromUpTo(txs + [Sent(n + 1, gas)], n + 1, limit)
  {
  }

  /** Senders 1 to n, each with one transaction, fill the budget as far as they go. */
  lemma {:induction false} Fill(rules: Rules, limit: u64, n: nat) returns (txs: seq<Transaction>)
    requires rules.accounts == Some(map[]) && rules.minFee == 0 && limit > 0
    ensures FromUpTo(txs, n, limit)
    ensures var used := GasSum(Selected(rules, txs)); used <= rules.maxGas && (used >= n || used == rules.maxGas)
  {
    if n == 0 {
      txs := [];
    } else {
      var before := Fill(rules, limit, n - 1);
      var gas := Share(rules.maxGas - GasSum(Selected(rules, before)), limit);
      NewSenderChosen(rules, before, n, gas);
      OneMoreSender(before, n - 1, limit, gas);
      txs := before + [Sent(n, gas)];
    }
  }

  /** The budget is safe exactly when budget plus gas limit fits in 64 bits. Otherwise
      a pool that fills the budget lets one more transaction wrap the sum and pass. */
  lemma BudgetExact(maxGas: u64, limit: u64)
    ensures KeepsBudget(maxGas, limit) <==> maxGas + limit < TWO_64
  {
    if maxGas + limit < TWO_64 {
      forall rules: Rules, candidates: seq<Transaction>
        | rules.maxGas == maxGas && NoDuplicates(candidates) && forall tx :: tx in candidates ==> tx.gasLimit <= limit
        ensures GasSum(Selected(rules, candidates)) <= maxGas
      {
        BudgetKept(rules, candidates);
      }
    } else {
      OverfullBlock(maxGas, limit);
    }
  }

  lemma OverfullBlock(maxGas: u64, limit: u64)
    requires maxGas + limit >= TWO_64
    ensures !KeepsBudget(maxGas, limit)
  {
    var rules := Rules(Some(map[]), maxGas, 0);
    var full := Fill(rules, limit, maxGas);
    NewSenderChosen(rules, full, maxGas + 1, limit);
    OneMoreSender(full, maxGas, limit, limit);
    OverBudget(rules, full + [Sent(maxGas + 1, limit)], limit);
  }

  lemma OverBudget(rules: Rules, txs: seq<Transaction>, limit: u64)
    requires NoDuplicates(txs) && forall tx :: tx in txs ==> tx.gasLimit <= limit
    requires GasSum(Selected(rules, txs)) > rules.maxGas
    ensures !KeepsBudget(rules.maxGas, limit)
  {
  }
}
