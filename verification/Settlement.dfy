/** Runs of the account state machine: no value is created or lost, and no
    transaction succeeds twice. */
module Settlement {
  import opened Types
  import opened Sums
  import opened Sorting
  import opened KeyOrder
  import opened MerkleTree
  import opened Accounts
  import opened Execution
  import opened StateMachine

  // ---- Conservation ----

  ghost predicate Keyed(m: AccountMap) {
    forall a :: a in m ==> m[a].address == a
  }

  ghost function Balances(m: AccountMap): map<nat, int> {
    map a | a in m :: m[a].balance
  }

  /** Everything in circulation. */
  ghost function Circulating(m: AccountMap): int {
    SumMap(Balances(m))
  }

  /** Everything in circulation or burned. */
  ghost function Supply(l: Ledger): int {
    Circulating(l.accounts) + l.burned
  }

  lemma PutChanges(m: AccountMap, a: Address, account: Account)
    requires Keyed(m) && account.address == a
    ensures Keyed(Put(m, account))
    ensures Circulating(Put(m, account)) == Circulating(m) - AccountAt(m, a).balance + account.balance
    ensures 0 <= AccountAt(m, a).balance <= Circulating(m)
  {
    assert Balances(Put(m, account)) == Balances(m)[a := account.balance];
    SumMapUpdate(Balances(m), a, account.balance);
    SumMapBounds(Balances(m), a);
  }

  lemma AddedExactly(m: AccountMap, a: Address, amount: u64)
    requires Keyed(m) && Circulating(m) + amount < TWO_64
    ensures AccountAt(m, a).balance + amount < TWO_64
    ensures Keyed(WithAdded(m, a, amount)) && Circulating(WithAdded(m, a, amount)) == Circulating(m) + amount
  {
    PutChanges(m, a, AccountAt(m, a).(balance := Wrap(AccountAt(m, a).balance + amount)));
  }

  lemma DebitedExactly(m: AccountMap, tx: Transaction)
    requires Keyed(m) && AccountAt(m, tx.from).balance >= Cost(tx)
    ensures Keyed(Debited(m, tx)) && Circulating(Debited(m, tx)) == Circulating(m) - Cost(tx)
  {
    var m1 := WithDeducted(m, tx.from, Cost(tx));
    PutChanges(m, tx.from, AccountAt(m, tx.from).(balance := Wrap(AccountAt(m, tx.from).balance - Cost(tx))));
    PutChanges(m1, tx.from, AccountAt(m1, tx.from).(nonce := Wrap(AccountAt(m1, tx.from).nonce + 1)));
  }

  /** None of the additions an execution makes wraps around. */
  ghost predicate AdditionsFit(l: Ledger, tx: Transaction, baseFee: u64, proposer: Address) {
    var m1 := Debited(l.accounts, tx);
    var m2 := WithAdded(m1, tx.to, tx.amount);
    && AccountAt(m1, tx.to).balance + tx.amount < TWO_64
    && AccountAt(m2, proposer).balance + PriorityFeeAmount(tx, baseFee) < TWO_64
    && l.burned + BaseFeeAmount(tx, baseFee) < TWO_64
  }

  ghost predicate Sound(l: Ledger) {
    Keyed(l.accounts) && Supply(l) < TWO_64
  }

  ghost predicate CostFits(tx: Transaction) {
    tx.amount + tx.fee < TWO_64
  }

  /** One execution moves value without creating or losing any, whoever the
      sender, recipient and proposer are. */
  lemma ExecutionConserves(l: Ledger, tx: Transaction, baseFee: u64, proposer: Address)
    requires Sound(l) && CostFits(tx)
    ensures var l' := Executed(l, tx, baseFee, proposer);
            Sound(l') && Supply(l') == Supply(l) && l'.burned >= l.burned
    ensures AccountAt(l.accounts, tx.from).balance >= Cost(tx) ==> AdditionsFit(l, tx, baseFee, proposer)
  {
    if AccountAt(l.accounts, tx.from).balance >= Cost(tx) {
      var m1 := Debited(l.accounts, tx);
      DebitedExactly(l.accounts, tx);
      PutChanges(m1, tx.from, AccountAt(m1, tx.from));
      AddedExactly(m1, tx.to, tx.amount);
      AddedExactly(WithAdded(m1, tx.to, tx.amount), proposer, PriorityFeeAmount(tx, baseFee));
    }
  }

  /** Who gets what: the sender pays amount and fee, the recipient gets the amount,
      the proposer what the burn leaves of the fee, and everyone else nothing. */
  lemma ExecutionMoves(l: Ledger, tx: Transaction, baseFee: u64, proposer: Address, a: Address)
    requires Sound(l) && CostFits(tx) && AccountAt(l.accounts, tx.from).balance >= tx.amount + tx.fee
    ensures var l' := Executed(l, tx, baseFee, proposer);
            && AccountAt(l'.accounts, a).balance
               == AccountAt(l.accounts, a).balance
                  - (if a == tx.from then tx.amount + tx.fee else 0)
                  + (if a == tx.to then tx.amount else 0)
                  + (if a == proposer then tx.fee - (l'.burned - l.burned) else 0)
            && l'.burned - l.burned <= tx.fee && l'.burned - l.burned <= Wrap(baseFee * tx.gasLimit)
            && (l'.burned - l.burned == tx.fee || l'.burned - l.burned == Wrap(baseFee * tx.gasLimit))
  {
    ExecutionConserves(l, tx, baseFee, proposer);
  }

  ghost predicate Conserves(tx: Transaction, baseFee: u64) {
    forall l: Ledger, proposer: Address :: Sound(l) ==> Supply(Executed(l, tx, baseFee, proposer)) == Supply(l)
  }

  /** Amount plus fee fitting in 64 bits is exactly what conservation needs: with a
      larger total the deduction wraps and value appears. */
  lemma ConservesExactly(tx: Transaction, baseFee: u64)
    ensures Conserves(tx, baseFee) <==> CostFits(tx)
  {
    if CostFits(tx) {
      forall l: Ledger, proposer: Address | Sound(l)
        ensures Supply(Executed(l, tx, baseFee, proposer)) == Supply(l)
      {
        ExecutionConserves(l, tx, baseFee, proposer);
      }
    } else {
      WrappedCostCreatesValue(tx, baseFee);
    }
  }

  lemma SingleAccount(m: AccountMap, a: Address)
    requires m.Keys == {a}
    ensures Circulating(m) == m[a].balance
  {
    SumMapUpdate(map[], a, m[a].balance);
    assert Balances(m) == map[][a := m[a].balance];
  }

  lemma WrappedCostCreatesValue(tx: Transaction, baseFee: u64)
    requires !CostFits(tx)
    ensures exists l: Ledger, proposer: Address ::
              Sound(l) && Supply(Executed(l, tx, baseFee, proposer)) == Supply(l) + TWO_64
  {
    var m := map[tx.from := Account(tx.from, Cost(tx), 0, 0)];
    var proposer := tx.from + tx.to + 1;
    SingleAccount(m, tx.from);
    DebitedExactly(m, tx);
    FreshlyPaid(m, tx, proposer, PriorityFeeAmount(tx, baseFee));
    var l := Ledger(m, 0, 0);
    assert Sound(l) && Supply(Executed(l, tx, baseFee, proposer)) == Supply(l) + TWO_64;
  }

  /** With nothing left after the debit, recipient and a new proposer get exactly what
      they are sent. */
  lemma FreshlyPaid(m: AccountMap, tx: Transaction, proposer: Address, priority: u64)
    requires Keyed(Debited(m, tx)) && Circulating(Debited(m, tx)) == 0
    requires proposer !in Debited(m, tx) && proposer != tx.to
    ensures Circulating(Paid(WithAdded(Debited(m, tx), tx.to, tx.amount), proposer, priority)) == tx.amount + priority
  {
    var m1 := Debited(m, tx);
    AddedExactly(m1, tx.to, tx.amount);
    PutChanges(WithAdded(m1, tx.to, tx.amount), proposer, Account(proposer, priority, 0, 0));
  }

  // ---- Runs ----

  ghost predicate CostsFit(subs: seq<Submission>) {
    forall s :: s in subs ==> CostFits(s.tx)
  }

  /** Over any run, balances plus burned fees stay what they were, so nothing ever
      overflows. */
  lemma {:induction false} RunConserves(cfg: ChainConfig, l: Ledger, subs: seq<Submission>)
    requires Sound(l) && CostsFit(subs)
    ensures var l' := Run(cfg, l, subs); Sound(l') && Supply(l') == Supply(l) && l'.burned >= l.burned
  {
    if subs != [] {
      var before, s := subs[..|subs| - 1], subs[|subs| - 1];
      RunConserves(cfg, l, before);
      ExecutionConserves(Run(cfg, l, before), s.tx, s.baseFee, s.proposer);
    }
  }

  // ---- Replay protection ----

  ghost predicate Succeeds(cfg: ChainConfig, l: Ledger, s: Submission) {
    ReceiptFor(cfg, l, s.tx, BLANK_KEY, 0).success
  }

  /** A submission fails exactly when it leaves the ledger as it was. */
  lemma FailureIsNoChange(cfg: ChainConfig, l: Ledger, s: Submission)
    requires Keyed(l.accounts)
    ensures !Succeeds(cfg, l, s) <==> Submit(cfg, l, s) == l
  {
    if Succeeds(cfg, l, s) {
      SuccessStepsNonce(cfg, l, s, s.tx.from);
    }
  }

  lemma SuccessStepsNonce(cfg: ChainConfig, l: Ledger, s: Submission, a: Address)
    requires Keyed(l.accounts)
    ensures Keyed(Submit(cfg, l, s).accounts)
    ensures AccountAt(Submit(cfg, l, s).accounts, a).nonce
         == if Succeeds(cfg, l, s) && s.tx.from == a then Wrap(AccountAt(l.accounts, a).nonce + 1)
            else AccountAt(l.accounts, a).nonce
    ensures Succeeds(cfg, l, s) ==>
      && s.tx.nonce == AccountAt(l.accounts, s.tx.from).nonce
      && AccountAt(l.accounts, s.tx.from).balance >= Cost(s.tx)
      && s.tx.chainId == cfg.chainId && s.tx.from != 0 && s.tx.to != 0
  {
    if Succeeds(cfg, l, s) {
      DebitedNonce(l.accounts, s.tx, a);
      var m1 := Debited(l.accounts, s.tx);
      AddedNonce(m1, s.tx.to, s.tx.amount, a);
      AddedNonce(WithAdded(m1, s.tx.to, s.tx.amount), s.proposer, PriorityFeeAmount(s.tx, s.baseFee), a);
    }
  }

  lemma DebitedNonce(m: AccountMap, tx: Transaction, a: Address)
    requires Keyed(m)
    ensures Keyed(Debited(m, tx))
    ensures AccountAt(Debited(m, tx), a).nonce
         == if tx.from == a then Wrap(AccountAt(m, a).nonce + 1) else AccountAt(m, a).nonce
  {
  }

  lemma AddedNonce(m: AccountMap, to: Address, amount: u64, a: Address)
    requires Keyed(m)
    ensures Keyed(WithAdded(m, to, amount)) && AccountAt(WithAdded(m, to, amount), a).nonce == AccountAt(m, a).nonce
  {
  }

  ghost function Spent(cfg: ChainConfig, l: Ledger, s: Submission, a: Address): seq<u64> {
    if s.tx.from == a && Succeeds(cfg, l, s) then [s.tx.nonce] else []
  }

  /** The nonces of a sender's successful transactions, in the order they succeed. */
  ghost function SpentNonces(cfg: ChainConfig, l: Ledger, subs: seq<Submission>, a: Address): seq<u64> {
    if subs == [] then []
    else
      var before := subs[..|subs| - 1];
      SpentNonces(cfg, l, before, a) + Spent(cfg, Run(cfg, l, before), subs[|subs| - 1], a)
  }

  /** `spent` counts up one by one from `start` to the sender's current nonce. */
  ghost predicate Consecutive(l: Ledger, a: Address, start: u64, spent: seq<u64>) {
    && Keyed(l.accounts)
    && (forall i :: 0 <= i < |spent| ==> spent[i] == Wrap(start + i))
    && AccountAt(l.accounts, a).nonce == Wrap(start + |spent|)
  }

  lemma {:induction false} NoncesConsecutive(cfg: ChainConfig, l: Ledger, subs: seq<Submission>, a: Address)
    requires Keyed(l.accounts)
    ensures Consecutive(Run(cfg, l, subs), a, AccountAt(l.accounts, a).nonce, SpentNonces(cfg, l, subs, a))
  {
    if subs != [] {
      var before := subs[..|subs| - 1];
      NoncesConsecutive(cfg, l, before, a);
      NonceStep(cfg, Run(cfg, l, before), subs[|subs| - 1], a, AccountAt(l.accounts, a).nonce,
                SpentNonces(cfg, l, before, a));
    }
  }

  lemma NonceStep(cfg: ChainConfig, l: Ledger, s: Submission, a: Address, start: u64, spent: seq<u64>)
    requires Consecutive(l, a, start, spent)
    ensures Consecutive(Submit(cfg, l, s), a, start, spent + Spent(cfg, l, s, a))
  {
    SuccessStepsNonce(cfg, l, s, a);
    WrapTwice(start, |spent|);
  }

  lemma WrapTwice(start: u64, n: nat)
    ensures Wrap(Wrap(start + n) + 1) == Wrap(start + (n + 1))
  {
  }

  /** No (sender, nonce) pair succeeds twice, up to the point where a sender has
      used all 2^64 nonces; past it one must. */
  lemma NoReplay(cfg: ChainConfig, l: Ledger, subs: seq<Submission>, a: Address)
    requires Keyed(l.accounts)
    ensures NoDuplicates(SpentNonces(cfg, l, subs, a)) <==> |SpentNonces(cfg, l, subs, a)| <= TWO_64
  {
    NoncesConsecutive(cfg, l, subs, a);
    var spent := SpentNonces(cfg, l, subs, a);
    var start := AccountAt(l.accounts, a).nonce;
    if |spent| <= TWO_64 {
      forall i, j | 0 <= i < j < |spent| ensures spent[i] != spent[j] {
        WrapDistinct(start, i, j);
      }
    } else {
      assert spent[0] == spent[TWO_64];
    }
  }

  lemma WrapDistinct(start: u64, i: nat, j: nat)
    requires i < j < TWO_64
    ensures Wrap(start + i) != Wrap(start + j)
  {
  }

  // ---- Blocks ----

  datatype BlockInput = BlockInput(block: Block, baseFee: u64, proposer: Address)

  function RunBlocks(cfg: ChainConfig, c: ChainState, inputs: seq<BlockInput>): ChainState {
    if inputs == [] then c
    else
      var i := inputs[|inputs| - 1];
      AfterBlock(cfg, RunBlocks(cfg, c, inputs[..|inputs| - 1]), i.block, i.baseFee, i.proposer)
  }

  function Flattened(inputs: seq<BlockInput>): seq<Submission> {
    if inputs == [] then []
    else
      var i := inputs[|inputs| - 1];
      Flattened(inputs[..|inputs| - 1]) + SubmissionsOf(i.block, i.baseFee, i.proposer)
  }

  lemma {:induction false} RunAppend(cfg: ChainConfig, l: Ledger, a: seq<Submission>, b: seq<Submission>)
    ensures Run(cfg, l, a + b) == Run(cfg, Run(cfg, l, a), b)
  {
    if b == [] {
      assert a + b == a;
    } else {
      assert (a + b)[..|a + b| - 1] == a + b[..|b| - 1];
      RunAppend(cfg, l, a, b[..|b| - 1]);
    }
  }

  lemma {:induction false} BlocksAreRuns(cfg: ChainConfig, c: ChainState, inputs: seq<BlockInput>)
    ensures RunBlocks(cfg, c, inputs).ledger == Run(cfg, c.ledger, Flattened(inputs))
  {
    if inputs != [] {
      var init, i := inputs[..|inputs| - 1], inputs[|inputs| - 1];
      BlocksAreRuns(cfg, c, init);
      RunAppend(cfg, c.ledger, Flattened(init), SubmissionsOf(i.block, i.baseFee, i.proposer));
    }
  }

  /** Whole chains: supply is conserved, and each sender's successful transactions
      carry consecutive nonces. */
  lemma ChainIsSafe(cfg: ChainConfig, c: ChainState, inputs: seq<BlockInput>, a: Address)
    requires Sound(c.ledger) && CostsFit(Flattened(inputs))
    ensures var c' := RunBlocks(cfg, c, inputs);
            var spent := SpentNonces(cfg, c.ledger, Flattened(inputs), a);
            && Sound(c'.ledger) && Supply(c'.ledger) == Supply(c.ledger)
            && Consecutive(c'.ledger, a, AccountAt(c.ledger.accounts, a).nonce, spent)
  {
    BlocksAreRuns(cfg, c, inputs);
    RunConserves(cfg, c.ledger, Flattened(inputs));
    NoncesConsecutive(cfg, c.ledger, Flattened(inputs), a);
  }

  // ---- The state root ----

  ghost predicate InjectiveAccounts(cfg: ChainConfig) {
    forall x, y :: cfg.accountHash(x) == cfg.accountHash(y) ==> x == y
  }

  lemma HashListed(cfg: ChainConfig, m: AccountMap, h: Hash)
    ensures h in AccountHashes(cfg, m, Ascending(m.Keys)) <==> exists a :: a in m && cfg.accountHash(m[a]) == h
  {
    AscendingIsOrder(m.Keys);
    var keys := Ascending(m.Keys);
    var hs := AccountHashes(cfg, m, keys);
    if a :| a in m && cfg.accountHash(m[a]) == h {
      assert a in keys;
      var i :| 0 <= i < |keys| && keys[i] == a;
      assert hs[i] == h;
    }
    if h in hs {
      var i :| 0 <= i < |hs| && hs[i] == h;
      assert keys[i] in m;
    }
  }

  lemma SameHashesSubset(cfg: ChainConfig, m: AccountMap, n: AccountMap, a: Address)
    requires InjectiveAccounts(cfg) && Keyed(m) && Keyed(n) && a in m
    requires multiset(AccountHashes(cfg, m, Ascending(m.Keys))) == multiset(AccountHashes(cfg, n, Ascending(n.Keys)))
    ensures a in n && n[a] == m[a]
  {
    var h := cfg.accountHash(m[a]);
    HashListed(cfg, m, h);
    HashListed(cfg, n, h);
    assert h in multiset(AccountHashes(cfg, m, Ascending(m.Keys)));
    assert h in AccountHashes(cfg, n, Ascending(n.Keys));
  }

  /** Between states with the same number of accounts, the root identifies the
      state: every balance and nonce of every account. */
  lemma StateRootBinds(cfg: ChainConfig, m: AccountMap, n: AccountMap)
    requires CollisionFree(cfg.hashPair) && InjectiveAccounts(cfg) && Keyed(m) && Keyed(n) && |m| == |n|
    ensures StateRoot(cfg, m) == StateRoot(cfg, n) <==> m == n
  {
    if m != map[] && StateRoot(cfg, m) == StateRoot(cfg, n) {
      var hm, hn := AccountHashes(cfg, m, Ascending(m.Keys)), AccountHashes(cfg, n, Ascending(n.Keys));
      assert |m.Keys| == |n.Keys| by {
        assert |m.Keys| == |m| && |n.Keys| == |n|;
      }
      Binding(cfg.hashPair, Sort(Less(), hm), Sort(Less(), hn));
      assert multiset(hm) == multiset(hn);
      forall a | a in m ensures a in n && n[a] == m[a] {
        SameHashesSubset(cfg, m, n, a);
      }
      forall a | a in n ensures a in m {
        SameHashesSubset(cfg, n, m, a);
      }
    }
  }
}
