/** When the ledger moves, over whole chains of blocks: exactly on authorised
    transactions, never taking from an account that signed none; and what the state
    machine records of each block. */
module ChainHistory {
  import opened Types
  import opened Accounts
  import opened Execution
  import opened StateMachine
  import opened Settlement

  /** Between two addresses, for this chain, signed, at the sender's nonce, and within
      its balance; the cost is a 64-bit sum. */
  ghost predicate Authorised(cfg: ChainConfig, m: AccountMap, tx: Transaction) {
    && tx.from != 0 && tx.to != 0 && tx.chainId == cfg.chainId
    && cfg.signatureValid(tx, BLANK_KEY)
    && tx.nonce == NonceIn(m, tx.from)
    && (tx.amount + tx.fee) % TWO_64 <= BalanceIn(m, tx.from)
  }

  /** The check that an error names has failed, and those before it have not. */
  ghost predicate Names(cfg: ChainConfig, m: AccountMap, tx: Transaction, error: TxError) {
    match error
    case ZeroSender => tx.from == 0
    case ZeroRecipient => tx.from != 0 && tx.to == 0
    case WrongChain => tx.from != 0 && tx.to != 0 && tx.chainId != cfg.chainId
    case BadSignature =>
      tx.from != 0 && tx.to != 0 && tx.chainId == cfg.chainId && !cfg.signatureValid(tx, BLANK_KEY)
    case WrongNonce =>
      && tx.from != 0 && tx.to != 0 && tx.chainId == cfg.chainId && cfg.signatureValid(tx, BLANK_KEY)
      && tx.nonce != NonceIn(m, tx.from)
    case PoorBalance =>
      && tx.from != 0 && tx.to != 0 && tx.chainId == cfg.chainId && cfg.signatureValid(tx, BLANK_KEY)
      && tx.nonce == NonceIn(m, tx.from) && (tx.amount + tx.fee) % TWO_64 > BalanceIn(m, tx.from)
    case PoorAtExecution => false
  }

  /** The receipt says whether the transaction was authorised, and if not, names the
      first check it failed. */
  ghost predicate Reports(cfg: ChainConfig, m: AccountMap, tx: Transaction, height: u64, r: Receipt) {
    && r.txHash == cfg.txHash(tx) && r.height == height
    && (r.success <==> Authorised(cfg, m, tx))
    && r.gasUsed == (if r.success then tx.gasLimit else 0)
    && (r.success <==> r.error.None?)
    && (r.error.Some? ==> Names(cfg, m, tx, r.error.value))
  }

  lemma ReceiptReports(cfg: ChainConfig, l: Ledger, tx: Transaction, height: u64)
    ensures Reports(cfg, l.accounts, tx, height, ReceiptFor(cfg, l, tx, BLANK_KEY, height))
  {
  }

  /** The ledger moves exactly on an authorised transaction. */
  lemma MovesExactly(cfg: ChainConfig, l: Ledger, s: Submission)
    requires Keyed(l.accounts)
    ensures Submit(cfg, l, s) != l <==> Authorised(cfg, l.accounts, s.tx)
  {
    ReceiptReports(cfg, l, s.tx, 0);
    FailureIsNoChange(cfg, l, s);
  }

  /** The lesser of the fee and the 64-bit base fee for the gas. */
  ghost function BaseOf(s: Submission): u64 {
    var due := (s.baseFee * s.tx.gasLimit) % TWO_64;
    if due < s.tx.fee then due else s.tx.fee
  }

  /** What an authorised transaction does to one account: the sender pays amount and fee
      and its nonce goes up, the recipient gets the amount, the proposer the fee above
      the base. */
  ghost predicate MovesAt(m: AccountMap, m': AccountMap, s: Submission, a: Address) {
    && BalanceIn(m', a) == BalanceIn(m, a)
                           - (if a == s.tx.from then s.tx.amount + s.tx.fee else 0)
                           + (if a == s.tx.to then s.tx.amount else 0)
                           + (if a == s.proposer then s.tx.fee - BaseOf(s) else 0)
    && NonceIn(m', a) == if a == s.tx.from then (NonceIn(m, a) + 1) % TWO_64 else NonceIn(m, a)
  }

  ghost predicate Moves(l: Ledger, l': Ledger, s: Submission) {
    && l'.burned == l.burned + BaseOf(s)
    && l'.priorityFees == (l.priorityFees + s.tx.fee - BaseOf(s)) % TWO_64
    && forall a :: MovesAt(l.accounts, l'.accounts, s, a)
  }

  lemma ExecutedCounters(l: Ledger, s: Submission)
    requires Sound(l) && CostFits(s.tx) && AccountAt(l.accounts, s.tx.from).balance >= s.tx.amount + s.tx.fee
    ensures var l' := Executed(l, s.tx, s.baseFee, s.proposer);
            && l'.burned == l.burned + BaseOf(s)
            && l'.priorityFees == (l.priorityFees + s.tx.fee - BaseOf(s)) % TWO_64
  {
    ExecutionConserves(l, s.tx, s.baseFee, s.proposer);
  }

  lemma BalanceMoves(l: Ledger, s: Submission, a: Address)
    requires Sound(l) && CostFits(s.tx) && AccountAt(l.accounts, s.tx.from).balance >= s.tx.amount + s.tx.fee
    ensures var l' := Executed(l, s.tx, s.baseFee, s.proposer);
            BalanceIn(l'.accounts, a) == BalanceIn(l.accounts, a)
                                         - (if a == s.tx.from then s.tx.amount + s.tx.fee else 0)
                                         + (if a == s.tx.to then s.tx.amount else 0)
                                         + (if a == s.proposer then s.tx.fee - BaseOf(s) else 0)
  {
    ExecutedCounters(l, s);
    ExecutionMoves(l, s.tx, s.baseFee, s.proposer, a);
  }

  lemma NonceMoves(cfg: ChainConfig, l: Ledger, s: Submission, a: Address)
    requires Keyed(l.accounts) && Authorised(cfg, l.accounts, s.tx)
    ensures NonceIn(Submit(cfg, l, s).accounts, a)
         == if a == s.tx.from then (NonceIn(l.accounts, a) + 1) % TWO_64 else NonceIn(l.accounts, a)
  {
    ReceiptReports(cfg, l, s.tx, 0);
    SuccessStepsNonce(cfg, l, s, a);
  }

  lemma AccountMoves(cfg: ChainConfig, l: Ledger, s: Submission, a: Address)
    requires Sound(l) && CostFits(s.tx) && Authorised(cfg, l.accounts, s.tx)
    ensures MovesAt(l.accounts, Submit(cfg, l, s).accounts, s, a)
  {
    SubmitIsExecuted(cfg, l, s);
    BalanceMoves(l, s, a);
    NonceMoves(cfg, l, s, a);
  }

  lemma SubmitIsExecuted(cfg: ChainConfig, l: Ledger, s: Submission)
    requires CostFits(s.tx) && Authorised(cfg, l.accounts, s.tx)
    ensures Submit(cfg, l, s) == Executed(l, s.tx, s.baseFee, s.proposer)
    ensures AccountAt(l.accounts, s.tx.from).balance >= s.tx.amount + s.tx.fee
  {
  }

  /** One submission, on every ledger whose supply fits: an authorised one moves exactly
      the amount and the fee, any other leaves the ledger as it was. */
  lemma SubmitExact(cfg: ChainConfig, l: Ledger, s: Submission)
    requires Sound(l) && CostFits(s.tx)
    ensures if Authorised(cfg, l.accounts, s.tx) then Moves(l, Submit(cfg, l, s), s) else Submit(cfg, l, s) == l
  {
    MovesExactly(cfg, l, s);
    if Authorised(cfg, l.accounts, s.tx) {
      SubmitIsExecuted(cfg, l, s);
      ExecutedCounters(l, s);
      forall a ensures MovesAt(l.accounts, Submit(cfg, l, s).accounts, s, a) {
        AccountMoves(cfg, l, s, a);
      }
    }
  }

  // ---- Whole chains ----

  /** The accounts before the k-th transaction of a chain. */
  ghost function Before(cfg: ChainConfig, c: ChainState, subs: seq<Submission>, k: nat): AccountMap
    requires k <= |subs|
  {
    Run(cfg, c.ledger, subs[..k]).accounts
  }

  ghost predicate AuthorisedAt(cfg: ChainConfig, c: ChainState, subs: seq<Submission>, a: Address, k: int) {
    0 <= k < |subs| && subs[k].tx.from == a && Authorised(cfg, Before(cfg, c, subs, k), subs[k].tx)
  }

  lemma {:induction false} RunTakesNothing(cfg: ChainConfig, c: ChainState, subs: seq<Submission>, a: Address)
    requires Sound(c.ledger) && CostsFit(subs)
    requires forall k :: !AuthorisedAt(cfg, c, subs, a, k)
    ensures BalanceIn(Run(cfg, c.ledger, subs).accounts, a) >= BalanceIn(c.ledger.accounts, a)
    ensures NonceIn(Run(cfg, c.ledger, subs).accounts, a) == NonceIn(c.ledger.accounts, a)
  {
    if subs != [] {
      var before, s := subs[..|subs| - 1], subs[|subs| - 1];
      forall k | 0 <= k < |before| ensures !AuthorisedAt(cfg, c, before, a, k) {
        assert !AuthorisedAt(cfg, c, subs, a, k);
        assert subs[..k] == before[..k];
      }
      RunTakesNothing(cfg, c, before, a);
      RunConserves(cfg, c.ledger, before);
      SubmitExact(cfg, Run(cfg, c.ledger, before), s);
      assert !AuthorisedAt(cfg, c, subs, a, |subs| - 1);
      if Authorised(cfg, Run(cfg, c.ledger, before).accounts, s.tx) {
        assert MovesAt(Run(cfg, c.ledger, before).accounts, Run(cfg, c.ledger, subs).accounts, s, a);
      }
    }
  }

  /** Over a whole chain of blocks, no balance falls and no nonce moves without the
      account's own validly signed, in-order transaction, which its balance covered. */
  lemma NothingTakenUnsigned(cfg: ChainConfig, c: ChainState, inputs: seq<BlockInput>, a: Address)
    requires Sound(c.ledger) && CostsFit(Flattened(inputs))
    requires var m := RunBlocks(cfg, c, inputs).ledger.accounts;
             BalanceIn(m, a) < BalanceIn(c.ledger.accounts, a) || NonceIn(m, a) != NonceIn(c.ledger.accounts, a)
    ensures exists k :: AuthorisedAt(cfg, c, Flattened(inputs), a, k)
  {
    BlocksAreRuns(cfg, c, inputs);
    if forall k :: !AuthorisedAt(cfg, c, Flattened(inputs), a, k) {
      RunTakesNothing(cfg, c, Flattened(inputs), a);
    }
  }

  lemma RunStep(cfg: ChainConfig, l: Ledger, subs: seq<Submission>, k: nat)
    requires k < |subs|
    ensures Run(cfg, l, subs[..k + 1]) == Submit(cfg, Run(cfg, l, subs[..k]), subs[k])
  {
    assert subs[..k + 1][..k] == subs[..k];
  }

  /** A submission moves the ledger, if authorised on the accounts it meets, by exactly
      its amount and fee, and otherwise not at all. */
  ghost predicate MovesIfAuthorised(cfg: ChainConfig, l: Ledger, l': Ledger, s: Submission) {
    if Authorised(cfg, l.accounts, s.tx) then l' != l && Moves(l, l', s) else l' == l
  }

  /** Over a whole chain of blocks, this holds of each transaction in turn. */
  lemma ChainMovesExactly(cfg: ChainConfig, c: ChainState, inputs: seq<BlockInput>, subs: seq<Submission>, k: nat)
    requires subs == Flattened(inputs) && Sound(c.ledger) && CostsFit(subs) && k < |subs|
    ensures MovesIfAuthorised(cfg, Run(cfg, c.ledger, subs[..k]), Run(cfg, c.ledger, subs[..k + 1]), subs[k])
    ensures RunBlocks(cfg, c, inputs).ledger == Run(cfg, c.ledger, subs)
  {
    BlocksAreRuns(cfg, c, inputs);
    RunStep(cfg, c.ledger, subs, k);
    RunConserves(cfg, c.ledger, subs[..k]);
    SubmitExact(cfg, Run(cfg, c.ledger, subs[..k]), subs[k]);
    MovesExactly(cfg, Run(cfg, c.ledger, subs[..k]), subs[k]);
  }

  // ---- What a block records ----

  ghost predicate LastWithHash(cfg: ChainConfig, subs: seq<Submission>, h: Hash, k: int) {
    && 0 <= k < |subs| && cfg.txHash(subs[k].tx) == h
    && forall j :: k < j < |subs| ==> cfg.txHash(subs[j].tx) != h
  }

  ghost predicate ReceiptsHold(cfg: ChainConfig, l: Ledger, old_: map<Hash, Receipt>, new_: map<Hash, Receipt>,
                               subs: seq<Submission>, height: u64) {
    OnlySubmitted(cfg, old_, new_, subs) && LastReported(cfg, l, new_, subs, height)
  }

  /** Receipts under other digests are as they were. */
  ghost predicate OnlySubmitted(cfg: ChainConfig, old_: map<Hash, Receipt>, new_: map<Hash, Receipt>,
                                subs: seq<Submission>) {
    && (forall h :: h in new_ <==> h in old_ || exists k :: LastWithHash(cfg, subs, h, k))
    && (forall h :: h in old_ && (forall k :: !LastWithHash(cfg, subs, h, k)) ==> h in new_ && new_[h] == old_[h])
  }

  /** Under each digest submitted, the receipt reports on the last transaction with it. */
  ghost predicate LastReported(cfg: ChainConfig, l: Ledger, new_: map<Hash, Receipt>, subs: seq<Submission>,
                               height: u64) {
    forall h, k :: LastWithHash(cfg, subs, h, k) ==>
      h in new_ && Reports(cfg, Run(cfg, l, subs[..k]).accounts, subs[k].tx, height, new_[h])
  }

  lemma LastSnoc(cfg: ChainConfig, subs: seq<Submission>, s: Submission, h: Hash, k: int)
    ensures LastWithHash(cfg, subs + [s], h, k)
       <==> if cfg.txHash(s.tx) == h then k == |subs| else LastWithHash(cfg, subs, h, k)
  {
    var after := subs + [s];
    assert after[|subs|] == s && forall j :: 0 <= j < |subs| ==> after[j] == subs[j];
  }

  lemma OnlySubmittedStep(cfg: ChainConfig, old_: map<Hash, Receipt>, new_: map<Hash, Receipt>,
                          subs: seq<Submission>, s: Submission, r: Receipt)
    requires OnlySubmitted(cfg, old_, new_, subs) && r.txHash == cfg.txHash(s.tx)
    ensures OnlySubmitted(cfg, old_, new_[r.txHash := r], subs + [s])
  {
    forall h, k
      ensures LastWithHash(cfg, subs + [s], h, k)
         <==> if cfg.txHash(s.tx) == h then k == |subs| else LastWithHash(cfg, subs, h, k)
    {
      LastSnoc(cfg, subs, s, h, k);
    }
    assert LastWithHash(cfg, subs + [s], r.txHash, |subs|);
  }

  lemma LastReportedStep(cfg: ChainConfig, l: Ledger, new_: map<Hash, Receipt>, subs: seq<Submission>, s: Submission,
                         height: u64, r: Receipt)
    requires LastReported(cfg, l, new_, subs, height)
    requires Reports(cfg, Run(cfg, l, subs).accounts, s.tx, height, r)
    ensures LastReported(cfg, l, new_[r.txHash := r], subs + [s], height)
  {
    var after := subs + [s];
    assert after[..|subs|] == subs && after[|subs|] == s;
    forall h, k | LastWithHash(cfg, after, h, k)
      ensures k == |subs| || (LastWithHash(cfg, subs, h, k) && after[..k] == subs[..k] && h != r.txHash)
    {
      LastSnoc(cfg, subs, s, h, k);
    }
  }

  lemma {:induction false} ReceiptsOfRun(cfg: ChainConfig, l: Ledger, rs: map<Hash, Receipt>, subs: seq<Submission>,
                                         height: u64)
    ensures ReceiptsHold(cfg, l, rs, ReceiptsAfter(cfg, l, rs, subs, height), subs, height)
  {
    if subs != [] {
      var before, s := subs[..|subs| - 1], subs[|subs| - 1];
      ReceiptsOfRun(cfg, l, rs, before, height);
      ReceiptReports(cfg, Run(cfg, l, before), s.tx, height);
      var r := ReceiptFor(cfg, Run(cfg, l, before), s.tx, BLANK_KEY, height);
      OnlySubmittedStep(cfg, rs, ReceiptsAfter(cfg, l, rs, before, height), before, s, r);
      LastReportedStep(cfg, l, ReceiptsAfter(cfg, l, rs, before, height), before, s, height, r);
      assert before + [s] == subs;
    }
  }

  /** What a block leaves behind: its height, the root of the state before it under the
      height before it, and for every digest submitted the receipt of the last
      transaction with it, which tells whether that one was authorised. */
  lemma BlockRecords(cfg: ChainConfig, c: ChainState, input: BlockInput)
    ensures var c' := AfterBlock(cfg, c, input.block, input.baseFee, input.proposer);
            && c'.height == input.block.header.height
            && c'.snapshots == c.snapshots[c.height := StateRoot(cfg, c.ledger.accounts)]
            && ReceiptsHold(cfg, c.ledger, c.receipts, c'.receipts,
                            SubmissionsOf(input.block, input.baseFee, input.proposer), input.block.header.height)
  {
    ReceiptsOfRun(cfg, c.ledger, c.receipts, SubmissionsOf(input.block, input.baseFee, input.proposer),
                  input.block.header.height);
  }
}
