/** One transaction: the validation gate, then the transfer, the burn of the base
    fee and the payment of the priority fee. */
module Execution {
  import opened Types
  import opened Accounts
  import opened MerkleTree

  datatype ChainConfig = ChainConfig(
    chainId: u32,
    signatureValid: (Transaction, PublicKey) -> bool,
    txHash: Transaction -> Hash,
    accountHash: Account -> Hash,
    hashPair: PairHash)

  datatype TxError = ZeroSender | ZeroRecipient | WrongChain | BadSignature | WrongNonce | PoorBalance | PoorAtExecution

  datatype Receipt = Receipt(txHash: Hash, height: u64, success: bool, gasUsed: u64, error: Option<TxError>)

  /** The accounts and the executor's two counters. */
  datatype Ledger = Ledger(accounts: AccountMap, burned: u64, priorityFees: u64)

  // ---- Specification ----

  function Cost(tx: Transaction): u64 {
    Wrap(tx.amount + tx.fee)
  }

  function Refusal(cfg: ChainConfig, tx: Transaction, key: PublicKey, m: AccountMap): Option<TxError> {
    if tx.from == 0 then Some(ZeroSender)
    else if tx.to == 0 then Some(ZeroRecipient)
    else if tx.chainId != cfg.chainId then Some(WrongChain)
    else if !cfg.signatureValid(tx, key) then Some(BadSignature)
    else if AccountAt(m, tx.from).nonce != tx.nonce then Some(WrongNonce)
    else if AccountAt(m, tx.from).balance < Cost(tx) then Some(PoorBalance)
    else None
  }

  function BaseFeeAmount(tx: Transaction, baseFee: u64): u64 {
    var total := Wrap(baseFee * tx.gasLimit);
    if total < tx.fee then total else tx.fee
  }

  function PriorityFeeAmount(tx: Transaction, baseFee: u64): u64 {
    tx.fee - BaseFeeAmount(tx, baseFee)
  }

  /** The accounts after the sender paid and its nonce moved on. */
  function Debited(m: AccountMap, tx: Transaction): AccountMap {
    WithNonceUp(WithDeducted(m, tx.from, Cost(tx)), tx.from)
  }

  function Paid(m: AccountMap, a: Address, amount: u64): AccountMap {
    if amount > 0 then WithAdded(m, a, amount) else m
  }

  function Executed(l: Ledger, tx: Transaction, baseFee: u64, proposer: Address): Ledger {
    if AccountAt(l.accounts, tx.from).balance < Cost(tx) then l
    else
      var priority := PriorityFeeAmount(tx, baseFee);
      Ledger(Paid(WithAdded(Debited(l.accounts, tx), tx.to, tx.amount), proposer, priority),
             Wrap(l.burned + BaseFeeAmount(tx, baseFee)),
             Wrap(l.priorityFees + priority))
  }

  function Outcome(cfg: ChainConfig, l: Ledger, tx: Transaction, key: PublicKey): Option<TxError> {
    var refusal := Refusal(cfg, tx, key, l.accounts);
    if refusal.Some? then refusal
    else if AccountAt(l.accounts, tx.from).balance < Cost(tx) then Some(PoorAtExecution)
    else None
  }

  function ReceiptFor(cfg: ChainConfig, l: Ledger, tx: Transaction, key: PublicKey, height: u64): Receipt {
    var error := Outcome(cfg, l, tx, key);
    if error.Some? then Receipt(cfg.txHash(tx), height, false, 0, error)
    else Receipt(cfg.txHash(tx), height, true, tx.gasLimit, None)
  }

  /** The ledger after one submitted transaction, refused or executed. */
  function Processed(cfg: ChainConfig, l: Ledger, tx: Transaction, key: PublicKey, baseFee: u64, proposer: Address)
    : Ledger
  {
    if Refusal(cfg, tx, key, l.accounts).Some? then l else Executed(l, tx, baseFee, proposer)
  }

  // ---- Objects ----

  method ValidateTransaction(cfg: ChainConfig, tx: Transaction, key: PublicKey, manager: AccountManager)
      returns (error: Option<TxError>)
    ensures error == Refusal(cfg, tx, key, manager.accounts)
  {
    if tx.from == 0 {
      return Some(ZeroSender);
    }
    if tx.to == 0 {
      return Some(ZeroRecipient);
    }
    if tx.chainId != cfg.chainId {
      return Some(WrongChain);
    }
    if !cfg.signatureValid(tx, key) {
      return Some(BadSignature);
    }
    var nonceOk := manager.ValidateNonce(tx.from, tx.nonce);
    if !nonceOk {
      return Some(WrongNonce);
    }
    var balanceOk := manager.HasSufficientBalance(tx.from, Wrap(tx.amount + tx.fee));
    if !balanceOk {
      return Some(PoorBalance);
    }
    return None;
  }

  class TransactionExecutor {
    const manager: AccountManager
    var totalBurned: u64
    var totalPriorityFees: u64

    constructor (manager: AccountManager)
      ensures this.manager == manager && totalBurned == 0 && totalPriorityFees == 0
    {
      this.manager := manager;
      totalBurned, totalPriorityFees := 0, 0;
    }

    ghost function Abs(): Ledger
      reads this, manager
    {
      Ledger(manager.accounts, totalBurned, totalPriorityFees)
    }

    method ExecuteTransaction(cfg: ChainConfig, tx: Transaction, height: u64, baseFee: u64, proposer: Address)
        returns (receipt: Receipt)
      modifies this, manager
      ensures Abs() == Executed(old(Abs()), tx, baseFee, proposer)
      ensures receipt == if AccountAt(old(manager.accounts), tx.from).balance < Cost(tx)
                         then Receipt(cfg.txHash(tx), height, false, 0, Some(PoorAtExecution))
                         else Receipt(cfg.txHash(tx), height, true, tx.gasLimit, None)
    {
      var baseFeeAmount := BaseFeeAmount(tx, baseFee);
      var priorityFeeAmount: u64 := if tx.fee > baseFeeAmount then tx.fee - baseFeeAmount else 0;
      assert priorityFeeAmount == PriorityFeeAmount(tx, baseFee);
      var totalDeduction := Wrap(tx.amount + tx.fee);
      var sender := manager.GetAccount(tx.from);
      if sender.balance < totalDeduction {
        return Receipt(cfg.txHash(tx), height, false, 0, Some(PoorAtExecution));
      }
      Settle(tx, totalDeduction, baseFeeAmount, priorityFeeAmount, proposer);
      return Receipt(cfg.txHash(tx), height, true, tx.gasLimit, None);
    }

    method Settle(tx: Transaction, deduction: u64, burn: u64, priority: u64, proposer: Address)
      requires deduction == Cost(tx)
      modifies this, manager
      ensures manager.accounts
           == Paid(WithAdded(Debited(old(manager.accounts), tx), tx.to, tx.amount), proposer, priority)
      ensures totalBurned == Wrap(old(totalBurned) + burn)
      ensures totalPriorityFees == Wrap(old(totalPriorityFees) + priority)
    {
      manager.DeductBalance(tx.from, deduction);
      manager.IncrementNonce(tx.from);
      manager.AddBalance(tx.to, tx.amount);
      totalBurned := Wrap(totalBurned + burn);
      if priority > 0 {
        manager.AddBalance(proposer, priority);
        totalPriorityFees := Wrap(totalPriorityFees + priority);
      }
    }

    method ResetCounters()
      modifies this
      ensures totalBurned == 0 && totalPriorityFees == 0
    {
      totalBurned, totalPriorityFees := 0, 0;
    }
  }
}
