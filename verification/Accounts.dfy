/** Balances and nonces by address. An address with no entry reads as an empty
    account; every write stores the account under its own address. */
module Accounts {
  import opened Types

  type AccountMap = map<Address, Account>

  function AccountAt(m: AccountMap, a: Address): Account {
    if a in m then m[a] else Account(a, 0, 0, 0)
  }

  /** An address with no entry has nonce and balance 0. */
  ghost function NonceIn(m: AccountMap, a: Address): u64 {
    if a in m then m[a].nonce else 0
  }

  ghost function BalanceIn(m: AccountMap, a: Address): u64 {
    if a in m then m[a].balance else 0
  }

  function Put(m: AccountMap, account: Account): AccountMap {
    m[account.address := account]
  }

  function WithNonceUp(m: AccountMap, a: Address): AccountMap {
    Put(m, AccountAt(m, a).(nonce := Wrap(AccountAt(m, a).nonce + 1)))
  }

  function WithDeducted(m: AccountMap, a: Address, amount: u64): AccountMap {
    Put(m, AccountAt(m, a).(balance := Wrap(AccountAt(m, a).balance - amount)))
  }

  function WithAdded(m: AccountMap, a: Address, amount: u64): AccountMap {
    Put(m, AccountAt(m, a).(balance := Wrap(AccountAt(m, a).balance + amount)))
  }

  class AccountManager {
    var accounts: AccountMap

    constructor ()
      ensures accounts == map[]
    {
      accounts := map[];
    }

    method GetAccount(a: Address) returns (account: Account)
      ensures account == AccountAt(accounts, a)
    {
      if a in accounts {
        return accounts[a];
      }
      return Account(a, 0, 0, 0);
    }

    method CreateAccount(a: Address, initialBalance: u64) returns (account: Account)
      modifies this
      ensures account == Account(a, initialBalance, 0, 0)
      ensures accounts == old(accounts)[a := account]
    {
      account := Account(a, initialBalance, 0, 0);
      accounts := accounts[a := account];
    }

    method UpdateAccount(account: Account)
      modifies this
      ensures accounts == Put(old(accounts), account)
    {
      accounts := accounts[account.address := account];
    }

    method ValidateNonce(a: Address, nonce: u64) returns (ok: bool)
      ensures ok == (AccountAt(accounts, a).nonce == nonce)
    {
      var account := GetAccount(a);
      ok := account.nonce == nonce;
    }

    method HasSufficientBalance(a: Address, required: u64) returns (ok: bool)
      ensures ok == (AccountAt(accounts, a).balance >= required)
    {
      var account := GetAccount(a);
      ok := account.balance >= required;
    }

    method IncrementNonce(a: Address)
      modifies this
      ensures accounts == WithNonceUp(old(accounts), a)
    {
      var account := GetAccount(a);
      UpdateAccount(account.(nonce := Wrap(account.nonce + 1)));
    }

    method DeductBalance(a: Address, amount: u64)
      modifies this
      ensures accounts == WithDeducted(old(accounts), a, amount)
    {
      var account := GetAccount(a);
      UpdateAccount(account.(balance := Wrap(account.balance - amount)));
    }

    method AddBalance(a: Address, amount: u64)
      modifies this
      ensures accounts == WithAdded(old(accounts), a, amount)
    {
      var account := GetAccount(a);
      UpdateAccount(account.(balance := Wrap(account.balance + amount)));
    }

    method Clear()
      modifies this
      ensures accounts == map[]
    {
      accounts := map[];
    }
  }
}
