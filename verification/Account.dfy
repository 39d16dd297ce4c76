/**
  Billing accounts, billing/src/account.rs: a balance, a journal, and the freeze
  lifecycle. Money is exact; instants and transaction identifiers are passed in.
 */
module Account {
  import opened Basics
  import opened Freeze

  datatype TransactionType = Deposit | Withdrawal | BillingCharge | Refund | PlatformFee | HostPayout

  datatype Transaction = Transaction(id: string, accountId: string, txType: TransactionType, amount: real,
                                     balanceAfter: real, timestamp: int, description: string)

  datatype AccountError = NotPositive | Deleted | BelowMinimum | Insufficient | NotActive

  const MIN_WITHDRAWAL: real := 100.0

  /** What an account holds. */
  datatype AccountState = AccountState(id: string, balance: real, journal: seq<Transaction>, freeze: Status)

  /** What the caller says about a movement of money. */
  datatype Note = Note(txId: string, now: int, description: string)

  function Recorded(a: AccountState, t: TransactionType, amount: real, balance: real, note: Note): AccountState {
    var tx := Transaction(note.txId, a.id, t, amount, balance, note.now, note.description);
    a.(balance := balance, journal := a.journal + [tx])
  }

  function DepositError(a: AccountState, amount: real): Option<AccountError> {
    if amount <= 0.0 then Some(NotPositive)
    else if a.freeze.state == HardDeleted then Some(Deleted)
    else None
  }

  function DepositTo(a: AccountState, amount: real, note: Note): AccountState {
    if DepositError(a, amount).Some? then a else Recorded(a, Deposit, amount, a.balance + amount, note)
  }

  /** A charge is refused only if it is not positive: it goes through in every state, and
      freezes an active account that it leaves without money. */
  function ChargeTo(a: AccountState, amount: real, note: Note): AccountState {
    if amount <= 0.0 then a
    else
      var charged := Recorded(a, BillingCharge, amount, a.balance - amount, note);
      if charged.balance <= 0.0 then charged.(freeze := StartFreeze(a.freeze, note.now)) else charged
  }

  function WithdrawalError(a: AccountState, amount: real): Option<AccountError> {
    if amount < MIN_WITHDRAWAL then Some(BelowMinimum)
    else if amount > a.balance then Some(Insufficient)
    else if a.freeze.state != Active then Some(NotActive)
    else None
  }

  function WithdrawFrom(a: AccountState, amount: real, note: Note): AccountState {
    if WithdrawalError(a, amount).Some? then a else Recorded(a, Withdrawal, amount, a.balance - amount, note)
  }

  function NewAccount(id: string): AccountState {
    AccountState(id, 0.0, [], NEW_STATUS)
  }

  class BillingAccount {
    const id: string
    var balance: real
    var transactions: seq<Transaction>
    const freezeManager: FreezeManager

    function State(): AccountState
      reads this, freezeManager
    {
      AccountState(id, balance, transactions, freezeManager.GetStatus())
    }

    constructor (id: string, initialDeposit: real, note: Note)
      ensures fresh(freezeManager)
      ensures State() == DepositTo(NewAccount(id), initialDeposit, note)
      ensures balance == (if initialDeposit > 0.0 then initialDeposit else 0.0)
      ensures |transactions| == (if initialDeposit > 0.0 then 1 else 0)
      ensures freezeManager.state == Active && freezeManager.exportDuration == 172_800_000_000_000
    {
      this.id := id;
      balance := 0.0;
      transactions := [];
      freezeManager := new FreezeManager();
      new;
      if initialDeposit > 0.0 {
        var _ := this.Deposit(initialDeposit, note);
      }
    }

    method Deposit(amount: real, note: Note) returns (error: Option<AccountError>)
      modifies this
      ensures error == DepositError(old(State()), amount)
      ensures State() == DepositTo(old(State()), amount, note)
      ensures error == if amount <= 0.0 then Some(NotPositive)
                       else if freezeManager.state == HardDeleted then Some(Deleted) else None
      ensures error.None? ==>
                && balance == old(balance) + amount
                && transactions == old(transactions)
                   + [Transaction(note.txId, id, TransactionType.Deposit, amount, balance, note.now, note.description)]
      ensures error.Some? ==> balance == old(balance) && transactions == old(transactions)
    {
      if amount <= 0.0 {
        return Some(NotPositive);
      }
      if freezeManager.state == HardDeleted {
        return Some(Deleted);
      }
      balance := balance + amount;
      RecordTransaction(TransactionType.Deposit, amount, note);
      error := None;
    }

    method Charge(amount: real, note: Note) returns (error: Option<AccountError>)
      modifies this, freezeManager
      ensures error == if amount <= 0.0 then Some(NotPositive) else None
      ensures State() == ChargeTo(old(State()), amount, note)
      ensures error.None? ==>
                && balance == old(balance) - amount
                && transactions == old(transactions)
                   + [Transaction(note.txId, id, BillingCharge, amount, balance, note.now, note.description)]
                && freezeManager.state == (if old(freezeManager.state) == Active && balance <= 0.0 then FrozenExport
                                           else old(freezeManager.state))
      ensures error.Some? ==> balance == old(balance) && transactions == old(transactions)
                              && freezeManager.state == old(freezeManager.state)
    {
      if amount <= 0.0 {
        return Some(NotPositive);
      }
      balance := balance - amount;
      RecordTransaction(BillingCharge, amount, note);
      if balance <= 0.0 {
        freezeManager.TriggerFreeze(note.now);
      }
      error := None;
    }

    method RequestWithdrawal(amount: real, note: Note) returns (error: Option<AccountError>)
      modifies this
      ensures error == WithdrawalError(old(State()), amount)
      ensures State() == WithdrawFrom(old(State()), amount, note)
      ensures error == if amount < 100.0 then Some(BelowMinimum) else if amount > old(balance) then Some(Insufficient)
                       else if freezeManager.state != Active then Some(NotActive) else None
      ensures error.None? ==>
                && balance == old(balance) - amount
                && transactions == old(transactions)
                   + [Transaction(note.txId, id, Withdrawal, amount, balance, note.now, note.description)]
      ensures error.Some? ==> balance == old(balance) && transactions == old(transactions)
    {
      if amount < MIN_WITHDRAWAL {
        return Some(BelowMinimum);
      }
      if amount > balance {
        return Some(Insufficient);
      }
      if freezeManager.state != Active {
        return Some(NotActive);
      }
      balance := balance - amount;
      RecordTransaction(Withdrawal, amount, note);
      error := None;
    }

    method RecordTransaction(txType: TransactionType, amount: real, note: Note)
      modifies this`transactions
      ensures transactions ==
              old(transactions) + [Transaction(note.txId, id, txType, amount, balance, note.now, note.description)]
    {
      var tx := Transaction(note.txId, id, txType, amount, balance, note.now, note.description);
      transactions := transactions + [tx];
    }
  }
}
