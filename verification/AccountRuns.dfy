/** What holds of billing accounts over whole runs. */
module AccountRuns {
  import opened Basics
  import opened Freeze
  import opened Account

  datatype Op =
    | PayIn(amount: real, note: Note)
    | Bill(amount: real, note: Note)
    | PayOut(amount: real, note: Note)
    | CheckExpiry(now: int)
    | LiftFreeze

  function Apply(a: AccountState, op: Op): AccountState {
    match op
    case PayIn(amount, note) => DepositTo(a, amount, note)
    case Bill(amount, note) => ChargeTo(a, amount, note)
    case PayOut(amount, note) => WithdrawFrom(a, amount, note)
    case CheckExpiry(now) => a.(freeze := Expire(a.freeze, now))
    case LiftFreeze => a.(freeze := Thaw(a.freeze))
  }

  /** The account after the operations, from its opening. */
  function Run(id: string, ops: seq<Op>): AccountState {
    if ops == [] then NewAccount(id) else Apply(Run(id, ops[..|ops| - 1]), ops[|ops| - 1])
  }

  lemma RunOneMore(id: string, ops: seq<Op>, j: nat)
    requires j < |ops|
    ensures Run(id, ops[..j + 1]) == Apply(Run(id, ops[..j]), ops[j])
  {
    assert ops[..j + 1][..j] == ops[..j];
  }

  // ---------- The journal ----------

  function Signed(t: Transaction): real {
    match t.txType
    case Deposit => t.amount
    case Withdrawal => -t.amount
    case BillingCharge => -t.amount
    case _ => 0.0
  }

  function Sum(journal: seq<Transaction>): real {
    if journal == [] then 0.0 else Sum(journal[..|journal| - 1]) + Signed(journal[|journal| - 1])
  }

  /** The balance is what the journal adds up to, now and after every entry. */
  ghost predicate AddsUp(id: string, balance: real, journal: seq<Transaction>) {
    && balance == Sum(journal)
    && forall k :: 0 <= k < |journal| ==> journal[k].balanceAfter == Sum(journal[..k + 1])
                                          && journal[k].amount > 0.0 && journal[k].accountId == id
  }

  ghost predicate Balanced(a: AccountState) {
    AddsUp(a.id, a.balance, a.journal)
  }

  lemma SumOneMore(journal: seq<Transaction>, t: Transaction)
    ensures Sum(journal + [t]) == Sum(journal) + Signed(t)
  {
    assert (journal + [t])[..|journal|] == journal;
  }

  lemma JournalGrows(id: string, balance: real, journal: seq<Transaction>, t: Transaction)
    requires AddsUp(id, balance, journal)
    requires t.balanceAfter == balance + Signed(t) && t.amount > 0.0 && t.accountId == id
    ensures AddsUp(id, t.balanceAfter, journal + [t])
  {
    var grown := journal + [t];
    SumOneMore(journal, t);
    forall k | 0 <= k < |grown|
      ensures grown[k].balanceAfter == Sum(grown[..k + 1])
    {
      assert grown[..k + 1] == if k < |journal| then journal[..k + 1] else grown;
    }
  }

  /** The movement `t` leads from one state of the books to the other. */
  ghost predicate Books(a: AccountState, end: AccountState, t: Transaction) {
    && end.id == a.id == t.accountId && end.journal == a.journal + [t] && t.amount > 0.0
    && end.balance == t.balanceAfter == a.balance + Signed(t)
  }

  ghost predicate SameBooks(a: AccountState, end: AccountState) {
    end.id == a.id && end.balance == a.balance && end.journal == a.journal
  }

  lemma StepBooks(a: AccountState, op: Op)
    ensures SameBooks(a, Apply(a, op)) || exists t :: Books(a, Apply(a, op), t)
  {
    var end := Apply(a, op);
    if end.journal != a.journal {
      assert Books(a, end, end.journal[|a.journal|]);
    }
  }

  lemma StepBalances(a: AccountState, op: Op)
    requires Balanced(a)
    ensures Balanced(Apply(a, op))
  {
    StepBooks(a, op);
    if !SameBooks(a, Apply(a, op)) {
      var t :| Books(a, Apply(a, op), t);
      JournalGrows(a.id, a.balance, a.journal, t);
    }
  }

  /** In every run the journal accounts for the balance, entry by entry. */
  lemma {:induction false} JournalBalances(id: string, ops: seq<Op>)
    ensures Balanced(Run(id, ops))
  {
    if ops != [] {
      JournalBalances(id, ops[..|ops| - 1]);
      StepBalances(Run(id, ops[..|ops| - 1]), ops[|ops| - 1]);
    }
  }

  // ---------- The books, from the operations ----------

  /** The operation moves money: a charge always, a deposit unless the account is deleted, a
      withdrawal of at least 100 that an active account can cover. */
  predicate Moves(a: AccountState, op: Op) {
    match op
    case PayIn(amount, _) => amount > 0.0 && a.freeze.state != HardDeleted
    case Bill(amount, _) => amount > 0.0
    case PayOut(amount, _) => 100.0 <= amount <= a.balance && a.freeze.state == Active
    case _ => false
  }

  function TypeOf(op: Op): TransactionType
    requires op.PayIn? || op.Bill? || op.PayOut?
  {
    if op.PayIn? then Deposit else if op.Bill? then BillingCharge else Withdrawal
  }

  /** The entry made for an operation that moves money. */
  function Entry(id: string, op: Op, balance: real): Transaction
    requires op.PayIn? || op.Bill? || op.PayOut?
  {
    Transaction(op.note.txId, id, TypeOf(op), op.amount, balance, op.note.now, op.note.description)
  }

  /** What one operation does to balance and journal, in any state. */
  lemma StepMoves(a: AccountState, op: Op)
    ensures var end := Apply(a, op);
      if Moves(a, op) then
        && end.balance == (if op.PayIn? then a.balance + op.amount else a.balance - op.amount)
        && end.journal == a.journal + [Entry(a.id, op, end.balance)]
      else end.balance == a.balance && end.journal == a.journal
    ensures Apply(a, op).id == a.id
  {
  }

  /** What one operation does to the state of the account and to the instant of freezing. */
  lemma StepState(a: AccountState, op: Op)
    ensures var s, end := a.freeze, Apply(a, op).freeze;
      && (end.state == FrozenExport <==>
            || (s.state == Active && op.Bill? && op.amount > 0.0 && a.balance <= op.amount)
            || (s.state == FrozenExport && !op.LiftFreeze?
                && !(op.CheckExpiry? && s.frozenAt.Some? && op.now >= s.frozenAt.value + s.exportDuration)))
      && (end.state == HardDeleted <==>
            || s.state == HardDeleted
            || (s.state == FrozenExport && op.CheckExpiry? && s.frozenAt.Some?
                && op.now >= s.frozenAt.value + s.exportDuration))
      && end.exportDuration == s.exportDuration
      && (s.state == Active && end.state == FrozenExport ==> end.frozenAt == Some(op.note.now))
      && (s.state == end.state ==> end.frozenAt == s.frozenAt)
  {
  }

  /** Operation `k` of the run moves money. */
  predicate MovesAt(id: string, ops: seq<Op>, k: nat) {
    k < |ops| && Moves(Run(id, ops[..k]), ops[k])
  }

  function MovementsUpTo(id: string, ops: seq<Op>, n: nat): real
    requires n <= |ops|
  {
    if n == 0 then 0.0
    else
      MovementsUpTo(id, ops, n - 1) +
      if !MovesAt(id, ops, n - 1) then 0.0 else if ops[n - 1].PayIn? then ops[n - 1].amount else -ops[n - 1].amount
  }

  /** In every run the balance is the sum of the operations that moved money. */
  lemma {:induction false} BalanceFromOperations(id: string, ops: seq<Op>, n: nat)
    requires n <= |ops|
    ensures Run(id, ops[..n]).balance == MovementsUpTo(id, ops, n) && Run(id, ops[..n]).id == id
  {
    if n > 0 {
      BalanceFromOperations(id, ops, n - 1);
      RunOneMore(id, ops, n - 1);
      StepMoves(Run(id, ops[..n - 1]), ops[n - 1]);
    } else {
      assert ops[..0] == [];
    }
  }

  /** The entry for operation `k`, with the balance it left. */
  function EntryAt(id: string, ops: seq<Op>, k: nat): Transaction
    requires MovesAt(id, ops, k)
  {
    Entry(id, ops[k], Run(id, ops[..k + 1]).balance)
  }

  /** The journal lists those of the first `n` operations that moved money, in order and none
      left out: they are at `ks`. */
  ghost predicate Lists(id: string, ops: seq<Op>, n: nat, journal: seq<Transaction>, ks: seq<nat>) {
    && |ks| == |journal|
    && (forall a, b :: 0 <= a < b < |ks| ==> ks[a] < ks[b])
    && (forall i :: 0 <= i < |ks| ==> ks[i] < n && MovesAt(id, ops, ks[i]) && journal[i] == EntryAt(id, ops, ks[i]))
    && forall k: nat :: k < n && MovesAt(id, ops, k) ==> k in ks
  }

  lemma JournalStep(id: string, ops: seq<Op>, k: nat)
    requires k < |ops|
    ensures var before, end := Run(id, ops[..k]), Run(id, ops[..k + 1]);
      end.journal == before.journal + if MovesAt(id, ops, k) then [Entry(id, ops[k], end.balance)] else []
  {
    BalanceFromOperations(id, ops, k);
    RunOneMore(id, ops, k);
    StepMoves(Run(id, ops[..k]), ops[k]);
  }

  lemma ListsOneMore(id: string, ops: seq<Op>, n: nat, journal: seq<Transaction>, ks: seq<nat>)
    requires Lists(id, ops, n, journal, ks) && MovesAt(id, ops, n)
    ensures Lists(id, ops, n + 1, journal + [EntryAt(id, ops, n)], ks + [n])
  {
  }

  lemma ListsNoMore(id: string, ops: seq<Op>, n: nat, journal: seq<Transaction>, ks: seq<nat>)
    requires Lists(id, ops, n, journal, ks) && !MovesAt(id, ops, n)
    ensures Lists(id, ops, n + 1, journal, ks)
  {
  }

  /** In every run the journal lists exactly the operations that moved money. */
  lemma {:induction false} JournalFromOperations(id: string, ops: seq<Op>, n: nat) returns (ks: seq<nat>)
    requires n <= |ops|
    ensures Lists(id, ops, n, Run(id, ops[..n]).journal, ks)
  {
    ks := [];
    if n > 0 {
      var before := Run(id, ops[..n - 1]).journal;
      ks := JournalFromOperations(id, ops, n - 1);
      JournalStep(id, ops, n - 1);
      if MovesAt(id, ops, n - 1) {
        ListsOneMore(id, ops, n - 1, before, ks);
        ks := ks + [n - 1];
      } else {
        ListsNoMore(id, ops, n - 1, before, ks);
        assert before + [] == before;
      }
    } else {
      assert ops[..0] == [];
    }
  }

  /** The export window is 48 hours, and runs from a recorded instant unless the account
      is active. */
  lemma {:induction false} WindowIsFixed(id: string, ops: seq<Op>)
    ensures Run(id, ops).freeze.exportDuration == 172_800_000_000_000
    ensures Run(id, ops).freeze.frozenAt.None? <==> Run(id, ops).freeze.state == Active
  {
    if ops != [] {
      WindowIsFixed(id, ops[..|ops| - 1]);
    }
  }

  // ---------- Debt and the active state ----------

  /** Operation `k` lifts the freeze of an account in debt. */
  predicate LiftsInDebt(id: string, ops: seq<Op>, k: nat)
    requires k < |ops|
  {
    var a := Run(id, ops[..k]);
    ops[k].LiftFreeze? && a.freeze.state == FrozenExport && a.balance < 0.0
  }

  predicate ActiveInDebt(a: AccountState) {
    a.freeze.state == Active && a.balance < 0.0
  }

  lemma {:induction false} ActiveIsSolvent(id: string, ops: seq<Op>)
    requires forall k :: 0 <= k < |ops| ==> !LiftsInDebt(id, ops, k)
    ensures !ActiveInDebt(Run(id, ops))
  {
    if ops != [] {
      var n := |ops| - 1;
      forall k | 0 <= k < n
        ensures !LiftsInDebt(id, ops[..n], k)
      {
        assert !LiftsInDebt(id, ops, k);
        assert ops[..n][..k] == ops[..k];
      }
      ActiveIsSolvent(id, ops[..n]);
      assert !LiftsInDebt(id, ops, n);
    }
  }

  /** An account is active and in debt at some point of a run exactly if some freeze was
      lifted while the account was in debt: lifting only at a balance that is not negative
      keeps every active account solvent. */
  lemma ActiveInDebtOnlyByLifting(id: string, ops: seq<Op>)
    ensures (exists k :: 0 <= k <= |ops| && ActiveInDebt(Run(id, ops[..k])))
       <==> (exists k :: 0 <= k < |ops| && LiftsInDebt(id, ops, k))
  {
    if exists k :: 0 <= k < |ops| && LiftsInDebt(id, ops, k) {
      var k :| 0 <= k < |ops| && LiftsInDebt(id, ops, k);
      assert ops[..k + 1][..k] == ops[..k];
      assert ActiveInDebt(Run(id, ops[..k + 1]));
    } else {
      forall k | 0 <= k <= |ops|
        ensures !ActiveInDebt(Run(id, ops[..k]))
      {
        forall j | 0 <= j < k
          ensures !LiftsInDebt(id, ops[..k], j)
        {
          assert !LiftsInDebt(id, ops, j);
          assert ops[..k][..j] == ops[..j];
        }
        ActiveIsSolvent(id, ops[..k]);
      }
    }
  }

  /** Such an account: charged, frozen, and lifted in debt. */
  lemma DebtByLifting(id: string, note: Note)
    ensures ActiveInDebt(Run(id, [Bill(1.0, note), LiftFreeze]))
  {
    assert [Bill(1.0, note), LiftFreeze][..1] == [Bill(1.0, note)];
    assert [Bill(1.0, note)][..0] == [];
    assert Run(id, [Bill(1.0, note)]) == ChargeTo(NewAccount(id), 1.0, note);
  }

  predicate ActiveWithoutMoney(a: AccountState) {
    a.freeze.state == Active && a.balance <= 0.0
  }

  /** Withdraws all the money of an active account, or lifts the freeze of one without. */
  predicate LeavesWithoutMoney(a: AccountState, op: Op) {
    match op
    case PayOut(amount, _) => a.freeze.state == Active && amount == a.balance && amount >= MIN_WITHDRAWAL
    case LiftFreeze => a.freeze.state == FrozenExport && a.balance <= 0.0
    case _ => false
  }

  /** Pays in more than an account without money owes, or charges it. */
  predicate SettlesOrFreezes(balance: real, op: Op) {
    match op
    case PayIn(amount, _) => amount > 0.0 && balance + amount > 0.0
    case Bill(amount, _) => amount > 0.0
    case _ => false
  }

  lemma StepWithoutMoney(a: AccountState, op: Op)
    ensures ActiveWithoutMoney(Apply(a, op)) <==>
            LeavesWithoutMoney(a, op) || (ActiveWithoutMoney(a) && !SettlesOrFreezes(a.balance, op))
  {
  }

  /** From the first `k` operations on, the account is active without money: it was just
      opened, emptied, or lifted without money, and nothing since settled or froze it. */
  ghost predicate WithoutMoneySince(id: string, ops: seq<Op>, k: nat) {
    && k <= |ops|
    && (k == 0 || LeavesWithoutMoney(Run(id, ops[..k - 1]), ops[k - 1]))
    && forall j :: k <= j < |ops| ==> !SettlesOrFreezes(Run(id, ops[..j]).balance, ops[j])
  }

  lemma WithoutMoneyOneLess(id: string, ops: seq<Op>, k: nat)
    requires ops != [] && k < |ops|
    ensures WithoutMoneySince(id, ops, k) <==>
            WithoutMoneySince(id, ops[..|ops| - 1], k)
            && !SettlesOrFreezes(Run(id, ops[..|ops| - 1]).balance, ops[|ops| - 1])
  {
    var n := |ops| - 1;
    assert forall j :: 0 <= j <= n ==> ops[..n][..j] == ops[..j];
  }

  /** After any run, the account is active without money exactly if it has been so since its
      opening, a withdrawal of all its money, or the lifting of a freeze without money. */
  lemma {:induction false} ActiveWithoutMoneyHistory(id: string, ops: seq<Op>)
    ensures ActiveWithoutMoney(Run(id, ops)) <==> exists k :: WithoutMoneySince(id, ops, k)
  {
    if ops == [] {
      assert WithoutMoneySince(id, ops, 0);
    } else {
      var n := |ops| - 1;
      var a, op := Run(id, ops[..n]), ops[n];
      ActiveWithoutMoneyHistory(id, ops[..n]);
      StepWithoutMoney(a, op);
      forall k | 0 <= k <= n
        ensures WithoutMoneySince(id, ops, k) <==>
                WithoutMoneySince(id, ops[..n], k) && !SettlesOrFreezes(a.balance, op)
      {
        WithoutMoneyOneLess(id, ops, k);
      }
      assert WithoutMoneySince(id, ops, n + 1) <==> LeavesWithoutMoney(a, op);
    }
  }

  /** An active account without money, by withdrawal. */
  lemma EmptiedStaysActive(id: string, note: Note)
    ensures var a := Run(id, [PayIn(100.0, note), PayOut(100.0, note)]);
      ActiveWithoutMoney(a) && a.balance == 0.0
  {
    assert [PayIn(100.0, note), PayOut(100.0, note)][..1] == [PayIn(100.0, note)];
    assert [PayIn(100.0, note)][..0] == [];
    assert Run(id, [PayIn(100.0, note)]) == DepositTo(NewAccount(id), 100.0, note);
  }

  // ---------- The export window ----------

  /** Operation `i` froze the account, which stayed so, with the same window, until after
      operation `j`. */
  ghost predicate FrozenThroughout(id: string, ops: seq<Op>, i: nat, j: nat) {
    && i < j <= |ops|
    && ops[i].Bill?
    && Run(id, ops[..i]).freeze.state == Active
    && forall k :: i < k <= j ==>
         Run(id, ops[..k]).freeze == Status(FrozenExport, Some(ops[i].note.now), 172_800_000_000_000)
  }

  /** A frozen account was frozen by a charge, and has been frozen since. */
  lemma {:induction false} FrozenSince(id: string, ops: seq<Op>) returns (i: nat)
    requires Run(id, ops).freeze.state == FrozenExport
    ensures FrozenThroughout(id, ops, i, |ops|)
  {
    var n := |ops| - 1;
    var before := Run(id, ops[..n]);
    WindowIsFixed(id, ops);
    assert ops[..|ops|] == ops;
    if before.freeze.state == FrozenExport {
      i := FrozenSince(id, ops[..n]);
      forall k | i < k <= n
        ensures Run(id, ops[..k]).freeze == Status(FrozenExport, Some(ops[i].note.now), 172_800_000_000_000)
      {
        assert ops[..n][..k] == ops[..k];
      }
      assert ops[..n][..i] == ops[..i];
    } else {
      i := n;
    }
  }

  /** A deleted account had its whole export window: a charge froze it, it stayed frozen,
      and the check that deleted it came no earlier than 48 hours after that charge. */
  lemma {:induction false} DeletedAfterFullWindow(id: string, ops: seq<Op>) returns (i: nat, j: nat)
    requires Run(id, ops).freeze.state == HardDeleted
    ensures FrozenThroughout(id, ops, i, j) && j < |ops|
    ensures ops[j].CheckExpiry? && ops[j].now >= ops[i].note.now + 172_800_000_000_000
    ensures Run(id, ops[..j + 1]).freeze.state == HardDeleted
    decreases |ops|
  {
    var n := |ops| - 1;
    var before := Run(id, ops[..n]);
    if before.freeze.state == HardDeleted {
      i, j := DeletedAfterFullWindow(id, ops[..n]);
      assert ops[..n][..j + 1] == ops[..j + 1];
    } else {
      i := FrozenSince(id, ops[..n]);
      j := n;
      assert ops[..n + 1] == ops;
      assert ops[..n][..n] == ops[..n];
    }
    forall k | i <= k <= j
      ensures ops[..n][..k] == ops[..k]
    {
    }
  }

  // ---------- Deletion of an account with money ----------

  /** What a frozen account gains by the operations. */
  function GainOf(op: Op): real {
    match op
    case PayIn(amount, _) => if amount > 0.0 then amount else 0.0
    case Bill(amount, _) => if amount > 0.0 then -amount else 0.0
    case _ => 0.0
  }

  function Gain(ops: seq<Op>): real {
    if ops == [] then 0.0 else Gain(ops[..|ops| - 1]) + GainOf(ops[|ops| - 1])
  }

  lemma GainOneMore(ops: seq<Op>, i: nat, j: nat)
    requires i <= j < |ops|
    ensures Gain(ops[i..j + 1]) == Gain(ops[i..j]) + GainOf(ops[j])
  {
    assert ops[i..j + 1][..j - i] == ops[i..j];
  }

  lemma FrozenStep(a: AccountState, op: Op)
    requires a.freeze.state == FrozenExport
    ensures Apply(a, op).balance == a.balance + GainOf(op)
  {
  }

  lemma FrozenGains(id: string, ops: seq<Op>, i: nat, j: nat, k: nat)
    requires FrozenThroughout(id, ops, i, j) && i < k < j
    ensures Run(id, ops[..k + 1]).balance == Run(id, ops[..k]).balance + GainOf(ops[k])
  {
    RunOneMore(id, ops, k);
    FrozenStep(Run(id, ops[..k]), ops[k]);
  }

  lemma {:induction false} GainsAddUp(balances: seq<real>, ops: seq<Op>, i: nat, j: nat)
    requires i <= j <= |ops| && |balances| > |ops|
    requires forall k :: i <= k < j ==> balances[k + 1] == balances[k] + GainOf(ops[k])
    ensures balances[j] == balances[i] + Gain(ops[i..j])
  {
    if i < j {
      GainsAddUp(balances, ops, i, j - 1);
      GainOneMore(ops, i, j - 1);
    }
  }

  /** While the account is frozen its balance follows deposits and charges. */
  lemma FrozenBalance(id: string, ops: seq<Op>, i: nat, j: nat)
    requires FrozenThroughout(id, ops, i, j)
    ensures Run(id, ops[..j]).balance == Run(id, ops[..i + 1]).balance + Gain(ops[i + 1..j])
  {
    var balances := seq(|ops| + 1, k requires 0 <= k <= |ops| => Run(id, ops[..k]).balance);
    forall k | i < k < j
      ensures balances[k + 1] == balances[k] + GainOf(ops[k])
    {
      FrozenGains(id, ops, i, j, k);
    }
    GainsAddUp(balances, ops, i + 1, j);
  }

  /** The charge that freezes an account leaves it without money. */
  lemma FrozenWithoutMoney(id: string, ops: seq<Op>, i: nat, j: nat)
    requires FrozenThroughout(id, ops, i, j)
    ensures Run(id, ops[..i + 1]).balance <= 0.0
  {
    assert ops[..i + 1][..i] == ops[..i];
  }

  /** A deposit does not save a frozen account: it is deleted with money left exactly if the
      deposits since the charge that froze it exceed the charges since and what it owed. */
  lemma DeletedWithMoney(id: string, ops: seq<Op>) returns (i: nat, j: nat)
    requires Run(id, ops).freeze.state == HardDeleted
    ensures FrozenThroughout(id, ops, i, j) && j < |ops| && Run(id, ops[..j + 1]).freeze.state == HardDeleted
    ensures ops[j].CheckExpiry? && ops[j].now >= ops[i].note.now + 172_800_000_000_000
    ensures var owed := -Run(id, ops[..i + 1]).balance;
      owed >= 0.0 && (Run(id, ops[..j + 1]).balance > 0.0 <==> Gain(ops[i + 1..j]) > owed)
  {
    i, j := DeletedAfterFullWindow(id, ops);
    FrozenBalance(id, ops, i, j);
    FrozenWithoutMoney(id, ops, i, j);
    assert ops[..j + 1][..j] == ops[..j];
  }

  /** An account deleted with money. */
  lemma DeletedAfterDeposit(id: string, note: Note)
    ensures var ops := [Bill(1.0, note), PayIn(1000.0, note), CheckExpiry(note.now + 172_800_000_000_000)];
      Run(id, ops).freeze.state == HardDeleted && Run(id, ops).balance == 999.0
  {
    var ops := [Bill(1.0, note), PayIn(1000.0, note), CheckExpiry(note.now + 172_800_000_000_000)];
    assert ops[..2][..1] == [ops[0]] && ops[..1][..0] == [];
    assert Run(id, ops[..1]) == ChargeTo(NewAccount(id), 1.0, note);
    assert Run(id, ops[..2]) == DepositTo(Run(id, ops[..1]), 1000.0, note);
  }

  /** Deletion is final: whatever follows, the account stays deleted, every deposit and
      withdrawal is refused, and the balance can only fall. */
  lemma {:induction false} DeletionIsFinal(id: string, ops: seq<Op>, more: seq<Op>, amount: real)
    requires Run(id, ops).freeze.state == HardDeleted
    ensures var end := Run(id, ops + more);
      && end.freeze == Run(id, ops).freeze
      && DepositError(end, amount).Some? && WithdrawalError(end, amount).Some?
      && end.balance <= Run(id, ops).balance
    decreases |more|
  {
    if more == [] {
      assert ops + more == ops;
    } else {
      var n := |more| - 1;
      assert (ops + more)[..|ops| + n] == ops + more[..n];
      DeletionIsFinal(id, ops, more[..n], amount);
    }
  }
}
