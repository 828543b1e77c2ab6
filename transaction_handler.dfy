/** The balance endpoints: a withdrawal against a new order number, made
    of the order insert and the debit in one database transaction, and the
    balance summary. */
module TransactionHandler {
  import opened Model
  import opened Store
  import OrderRepository
  import TransactionRepository
  import Luhn

  /** The decoded request body: the order number and the sum to withdraw. */
  datatype WithdrawalRequest = WithdrawalRequest(order: string, sum: int)

  /** Where a withdrawal stopped: creating the order, posting the entry, or
      at the commit. */
  datatype Stage = OrderStage(e: Error) | EntryStage(e: Error) | CommitStage

  /** A committed withdrawal: the new order, the entry, and the tables. */
  datatype Withdrawn = Withdrawn(order: Order, entry: Entry, tx: Tables)

  /** The withdrawal entry for an order just created: it takes the order's
      id, number and owner. */
  function WithdrawalEntry(o: Order, amount: int, now: int): (e: Entry)
    ensures e.kind == Withdrawal && e.user == o.owner && e.orderId == o.id
    ensures e.externalOrderId == o.externalId && e.amount == amount && e.createdAt == now
  {
    Entry(Withdrawal, o.owner, o.id, o.externalId, amount, now)
  }

  /** The shared transaction as one transition: the order insert, then the
      debit, then the commit. */
  function Withdraw(t: Tables, user: Uuid, number: string, amount: int, now: int, faults: set<DbStep>)
    : (r: Result<Withdrawn, Stage>)
    requires KeyedById(t.orders) && UniqueExternal(t.orders)
  {
    match OrderRepository.TxCreate(t, number, user, now, faults)
    case Failure(e) => Failure(OrderStage(e))
    case Success(c) =>
      var m := WithdrawalEntry(c.order, amount, now);
      match TransactionRepository.PostEntry(c.tx, m, faults)
      case Failure(e) => Failure(EntryStage(e))
      case Success(t2) => if Commit in faults then Failure(CommitStage) else Success(Withdrawn(c.order, m, t2))
  }

  /** The response to an order-creation failure. */
  function OrderErrorCode(e: Error): (c: Code)
    ensures c == Unprocessable422 <==> e == InvalidInput
    ensures c != Unprocessable422 ==> c == Internal500
  {
    if e == InvalidInput then Unprocessable422 else Internal500
  }

  /** The response to a posting failure. */
  function EntryErrorCode(e: Error): (c: Code)
    ensures c == PaymentRequired402 <==> e == InsufficientFunds
    ensures c == Ok200 <==> e == SoftConflict
    ensures c == Conflict409 <==> e == Conflict
    ensures c == Unprocessable422 <==> e == InvalidInput
    ensures e !in {InsufficientFunds, SoftConflict, Conflict, InvalidInput} <==> c == Internal500
  {
    match e
    case InsufficientFunds => PaymentRequired402
    case SoftConflict => Ok200
    case Conflict => Conflict409
    case InvalidInput => Unprocessable422
    case _ => Internal500
  }

  function WithdrawalCode(r: Result<Withdrawn, Stage>): Code
  {
    match r
    case Success(_) => Ok200
    case Failure(OrderStage(e)) => OrderErrorCode(e)
    case Failure(EntryStage(e)) => EntryErrorCode(e)
    case Failure(CommitStage) => Internal500
  }

  /** `CreateWithdrawal`: authenticate, decode the body (`None` when that
      fails), then insert the order and post the debit in one transaction;
      any error rolls both back. A failure to begin the transaction is not
      checked by the handler and is not modelled. */
  method CreateWithdrawal(db: Database, caller: Option<User>, body: Option<WithdrawalRequest>,
                          now: int, faults: set<DbStep>)
    returns (code: Code, entry: Option<Entry>)
    requires db.Valid()
    modifies db
    ensures db.Valid()
    ensures caller.None? ==> code == Unauthorized401 && entry == None && db.Snapshot() == old(db.Snapshot())
    ensures caller.Some? && body.None? ==> code == BadRequest400 && entry == None && db.Snapshot() == old(db.Snapshot())
    ensures caller.Some? && body.Some? ==>
      var w := Withdraw(old(db.Snapshot()), caller.value.id, body.value.order, body.value.sum, now, faults);
      && code == WithdrawalCode(w)
      && (w.Success? ==> entry == Some(w.value.entry) && db.Snapshot() == w.value.tx)
      && (w.Failure? ==> entry == None && db.Snapshot() == old(db.Snapshot()))
  {
    if caller.None? {
      return Unauthorized401, None;
    }
    if body.None? {
      return BadRequest400, None;
    }
    var u := caller.value;
    var req := body.value;
    var tx := db.Snapshot();
    var om := OrderRepository.TxCreate(tx, req.order, u.id, now, faults);
    if om.Failure? {
      return OrderErrorCode(om.error), None;
    }
    OrderRepository.TxCreateKeepsConsistent(tx, req.order, u.id, now, faults);
    var m := WithdrawalEntry(om.value.order, req.sum, now);
    var posted := TransactionRepository.PostEntry(om.value.tx, m, faults);
    if posted.Failure? {
      return EntryErrorCode(posted.error), None;
    }
    if Commit in faults {
      return Internal500, None;
    }
    TransactionRepository.PostEntryKeepsConsistent(om.value.tx, m, faults);
    db.Commit(posted.value);
    code, entry := Ok200, Some(m);
  }

  /** A committed withdrawal inserts exactly one order for the number,
      appends exactly the entry built from it, lowers only the caller's
      balance, by the amount, and keeps the tables consistent. */
  lemma WithdrawEffect(t: Tables, user: Uuid, number: string, amount: int, now: int, faults: set<DbStep>)
    requires Consistent(t)
    requires Withdraw(t, user, number, amount, now, faults).Success?
    ensures var w := Withdraw(t, user, number, amount, now, faults).value;
      && w.order == Order(t.nextId, number, user, Registered, None, now)
      && w.order.id !in t.orders
      && w.tx.orders == t.orders[w.order.id := w.order]
      && w.entry == Entry(Withdrawal, user, w.order.id, number, amount, now)
      && w.tx.entries == t.entries + [w.entry]
      && user in t.balances && t.balances[user] >= amount
      && w.tx.balances == t.balances[user := t.balances[user] - amount]
      && Consistent(w.tx)
  {
    var c := OrderRepository.TxCreate(t, number, user, now, faults).value;
    OrderRepository.TxCreateKeepsConsistent(t, number, user, now, faults);
    TransactionRepository.PostEntryKeepsConsistent(c.tx, WithdrawalEntry(c.order, amount, now), faults);
  }

  /** A withdrawal never leaves a negative balance, whatever its sum. */
  lemma WithdrawNeverOverdraws(t: Tables, user: Uuid, number: string, amount: int, now: int, faults: set<DbStep>)
    requires Consistent(t)
    requires Withdraw(t, user, number, amount, now, faults).Success?
    ensures Withdraw(t, user, number, amount, now, faults).value.tx.balances[user] >= 0
  {
    WithdrawEffect(t, user, number, amount, now, faults);
  }

  /** The sum is read from the body with no check of its sign: a negative
      withdrawal is accepted and raises the caller's balance. */
  lemma NegativeWithdrawalCredits(t: Tables, user: Uuid, number: string, amount: int, now: int, faults: set<DbStep>)
    requires Consistent(t) && amount < 0
    requires Withdraw(t, user, number, amount, now, faults).Success?
    ensures Withdraw(t, user, number, amount, now, faults).value.tx.balances[user] > t.balances[user]
  {
    WithdrawEffect(t, user, number, amount, now, faults);
  }

  /** With a fresh valid number and no failing statement, the answer is 402
      exactly when the balance is short, and 200 otherwise. */
  lemma PaymentRequiredIffShort(t: Tables, user: Uuid, number: string, amount: int, now: int, faults: set<DbStep>)
    requires Consistent(t) && user in t.balances
    requires Luhn.Accepted(number) && !ExternalTaken(t.orders, number)
    requires OrderInsert !in faults && Lock !in faults && EntryInsert !in faults
    requires BalanceUpdate !in faults && Commit !in faults
    ensures WithdrawalCode(Withdraw(t, user, number, amount, now, faults)) == PaymentRequired402
        <==> t.balances[user] < amount
    ensures WithdrawalCode(Withdraw(t, user, number, amount, now, faults)) == Ok200
        <==> t.balances[user] >= amount
  {
    OrderRepository.TxCreateInserts(t, number, user, now, faults);
  }

  /** Two withdrawals in a row: the first fits the balance and leaves the
      difference; the second exceeds what is left and is refused with 402,
      leaving the balance where the first one put it. */
  lemma SecondWithdrawalRefused(t: Tables, user: Uuid, n1: string, n2: string, a1: int, a2: int,
                                now: int, faults: set<DbStep>)
    requires Consistent(t) && user in t.balances
    requires Luhn.Accepted(n1) && Luhn.Accepted(n2) && n1 != n2
    requires !ExternalTaken(t.orders, n1) && !ExternalTaken(t.orders, n2)
    requires OrderInsert !in faults && Lock !in faults && EntryInsert !in faults
    requires BalanceUpdate !in faults && Commit !in faults
    requires 0 <= a1 <= t.balances[user] < a1 + a2
    ensures var w1 := Withdraw(t, user, n1, a1, now, faults);
      && w1.Success?
      && w1.value.tx.balances[user] == t.balances[user] - a1
      && Consistent(w1.value.tx)
      && Withdraw(w1.value.tx, user, n2, a2, now, faults) == Failure(EntryStage(InsufficientFunds))
      && WithdrawalCode(Withdraw(w1.value.tx, user, n2, a2, now, faults)) == PaymentRequired402
  {
    OrderRepository.TxCreateInserts(t, n1, user, now, faults);
    var w1 := Withdraw(t, user, n1, a1, now, faults);
    WithdrawEffect(t, user, n1, a1, now, faults);
    var t1 := w1.value.tx;
    assert !ExternalTaken(t1.orders, n2) by {
      forall k | k in t1.orders ensures t1.orders[k].externalId != n2 {
        if k != w1.value.order.id {
          assert t1.orders[k] == t.orders[k];
        }
      }
    }
    OrderRepository.TxCreateInserts(t1, n2, user, now, faults);
  }

  // ---------------------------------------------------------------------
  // Balance

  datatype BalanceView = BalanceView(current: int, withdrawn: int)

  datatype BalanceReply = BalanceReply(code: Code, view: Option<BalanceView>)

  /** `Balance`: the caller's balance as carried by the authenticated user,
      and the sum of their withdrawals. */
  function Balance(t: Tables, caller: Option<User>, faults: set<DbStep>): (r: BalanceReply)
    ensures r.code == Unauthorized401 <==> caller.None?
    ensures r.code == Internal500 <==> caller.Some? && Query in faults
    ensures r.view.Some? <==> r.code == Ok200
    ensures r.view.Some? ==> r.view.value.current == caller.value.balance
    ensures r.view.Some? ==> r.view.value.withdrawn == SumOfKind(t.entries, caller.value.id, Withdrawal)
  {
    if caller.None? then BalanceReply(Unauthorized401, None)
    else match TransactionRepository.GetWithdrawalSum(t, caller.value.id, faults)
      case Failure(_) => BalanceReply(Internal500, None)
      case Success(sum) => BalanceReply(Ok200, Some(BalanceView(caller.value.balance, sum)))
  }

  /** When the caller carries their stored balance, the summary agrees with
      the ledger: the current balance is what it implies, and current plus
      withdrawn is everything ever credited. */
  lemma BalanceAgreesWithLedger(t: Tables, u: User, faults: set<DbStep>)
    requires Consistent(t) && u.id in t.balances && u.balance == t.balances[u.id]
    requires Query !in faults
    ensures var r := Balance(t, Some(u), faults);
      && r.code == Ok200
      && r.view.value.current == LedgerBalance(t.entries, u.id)
      && r.view.value.withdrawn == SumOfKind(t.entries, u.id, Withdrawal)
      && r.view.value.current + r.view.value.withdrawn == SumOfKind(t.entries, u.id, Replenishment)
  {
    LedgerBalanceIsDifference(t.entries, u.id);
  }
}
