/** `TransactionRepository`: posting one ledger entry against a locked
    balance, and the aggregate queries over the ledger. */
module TransactionRepository {
  import opened Model
  import opened Store
  import Luhn

  // ---------------------------------------------------------------------
  // Posting an entry

  /** What the balance update adds as written (`balance=balance+$1`): the
      entry's amount, whatever its type. */
  function BalanceDeltaAsWritten(e: Entry): (d: int)
    ensures d == e.amount
  {
    e.amount
  }

  /** The checks and writes of `Create` between the lock and the commit, on
      the transaction's copy `t`; also the contract of the in-transaction
      `TxCreate` the withdrawal handler calls. The balance moves by
      `SignedAmount`, so that a withdrawal debits. */
  function PostEntry(t: Tables, m: Entry, faults: set<DbStep>): (r: Result<Tables, Error>)
  {
    if !Luhn.Accepted(m.externalOrderId) then Failure(InvalidInput)
    else if m.user !in t.balances then Failure(NoRows)
    else if Lock in faults then Failure(DbFailure(Lock))
    else if t.balances[m.user] < m.amount then Failure(InsufficientFunds)
    else if EntryInsert in faults then Failure(DbFailure(EntryInsert))
    else if BalanceUpdate in faults then Failure(DbFailure(BalanceUpdate))
    else
      Success(t.(entries := t.entries + [m],
                 balances := t.balances[m.user := t.balances[m.user] + SignedAmount(m)]))
  }

  /** An invalid number, an unknown user or a short balance is refused, and
      a debit is refused exactly when the balance is below the amount. */
  lemma PostEntryRefusals(t: Tables, m: Entry, faults: set<DbStep>)
    ensures !Luhn.Accepted(m.externalOrderId) ==> PostEntry(t, m, faults) == Failure(InvalidInput)
    ensures Luhn.Accepted(m.externalOrderId) && m.user !in t.balances ==> PostEntry(t, m, faults) == Failure(NoRows)
    ensures Luhn.Accepted(m.externalOrderId) && m.user in t.balances && Lock !in faults ==>
      (PostEntry(t, m, faults) == Failure(InsufficientFunds) <==> t.balances[m.user] < m.amount)
  {
  }

  /** A successful post appends exactly `m`, moves only `m.user`'s balance,
      by exactly the entry's signed amount, and leaves the orders alone. */
  lemma PostEntryEffect(t: Tables, m: Entry, faults: set<DbStep>)
    requires PostEntry(t, m, faults).Success?
    ensures var t' := PostEntry(t, m, faults).value;
      && t.balances[m.user] >= m.amount
      && t'.entries == t.entries + [m]
      && t'.orders == t.orders && t'.nextId == t.nextId
      && t'.balances.Keys == t.balances.Keys
      && t'.balances[m.user] - t.balances[m.user] == SignedAmount(m)
      && (forall u :: u in t.balances && u != m.user ==> t'.balances[u] == t.balances[u])
  {
  }

  /** A withdrawal never drives a balance below zero: it is accepted only
      when the balance covers it. Nothing checks the sign of the amount, so
      a negative withdrawal is accepted and credits the user. */
  lemma WithdrawalNeverOverdraws(t: Tables, m: Entry, faults: set<DbStep>)
    requires m.kind == Withdrawal
    requires PostEntry(t, m, faults).Success?
    ensures PostEntry(t, m, faults).value.balances[m.user] >= 0
  {
  }

  /** Posting keeps every balance equal to its ledger sum. */
  lemma PostEntryKeepsConsistent(t: Tables, m: Entry, faults: set<DbStep>)
    requires Consistent(t)
    requires PostEntry(t, m, faults).Success?
    ensures Consistent(PostEntry(t, m, faults).value)
  {
    var t' := PostEntry(t, m, faults).value;
    forall u | u in t'.balances ensures t'.balances[u] == LedgerBalance(t'.entries, u) {
      SumsAppend(t.entries, m, u);
    }
  }

  /** As written, a withdrawal of 60.00 against a balance of 100.00 is
      accepted and leaves a stored balance of 160.00, while the ledger it
      leaves implies 40.00. */
  lemma WithdrawalRaisesBalanceAsWritten()
    ensures var e := Entry(Replenishment, 1, 3, "79927398713", 10000, 0);
      var m := Entry(Withdrawal, 1, 2, "79927398713", 6000, 0);
      var r := PostEntryAsWritten(Tables(map[], [e], map[1 := 10000], 4), m, {});
      && r.Success?
      && r.value.balances[1] == 16000
      && LedgerBalance(r.value.entries, 1) == 4000
  {
    var e := Entry(Replenishment, 1, 3, "79927398713", 10000, 0);
    var m := Entry(Withdrawal, 1, 2, "79927398713", 6000, 0);
    var t := Tables(map[], [e], map[1 := 10000], 4);
    Luhn.SampleNumberAccepted();
    assert Luhn.Accepted(m.externalOrderId);
    assert t.entries + [m] == [e, m];
    assert PostEntry(t, m, {}).Success?;
    assert [e, m][..1] == [e];
    assert [e][..0] == [];
    assert LedgerBalance([e], 1) == 10000;
    assert LedgerBalance([e, m], 1) == 4000;
  }

  /** `PostEntry` with the balance update as written: every entry adds its
      amount. The checks and the ledger append are the same. */
  function PostEntryAsWritten(t: Tables, m: Entry, faults: set<DbStep>): (r: Result<Tables, Error>)
  {
    match PostEntry(t, m, faults)
    case Failure(e) => Failure(e)
    case Success(t') =>
      Success(t'.(balances := t.balances[m.user := t.balances[m.user] + BalanceDeltaAsWritten(m)]))
  }

  /** As written, every accepted withdrawal of a non-zero amount breaks the
      invariant that a balance equals its ledger sum: the stored balance
      ends `2 * amount` above what the ledger implies. */
  lemma PostEntryAsWrittenBreaksConsistency(t: Tables, m: Entry, faults: set<DbStep>)
    requires Consistent(t)
    requires m.kind == Withdrawal && m.amount != 0
    requires PostEntryAsWritten(t, m, faults).Success?
    ensures var t' := PostEntryAsWritten(t, m, faults).value;
      && m.user in t'.balances
      && t'.balances[m.user] == LedgerBalance(t'.entries, m.user) + 2 * m.amount
      && !Consistent(t')
  {
    assert PostEntry(t, m, faults).Success?;
    var posted := PostEntry(t, m, faults).value;
    PostEntryEffect(t, m, faults);
    var before := t.balances[m.user];
    var t' := posted.(balances := t.balances[m.user := before + m.amount]);
    assert PostEntryAsWritten(t, m, faults) == Success(t');
    SumsAppend(t.entries, m, m.user);
    assert LedgerBalance(t'.entries, m.user) == before - m.amount;
    assert t'.balances[m.user] == before + m.amount;
  }

  /** `Create`: validate, lock the user's balance, refuse a short balance,
      append the entry and move the balance, then commit. The balance moves
      by `SignedAmount`, the corrected update (see `PostEntryAsWritten`). */
  method Create(db: Database, m: Entry, now: int, faults: set<DbStep>) returns (r: Result<Entry, Error>)
    requires db.Valid()
    modifies db
    ensures db.Valid()
    ensures !Luhn.Accepted(m.externalOrderId) ==>
      r == Failure(InvalidInput) && db.Snapshot() == old(db.Snapshot())
    ensures Luhn.Accepted(m.externalOrderId) && Begin in faults ==>
      r == Failure(DbFailure(Begin)) && db.Snapshot() == old(db.Snapshot())
    ensures Luhn.Accepted(m.externalOrderId) && Begin !in faults ==>
      match PostEntry(old(db.Snapshot()), m.(createdAt := now), faults)
      case Failure(e) => r == Failure(e) && db.Snapshot() == old(db.Snapshot())
      case Success(t') =>
        if Commit in faults then r == Failure(DbFailure(Commit)) && db.Snapshot() == old(db.Snapshot())
        else r == Success(m.(createdAt := now)) && db.Snapshot() == t'
  {
    if !Luhn.Accepted(m.externalOrderId) {
      return Failure(InvalidInput);
    }
    var e := m.(createdAt := now);
    if Begin in faults {
      return Failure(DbFailure(Begin));
    }
    var tx := db.Snapshot();
    // SELECT balance FROM users WHERE id=$1 FOR UPDATE
    if e.user !in tx.balances {
      return Failure(NoRows);
    }
    if Lock in faults {
      return Failure(DbFailure(Lock));
    }
    var balance := tx.balances[e.user];
    if balance < e.amount {
      return Failure(InsufficientFunds);
    }
    // INSERT INTO transactions ...
    if EntryInsert in faults {
      return Failure(DbFailure(EntryInsert));
    }
    tx := tx.(entries := tx.entries + [e]);
    // UPDATE users SET balance=... WHERE id=$2
    if BalanceUpdate in faults {
      return Failure(DbFailure(BalanceUpdate));
    }
    tx := tx.(balances := tx.balances[e.user := balance + SignedAmount(e)]);
    if Commit in faults {
      return Failure(DbFailure(Commit));
    }
    PostEntryKeepsConsistent(old(db.Snapshot()), e, faults);
    db.Commit(tx);
    r := Success(e);
  }

  // ---------------------------------------------------------------------
  // Aggregates

  /** `GetReplenishmentSum`. */
  function GetReplenishmentSum(t: Tables, user: Uuid, faults: set<DbStep>): (r: Result<int, Error>)
    ensures r.Failure? <==> Query in faults
  {
    if Query in faults then Failure(DbFailure(Query)) else Success(SumOfKind(t.entries, user, Replenishment))
  }

  /** `GetWithdrawalSum`. */
  function GetWithdrawalSum(t: Tables, user: Uuid, faults: set<DbStep>): (r: Result<int, Error>)
    ensures r.Failure? <==> Query in faults
  {
    if Query in faults then Failure(DbFailure(Query)) else Success(SumOfKind(t.entries, user, Withdrawal))
  }

  /** A user with no entries of a type has sum 0 for it (`coalesce(..., 0)`). */
  lemma {:induction false} SumWithoutEntriesIsZero(entries: seq<Entry>, user: Uuid, kind: TxType)
    requires forall i :: 0 <= i < |entries| ==> !(entries[i].user == user && entries[i].kind == kind)
    ensures SumOfKind(entries, user, kind) == 0
  {
    if entries != [] {
      SumWithoutEntriesIsZero(entries[..|entries| - 1], user, kind);
    }
  }

  /** In a consistent state the two sums differ by exactly the stored balance. */
  lemma SumsMatchBalance(t: Tables, user: Uuid, faults: set<DbStep>)
    requires Consistent(t) && user in t.balances && Query !in faults
    ensures GetReplenishmentSum(t, user, faults).value - GetWithdrawalSum(t, user, faults).value
         == t.balances[user]
  {
    LedgerBalanceIsDifference(t.entries, user);
  }

  /** The user's withdrawals, newest (latest appended) first. */
  function NewestFirst(entries: seq<Entry>, user: Uuid): seq<Entry>
  {
    if entries == [] then []
    else
      var last := entries[|entries| - 1];
      (if last.user == user && last.kind == Withdrawal then [last] else [])
        + NewestFirst(entries[..|entries| - 1], user)
  }

  lemma {:induction false} NewestFirstMembers(entries: seq<Entry>, user: Uuid)
    ensures forall x :: x in NewestFirst(entries, user) <==> x in entries && x.user == user && x.kind == Withdrawal
  {
    if entries != [] {
      var n := |entries|;
      NewestFirstMembers(entries[..n - 1], user);
      assert entries == entries[..n - 1] + [entries[n - 1]];
    }
  }

  ghost predicate Chronological(entries: seq<Entry>) {
    forall i, j :: 0 <= i < j < |entries| ==> entries[i].createdAt <= entries[j].createdAt
  }

  ghost predicate Descending(w: seq<Entry>) {
    forall i, j :: 0 <= i < j < |w| ==> w[i].createdAt >= w[j].createdAt
  }

  /** When entries were appended in time order, the list is sorted newest
      first (`ORDER BY created_at DESC`). */
  lemma {:induction false} NewestFirstDescending(entries: seq<Entry>, user: Uuid)
    requires Chronological(entries)
    ensures Descending(NewestFirst(entries, user))
  {
    if entries != [] {
      var n := |entries|;
      var last := entries[n - 1];
      var rest := NewestFirst(entries[..n - 1], user);
      assert Chronological(entries[..n - 1]);
      NewestFirstDescending(entries[..n - 1], user);
      assert Descending(rest);
      NewestFirstMembers(entries[..n - 1], user);
      forall x | x in rest ensures x.createdAt <= last.createdAt {
        var k :| 0 <= k < n - 1 && entries[..n - 1][k] == x;
        assert entries[k] == x;
      }
      var w := NewestFirst(entries, user);
      if last.user == user && last.kind == Withdrawal {
        assert w == [last] + rest;
        forall i, j | 0 <= i < j < |w| ensures w[i].createdAt >= w[j].createdAt {
          assert w[j] == rest[j - 1];
          assert rest[j - 1] in rest;
          if i > 0 {
            assert w[i] == rest[i - 1];
            assert rest[i - 1].createdAt >= rest[j - 1].createdAt;
          } else {
            assert w[i] == last;
          }
        }
      } else {
        assert w == rest;
      }
    }
  }

  lemma NewestFirstStep(entries: seq<Entry>, user: Uuid, i: nat)
    requires i < |entries|
    ensures NewestFirst(entries[..i + 1], user)
         == (if entries[i].user == user && entries[i].kind == Withdrawal then [entries[i]] else [])
            + NewestFirst(entries[..i], user)
  {
    assert entries[..i + 1][..i] == entries[..i];
  }

  /** `GetWithdrawals` as written: in the filter `type_id=$1 && user_id=$2`
      PostgreSQL's `&&` binds tighter than `=`, so it reads
      `type_id = ($1 && user_id) = $2`; `=` does not associate, so the
      statement is a syntax error and the query always fails. */
  function GetWithdrawalsAsWritten(t: Tables, user: Uuid): (r: Result<seq<Entry>, Error>)
    ensures r == Failure(StatementRejected)
  {
    Failure(StatementRejected)
  }

  /** `GetWithdrawals` with the filter written with `AND`: the rows come
      newest first and are collected by the append loop. */
  method GetWithdrawals(db: Database, user: Uuid, faults: set<DbStep>) returns (r: Result<seq<Entry>, Error>)
    ensures r.Failure? <==> Query in faults
    ensures r.Success? ==> r.value == NewestFirst(db.entries, user)
  {
    if Query in faults {
      return Failure(DbFailure(Query));
    }
    var entries := db.entries;
    var res: seq<Entry> := [];
    var i := |entries|;
    assert entries[..i] == entries;
    while i > 0
      invariant 0 <= i <= |entries|
      invariant res + NewestFirst(entries[..i], user) == NewestFirst(entries, user)
    {
      i := i - 1;
      NewestFirstStep(entries, user, i);
      var e := entries[i];
      if e.user == user && e.kind == Withdrawal {
        assert (res + [e]) + NewestFirst(entries[..i], user) == res + NewestFirst(entries[..i + 1], user);
        res := res + [e];
      } else {
        assert NewestFirst(entries[..i + 1], user) == NewestFirst(entries[..i], user);
      }
    }
    assert entries[..0] == [];
    r := Success(res);
  }
}
