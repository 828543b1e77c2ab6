/** The database the repositories share: the `orders` table, the
    append-only `transactions` table (the ledger) and the balance column of
    `users`. A database transaction reads a snapshot of these tables, works
    on that copy, and either commits it whole or drops it (rollback). */
module Store {
  import opened Model

  /** The three tables, plus the source of fresh order ids. */
  datatype Tables = Tables(
    orders: map<Uuid, Order>,
    entries: seq<Entry>,
    balances: map<Uuid, int>,
    nextId: Uuid)

  /** What an entry does to its user's balance in the intended design:
      a replenishment credits, a withdrawal debits. */
  function SignedAmount(e: Entry): (a: int)
    ensures e.kind == Replenishment ==> a == e.amount
    ensures e.kind == Withdrawal ==> a == -e.amount
  {
    if e.kind == Replenishment then e.amount else -e.amount
  }

  /** Sum of the amounts of `user`'s entries of the given type: what
      `SELECT coalesce(sum(amount), 0) ... WHERE type_id=$1 AND user_id=$2`
      returns. */
  function SumOfKind(entries: seq<Entry>, user: Uuid, kind: TxType): int
  {
    if entries == [] then 0
    else
      var last := entries[|entries| - 1];
      SumOfKind(entries[..|entries| - 1], user, kind)
        + (if last.user == user && last.kind == kind then last.amount else 0)
  }

  /** The balance the ledger implies for `user`. */
  function LedgerBalance(entries: seq<Entry>, user: Uuid): int
  {
    if entries == [] then 0
    else
      var last := entries[|entries| - 1];
      LedgerBalance(entries[..|entries| - 1], user) + (if last.user == user then SignedAmount(last) else 0)
  }

  /** The ledger balance is the replenishment sum minus the withdrawal sum. */
  lemma {:induction false} LedgerBalanceIsDifference(entries: seq<Entry>, user: Uuid)
    ensures LedgerBalance(entries, user)
         == SumOfKind(entries, user, Replenishment) - SumOfKind(entries, user, Withdrawal)
  {
    if entries != [] {
      LedgerBalanceIsDifference(entries[..|entries| - 1], user);
    }
  }

  /** Appending one entry changes each sum by that entry's share only. */
  lemma SumsAppend(entries: seq<Entry>, e: Entry, user: Uuid)
    ensures LedgerBalance(entries + [e], user)
         == LedgerBalance(entries, user) + (if e.user == user then SignedAmount(e) else 0)
    ensures forall kind :: (SumOfKind(entries + [e], user, kind)
      == SumOfKind(entries, user, kind) + (if e.user == user && e.kind == kind then e.amount else 0))
  {
    assert (entries + [e])[..|entries|] == entries;
  }

  /** The UNIQUE constraint on `orders.external_id`. */
  ghost predicate UniqueExternal(orders: map<Uuid, Order>) {
    forall a, b :: a in orders && b in orders && orders[a].externalId == orders[b].externalId ==> a == b
  }

  /** Every row is stored under its own id. */
  ghost predicate KeyedById(orders: map<Uuid, Order>) {
    forall k :: k in orders ==> orders[k].id == k
  }

  predicate ExternalTaken(orders: map<Uuid, Order>, externalId: string) {
    exists k | k in orders :: orders[k].externalId == externalId
  }

  /** The invariant every committed state keeps: rows are keyed by their
      ids, ids are below the next fresh one and never nil, external numbers
      are unique, and every user's balance equals what the ledger implies. */
  ghost predicate Consistent(t: Tables) {
    && NilUuid < t.nextId
    && KeyedById(t.orders)
    && (forall k :: k in t.orders ==> NilUuid < k < t.nextId)
    && UniqueExternal(t.orders)
    && (forall u :: u in t.balances ==> t.balances[u] == LedgerBalance(t.entries, u))
  }

  /** The live database. */
  class Database {
    var orders: map<Uuid, Order>
    var entries: seq<Entry>
    var balances: map<Uuid, int>
    var nextId: Uuid

    function Snapshot(): Tables
      reads this
    {
      Tables(orders, entries, balances, nextId)
    }

    ghost predicate Valid()
      reads this
    {
      Consistent(Snapshot())
    }

    /** A database with the given users, all at balance zero, and no orders
        and no ledger entries. */
    constructor (users: set<Uuid>)
      ensures Valid()
      ensures orders == map[] && entries == [] && nextId == NilUuid + 1
      ensures balances == map u | u in users :: 0
    {
      orders := map[];
      entries := [];
      balances := map u | u in users :: 0;
      nextId := NilUuid + 1;
    }

    /** `tx.Commit()`: the transaction's copy becomes the database. */
    method Commit(tx: Tables)
      modifies this
      ensures Snapshot() == tx
    {
      orders, entries, balances, nextId := tx.orders, tx.entries, tx.balances, tx.nextId;
    }
  }
}
