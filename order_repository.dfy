/** `OrderRepository`: order submission with conflict resolution, the two
    point lookups, and the per-user listing. */
module OrderRepository {
  import opened Model
  import opened Store
  import Luhn

  /** What a successful insert inside a transaction gives back: the order
      with its new id, and the transaction's copy of the tables. */
  datatype Created = Created(order: Order, tx: Tables)

  // ---------------------------------------------------------------------
  // Lookups

  /** `Read` as the lookup is meant to work: the row with that id, or
      `ErrNotFound`. */
  function Read(t: Tables, id: Uuid): (r: Result<Order, Error>)
    ensures r.Success? <==> id in t.orders
    ensures r.Success? ==> r.value == t.orders[id]
    ensures r.Failure? ==> r.error == NotFound
  {
    if id in t.orders then Success(t.orders[id]) else Failure(NotFound)
  }

  /** `Read` as written: the statement scans into `m.CreatedAt`, `m.UserID`,
      `m.Status` and `m.Accrual` by value, so the scan of an existing row
      fails; only a missing row gets its proper answer. */
  function ReadAsWritten(t: Tables, id: Uuid): (r: Result<Order, Error>)
    ensures r.Failure?
    ensures r.error == NotFound <==> id !in t.orders
  {
    if id in t.orders then Failure(ScanFailure) else Failure(NotFound)
  }

  /** As written, `Read` never returns an order: every row that the
      intended lookup finds ends in a scan error instead. */
  lemma ReadAsWrittenNeverFinds(t: Tables, id: Uuid)
    ensures Read(t, id).Success? <==> ReadAsWritten(t, id) == Failure(ScanFailure)
    ensures Read(t, id).Failure? ==> ReadAsWritten(t, id) == Read(t, id)
  {
  }

  /** `ReadByExternalID` as meant: the unique row with that external number. */
  function ReadByExternalId(t: Tables, externalId: string): (r: Result<Order, Error>)
    requires KeyedById(t.orders) && UniqueExternal(t.orders)
    ensures r.Success? <==> ExternalTaken(t.orders, externalId)
    ensures r.Success? ==> r.value.id in t.orders && t.orders[r.value.id] == r.value
    ensures r.Success? ==> r.value.externalId == externalId
    ensures r.Failure? ==> r.error == NotFound
  {
    if ExternalTaken(t.orders, externalId) then
      var k :| k in t.orders && t.orders[k].externalId == externalId;
      Success(t.orders[k])
    else
      Failure(NotFound)
  }

  /** `ReadByExternalID` as written: the same by-value scan as `Read`. */
  function ReadByExternalIdAsWritten(t: Tables, externalId: string): (r: Result<Order, Error>)
    ensures r.Failure?
    ensures r.error == NotFound <==> !ExternalTaken(t.orders, externalId)
  {
    if ExternalTaken(t.orders, externalId) then Failure(ScanFailure) else Failure(NotFound)
  }

  // ---------------------------------------------------------------------
  // Submission

  /** The error `TxCreate` returns once the insert hit the uniqueness
      constraint, from the answer of the lookup of the existing order. */
  function ConflictError(lookup: Result<Order, Error>, caller: Uuid): Error
  {
    match lookup
    case Failure(e) => e
    case Success(existing) => if existing.owner == caller then SoftConflict else Conflict
  }

  /** `TxCreate` inside an open transaction `t`: validate the number, insert
      the row (status REGISTERED, no accrual), and on a uniqueness violation
      look up who holds the number. */
  function TxCreate(t: Tables, externalId: string, caller: Uuid, now: int, faults: set<DbStep>)
    : (r: Result<Created, Error>)
    requires KeyedById(t.orders) && UniqueExternal(t.orders)
  {
    if !Luhn.Accepted(externalId) then Failure(InvalidInput)
    else if OrderInsert in faults then Failure(DbFailure(OrderInsert))
    else if ExternalTaken(t.orders, externalId) then
      Failure(ConflictError(ReadByExternalId(t, externalId), caller))
    else
      var o := Order(t.nextId, externalId, caller, Registered, None, now);
      Success(Created(o, t.(orders := t.orders[t.nextId := o], nextId := t.nextId + 1)))
  }

  /** An empty or non-Luhn number is refused before anything is written. */
  lemma TxCreateRejectsInvalid(t: Tables, externalId: string, caller: Uuid, now: int, faults: set<DbStep>)
    requires KeyedById(t.orders) && UniqueExternal(t.orders)
    ensures TxCreate(t, externalId, caller, now, faults) == Failure(InvalidInput) <==> !Luhn.Accepted(externalId)
  {
  }

  /** An unseen valid number inserts exactly one row, owned by the caller,
      under a fresh id; nothing else changes. */
  lemma TxCreateInserts(t: Tables, externalId: string, caller: Uuid, now: int, faults: set<DbStep>)
    requires Consistent(t)
    requires Luhn.Accepted(externalId) && OrderInsert !in faults
    requires !ExternalTaken(t.orders, externalId)
    ensures var r := TxCreate(t, externalId, caller, now, faults);
      && r.Success?
      && r.value.order == Order(t.nextId, externalId, caller, Registered, None, now)
      && t.nextId !in t.orders
      && r.value.tx.orders == t.orders[t.nextId := r.value.order]
      && r.value.tx.entries == t.entries
      && r.value.tx.balances == t.balances
      && Read(r.value.tx, r.value.order.id) == Success(r.value.order)
  {
  }

  /** A number already taken gives a soft conflict when the caller holds it
      and a hard conflict otherwise; either way no row is added. */
  lemma TxCreateConflicts(t: Tables, externalId: string, caller: Uuid, now: int, faults: set<DbStep>, k: Uuid)
    requires KeyedById(t.orders) && UniqueExternal(t.orders)
    requires Luhn.Accepted(externalId) && OrderInsert !in faults
    requires k in t.orders && t.orders[k].externalId == externalId
    ensures TxCreate(t, externalId, caller, now, faults)
         == Failure(if t.orders[k].owner == caller then SoftConflict else Conflict)
  {
    var r := ReadByExternalId(t, externalId);
    assert r.value.id == k;
  }

  /** As written, the lookup after a uniqueness violation always fails to
      scan, so `TxCreate` answers a scan error and never a conflict. */
  lemma DuplicateLookupAsWritten(t: Tables, externalId: string, caller: Uuid, k: Uuid)
    requires k in t.orders && t.orders[k].externalId == externalId
    ensures ConflictError(ReadByExternalIdAsWritten(t, externalId), caller) == ScanFailure
    ensures ConflictError(ReadByExternalIdAsWritten(t, externalId), caller) !in {SoftConflict, Conflict}
  {
  }

  /** A successful insert keeps the tables consistent; in particular the
      external number stays globally unique. */
  lemma TxCreateKeepsConsistent(t: Tables, externalId: string, caller: Uuid, now: int, faults: set<DbStep>)
    requires Consistent(t)
    requires TxCreate(t, externalId, caller, now, faults).Success?
    ensures Consistent(TxCreate(t, externalId, caller, now, faults).value.tx)
  {
    var c := TxCreate(t, externalId, caller, now, faults).value;
    assert !ExternalTaken(t.orders, externalId);
    assert t.nextId !in t.orders;
    forall a, b | a in c.tx.orders && b in c.tx.orders && c.tx.orders[a].externalId == c.tx.orders[b].externalId
      ensures a == b
    {
      if a != t.nextId && b != t.nextId {
        assert t.orders[a].externalId == t.orders[b].externalId;
      }
    }
  }

  /** `Create` as one transition: begin, `TxCreate`, commit; on any error
      the transaction is rolled back and nothing persists. */
  function CreateTransition(t: Tables, externalId: string, caller: Uuid, now: int, faults: set<DbStep>)
    : (r: Result<Created, Error>)
    requires KeyedById(t.orders) && UniqueExternal(t.orders)
    ensures r.Success? ==> Begin !in faults && Commit !in faults && TxCreate(t, externalId, caller, now, faults) == r
    ensures Begin !in faults && TxCreate(t, externalId, caller, now, faults).Failure? ==>
      r == TxCreate(t, externalId, caller, now, faults)
    ensures Begin !in faults && Commit !in faults && TxCreate(t, externalId, caller, now, faults).Success? ==>
      r == TxCreate(t, externalId, caller, now, faults)
    ensures Begin in faults ==> r == Failure(DbFailure(Begin))
    ensures Begin !in faults && Commit in faults && TxCreate(t, externalId, caller, now, faults).Success? ==>
      r == Failure(DbFailure(Commit))
  {
    if Begin in faults then Failure(DbFailure(Begin))
    else match TxCreate(t, externalId, caller, now, faults)
      case Failure(e) => Failure(e)
      case Success(c) => if Commit in faults then Failure(DbFailure(Commit)) else Success(c)
  }

  /** `Create`: `TxCreate` in its own transaction, committed only when it
      succeeds. */
  method Create(db: Database, externalId: string, caller: Uuid, now: int, faults: set<DbStep>)
    returns (r: Result<Order, Error>)
    requires db.Valid()
    modifies db
    ensures db.Valid()
    ensures match CreateTransition(old(db.Snapshot()), externalId, caller, now, faults)
      case Failure(e) => r == Failure(e) && db.Snapshot() == old(db.Snapshot())
      case Success(c) => r == Success(c.order) && db.Snapshot() == c.tx
  {
    if Begin in faults {
      return Failure(DbFailure(Begin));
    }
    var tx := db.Snapshot();
    var res := TxCreate(tx, externalId, caller, now, faults);
    if res.Failure? {
      return Failure(res.error);
    }
    if Commit in faults {
      return Failure(DbFailure(Commit));
    }
    TxCreateKeepsConsistent(tx, externalId, caller, now, faults);
    db.Commit(res.value.tx);
    r := Success(res.value.order);
  }

  // ---------------------------------------------------------------------
  // Listing

  ghost predicate SortedByCreation(s: seq<Order>) {
    forall i, j :: 0 <= i < j < |s| ==> s[i].createdAt <= s[j].createdAt
  }

  ghost predicate DistinctIds(s: seq<Order>) {
    forall i, j :: 0 <= i < j < |s| ==> s[i].id != s[j].id
  }

  /** Number of leading orders of `s` created no later than `time`: where an
      order created at `time` goes in a list sorted by creation. */
  function InsertionPoint(s: seq<Order>, time: int): (p: nat)
    ensures p <= |s|
    ensures forall i :: 0 <= i < p ==> s[i].createdAt <= time
    ensures p < |s| ==> s[p].createdAt > time
  {
    if s == [] || s[0].createdAt > time then 0 else 1 + InsertionPoint(s[1..], time)
  }

  /** The list with `o` inserted at position `p`. */
  function InsertAt(s: seq<Order>, o: Order, p: nat): (r: seq<Order>)
    requires p <= |s|
    ensures |r| == |s| + 1
    ensures forall i :: 0 <= i < |r| ==> r[i] == (if i < p then s[i] else if i == p then o else s[i - 1])
  {
    s[..p] + [o] + s[p..]
  }

  /** Inserting at the insertion point keeps the list sorted by creation. */
  lemma InsertKeepsSorted(s: seq<Order>, o: Order, p: nat)
    requires SortedByCreation(s)
    requires p == InsertionPoint(s, o.createdAt)
    ensures SortedByCreation(InsertAt(s, o, p))
  {
    var r := InsertAt(s, o, p);
    forall i, j | 0 <= i < j < |r| ensures r[i].createdAt <= r[j].createdAt {
      if j == p {
        assert r[i] == s[i];
      } else if i == p {
        assert r[j] == s[j - 1];
        assert s[p].createdAt <= s[j - 1].createdAt;
      } else {
        var i' := if i < p then i else i - 1;
        var j' := if j < p then j else j - 1;
        assert r[i] == s[i'] && r[j] == s[j'];
      }
    }
  }

  /** Inserting an order whose id is new keeps the ids distinct. */
  lemma InsertKeepsDistinct(s: seq<Order>, o: Order, p: nat)
    requires DistinctIds(s) && p <= |s|
    requires forall x :: x in s ==> x.id != o.id
    ensures DistinctIds(InsertAt(s, o, p))
  {
    var r := InsertAt(s, o, p);
    forall i, j | 0 <= i < j < |r| ensures r[i].id != r[j].id {
      if i == p {
        assert r[j] == s[j - 1];
      } else if j == p {
        assert r[i] == s[i];
      } else {
        var i' := if i < p then i else i - 1;
        var j' := if j < p then j else j - 1;
        assert r[i] == s[i'] && r[j] == s[j'];
      }
    }
  }

  /** The inserted list holds exactly the old elements and `o`. */
  lemma InsertMembers(s: seq<Order>, o: Order, p: nat)
    requires p <= |s|
    ensures forall x :: x in InsertAt(s, o, p) <==> x in s || x == o
  {
    var r := InsertAt(s, o, p);
    forall x | x in s ensures x in r {
      var i :| 0 <= i < |s| && s[i] == x;
      if i < p { assert r[i] == x; } else { assert r[i + 1] == x; }
    }
    assert r[p] == o;
  }

  /** `AllByUserID`: the caller's orders, each exactly once, sorted by
      creation time (`ORDER BY created_at`). */
  method AllByUserId(db: Database, caller: Uuid, faults: set<DbStep>) returns (r: Result<seq<Order>, Error>)
    requires db.Valid()
    ensures Query in faults <==> r.Failure?
    ensures r.Failure? ==> r.error == DbFailure(Query)
    ensures r.Success? ==>
      && SortedByCreation(r.value)
      && DistinctIds(r.value)
      && (forall o :: o in r.value ==> o.id in db.orders && db.orders[o.id] == o && o.owner == caller)
      && (forall k :: k in db.orders && db.orders[k].owner == caller ==> db.orders[k] in r.value)
  {
    if Query in faults {
      return Failure(DbFailure(Query));
    }
    var owned := set k | k in db.orders && db.orders[k].owner == caller;
    var remaining := owned;
    var res: seq<Order> := [];
    while remaining != {}
      invariant remaining <= owned
      invariant SortedByCreation(res) && DistinctIds(res)
      invariant forall x :: x in res ==> x.id in owned && x.id !in remaining && db.orders[x.id] == x
      invariant forall k :: k in owned && k !in remaining ==> db.orders[k] in res
      decreases remaining
    {
      var k :| k in remaining;
      var o := db.orders[k];
      var p := InsertionPoint(res, o.createdAt);
      InsertKeepsSorted(res, o, p);
      InsertKeepsDistinct(res, o, p);
      InsertMembers(res, o, p);
      res := InsertAt(res, o, p);
      remaining := remaining - {k};
    }
    r := Success(res);
  }
}
