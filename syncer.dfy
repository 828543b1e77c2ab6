/** The accrual synchroniser: the job that reconciles one order with the
    accrual service's answer and credits its owner, the job that selects
    the pending orders, and the retry loop every job runs under. */
module Syncer {
  import opened Model
  import opened Store

  // ---------------------------------------------------------------------
  // Reconciling one order

  /** The guard in front of the credit: the status changed, the new status
      is PROCESSED, and the service reported an accrual. */
  predicate CreditGuard(oldStatus: Status, newStatus: Status, accrual: Option<int>) {
    oldStatus != newStatus && newStatus == Processed && accrual.Some?
  }

  /** The replenishment entry a credit appends. */
  function CreditEntry(o: Order, id: Uuid, amount: int, now: int): (e: Entry)
    ensures e.kind == Replenishment && e.user == o.owner && e.orderId == id
    ensures e.externalOrderId == o.externalId && e.amount == amount && e.createdAt == now
  {
    Entry(Replenishment, o.owner, id, o.externalId, amount, now)
  }

  /** Appending a credit entry and raising its user's balance by it; an
      update of a user that has no row touches nothing. */
  function Credit(t: Tables, e: Entry): (t': Tables)
    ensures t'.entries == t.entries + [e]
    ensures t'.orders == t.orders && t'.nextId == t.nextId
    ensures e.user in t.balances ==> t'.balances == t.balances[e.user := t.balances[e.user] + e.amount]
    ensures e.user !in t.balances ==> t'.balances == t.balances
  {
    t.(entries := t.entries + [e],
       balances := if e.user in t.balances then t.balances[e.user := t.balances[e.user] + e.amount] else t.balances)
  }

  /** One run of the `FetchOrderDetails` job for order `id`, as one atomic
      transition: lock the row and read its old status, ask the service,
      overwrite status and accrual, credit the owner when the guard holds,
      commit. Any error drops the transaction's copy. */
  function Reconcile(t: Tables, id: Uuid, remote: Remote, now: int, faults: set<DbStep>)
    : (r: Result<Tables, Error>)
  {
    if Begin in faults then Failure(DbFailure(Begin))
    else if id !in t.orders then Failure(NoRows)
    else if Lock in faults then Failure(DbFailure(Lock))
    else if remote.RemoteErr? then Failure(RemoteFailure)
    else if OrderUpdate in faults then Failure(DbFailure(OrderUpdate))
    else
      var before := t.orders[id];
      var t1 := t.(orders := t.orders[id := before.(status := remote.status, accrual := remote.accrual)]);
      if !CreditGuard(before.status, remote.status, remote.accrual) then
        if Commit in faults then Failure(DbFailure(Commit)) else Success(t1)
      else if EntryInsert in faults then Failure(DbFailure(EntryInsert))
      else if BalanceUpdate in faults then Failure(DbFailure(BalanceUpdate))
      else if Commit in faults then Failure(DbFailure(Commit))
      else Success(Credit(t1, CreditEntry(before, id, remote.accrual.value, now)))
  }

  /** The nil-or-error one run of the job returns as intended: nil exactly
      when the run commits, otherwise the error that stopped it. */
  function JobError(t: Tables, id: Uuid, remote: Remote, now: int, faults: set<DbStep>): (err: Option<Error>)
    ensures err == None <==> Reconcile(t, id, remote, now, faults).Success?
    ensures err.Some? ==> Reconcile(t, id, remote, now, faults) == Failure(err.value)
  {
    match Reconcile(t, id, remote, now, faults)
    case Success(_) => None
    case Failure(e) => Some(e)
  }

  /** How one run of the job ends as written. When the request to the
      accrual service gets no response, the client's deferred
      `res.Body.Close()` dereferences the nil response and the run panics;
      the transaction is then rolled back by the context's `cancel`. Every
      other run returns `JobError`. */
  function JobOutcomeAsWritten(t: Tables, id: Uuid, remote: Remote, now: int, faults: set<DbStep>): (o: Outcome)
    ensures o == Panic <==> Begin !in faults && id in t.orders && Lock !in faults && remote == RemoteErr(true)
    ensures o.Returned? ==> o.err == JobError(t, id, remote, now, faults)
    ensures o == Panic ==> Reconcile(t, id, remote, now, faults).Failure?
  {
    var err := JobError(t, id, remote, now, faults);
    if err == Some(RemoteFailure) && remote == RemoteErr(true) then Panic else Returned(err)
  }

  /** The job `FetchOrderDetails(id)` against the live database, as
      intended: `err` is the run's `JobError`, `None` being a nil error. */
  method FetchOrderDetails(db: Database, id: Uuid, remote: Remote, now: int, faults: set<DbStep>)
    returns (err: Option<Error>)
    requires db.Valid()
    modifies db
    ensures db.Valid()
    ensures err == JobError(old(db.Snapshot()), id, remote, now, faults)
    ensures match Reconcile(old(db.Snapshot()), id, remote, now, faults)
      case Failure(e) => err == Some(e) && db.Snapshot() == old(db.Snapshot())
      case Success(t') => err == None && db.Snapshot() == t'
  {
    if Begin in faults {
      return Some(DbFailure(Begin));
    }
    var tx := db.Snapshot();
    // SELECT status, external_id, user_id FROM orders WHERE id=$1 FOR UPDATE
    if id !in tx.orders {
      return Some(NoRows);
    }
    if Lock in faults {
      return Some(DbFailure(Lock));
    }
    var before := tx.orders[id];
    if remote.RemoteErr? {
      // As written, `remote.transport` panics here (`JobOutcomeAsWritten`).
      return Some(RemoteFailure);
    }
    // UPDATE orders SET status=$1, accrual=$2 WHERE id=$3
    if OrderUpdate in faults {
      return Some(DbFailure(OrderUpdate));
    }
    tx := tx.(orders := tx.orders[id := before.(status := remote.status, accrual := remote.accrual)]);
    if CreditGuard(before.status, remote.status, remote.accrual) {
      var e := CreditEntry(before, id, remote.accrual.value, now);
      if EntryInsert in faults {
        return Some(DbFailure(EntryInsert));
      }
      tx := tx.(entries := tx.entries + [e]);
      if BalanceUpdate in faults {
        return Some(DbFailure(BalanceUpdate));
      }
      if e.user in tx.balances {
        tx := tx.(balances := tx.balances[e.user := tx.balances[e.user] + e.amount]);
      }
    }
    if Commit in faults {
      return Some(DbFailure(Commit));
    }
    ReconcileKeepsConsistent(old(db.Snapshot()), id, remote, now, faults);
    db.Commit(tx);
    err := None;
  }

  /** The order row after a successful run holds exactly the service's
      status and accrual, whatever they are. */
  lemma ReconcileOverwrites(t: Tables, id: Uuid, remote: Remote, now: int, faults: set<DbStep>)
    requires Reconcile(t, id, remote, now, faults).Success?
    ensures remote.RemoteOk? && id in t.orders
    ensures var t' := Reconcile(t, id, remote, now, faults).value;
      t'.orders == t.orders[id := t.orders[id].(status := remote.status, accrual := remote.accrual)]
  {
  }

  /** A ledger entry is appended exactly when the guard holds, and then it
      is the one replenishment of the accrual for the order's owner, whose
      balance alone rises by that amount. */
  lemma ReconcileCreditsIffGuard(t: Tables, id: Uuid, remote: Remote, now: int, faults: set<DbStep>)
    requires Reconcile(t, id, remote, now, faults).Success?
    ensures var t' := Reconcile(t, id, remote, now, faults).value;
      var before := t.orders[id];
      && (|t'.entries| != |t.entries| <==> CreditGuard(before.status, remote.status, remote.accrual))
      && (CreditGuard(before.status, remote.status, remote.accrual) ==>
            && t'.entries == t.entries + [Entry(Replenishment, before.owner, id, before.externalId, remote.accrual.value, now)]
            && (before.owner in t.balances ==>
                  t'.balances == t.balances[before.owner := t.balances[before.owner] + remote.accrual.value]))
      && (!CreditGuard(before.status, remote.status, remote.accrual) ==>
            t'.entries == t.entries && t'.balances == t.balances)
  {
  }

  /** An INVALID answer is stored on the order and touches neither the
      ledger nor any balance. */
  lemma InvalidHasNoLedgerEffect(t: Tables, id: Uuid, accrual: Option<int>, now: int, faults: set<DbStep>)
    requires Reconcile(t, id, RemoteOk(Invalid, accrual), now, faults).Success?
    ensures var t' := Reconcile(t, id, RemoteOk(Invalid, accrual), now, faults).value;
      && t'.orders[id].status == Invalid && t'.orders[id].accrual == accrual
      && t'.entries == t.entries && t'.balances == t.balances
  {
  }

  /** The error each early exit reports, and exactly when a run fails: a
      missing row, a remote error, or a failing statement that the run
      reaches (the ledger writes only when the guard holds). */
  lemma ReconcileErrors(t: Tables, id: Uuid, remote: Remote, now: int, faults: set<DbStep>)
    ensures Begin !in faults && id !in t.orders ==> Reconcile(t, id, remote, now, faults) == Failure(NoRows)
    ensures Begin !in faults && Lock !in faults && id in t.orders && remote.RemoteErr? ==>
      Reconcile(t, id, remote, now, faults) == Failure(RemoteFailure)
    ensures Reconcile(t, id, remote, now, faults).Failure? <==>
      || Begin in faults || id !in t.orders || Lock in faults || remote.RemoteErr?
      || OrderUpdate in faults || Commit in faults
      || (CreditGuard(t.orders[id].status, remote.status, remote.accrual)
            && (EntryInsert in faults || BalanceUpdate in faults))
  {
  }

  /** Only order `id` and its owner's balance can change. */
  lemma ReconcileFrame(t: Tables, id: Uuid, remote: Remote, now: int, faults: set<DbStep>)
    requires Reconcile(t, id, remote, now, faults).Success?
    ensures var t' := Reconcile(t, id, remote, now, faults).value;
      && t'.orders.Keys == t.orders.Keys
      && t'.nextId == t.nextId
      && (forall k :: k in t.orders && k != id ==> t'.orders[k] == t.orders[k])
      && t'.balances.Keys == t.balances.Keys
      && (forall u :: u in t.balances && u != t.orders[id].owner ==> t'.balances[u] == t.balances[u])
      && t.entries <= t'.entries
  {
  }

  /** Running the job again with the same answer after it committed changes
      nothing: the old status is re-read, so the guard is now false. */
  lemma ReconcileIdempotent(t: Tables, id: Uuid, remote: Remote, now: int, now2: int,
                            faults: set<DbStep>, faults2: set<DbStep>)
    requires Reconcile(t, id, remote, now, faults).Success?
    requires Reconcile(Reconcile(t, id, remote, now, faults).value, id, remote, now2, faults2).Success?
    ensures Reconcile(Reconcile(t, id, remote, now, faults).value, id, remote, now2, faults2)
         == Reconcile(t, id, remote, now, faults)
  {
    var t1 := Reconcile(t, id, remote, now, faults).value;
    var o1 := t1.orders[id];
    assert o1.(status := remote.status, accrual := remote.accrual) == o1;
    assert t1.orders[id := o1] == t1.orders;
  }

  /** A committed run keeps the tables consistent: rows keep their ids and
      numbers, and the credited balance follows its new ledger entry. */
  lemma ReconcileKeepsConsistent(t: Tables, id: Uuid, remote: Remote, now: int, faults: set<DbStep>)
    requires Consistent(t)
    requires Reconcile(t, id, remote, now, faults).Success?
    ensures Consistent(Reconcile(t, id, remote, now, faults).value)
  {
    var t' := Reconcile(t, id, remote, now, faults).value;
    var before := t.orders[id];
    forall a, b | a in t'.orders && b in t'.orders && t'.orders[a].externalId == t'.orders[b].externalId
      ensures a == b
    {
      assert t.orders[a].externalId == t'.orders[a].externalId;
      assert t.orders[b].externalId == t'.orders[b].externalId;
    }
    if CreditGuard(before.status, remote.status, remote.accrual) {
      var e := CreditEntry(before, id, remote.accrual.value, now);
      forall u | u in t'.balances ensures t'.balances[u] == LedgerBalance(t'.entries, u) {
        SumsAppend(t.entries, e, u);
      }
    }
  }

  // ---------------------------------------------------------------------
  // Repeated runs: at most one credit per order

  /** Number of replenishment entries that credit order `id`. */
  function CreditsFor(entries: seq<Entry>, id: Uuid): nat
  {
    if entries == [] then 0
    else
      var last := entries[|entries| - 1];
      CreditsFor(entries[..|entries| - 1], id) + (if last.kind == Replenishment && last.orderId == id then 1 else 0)
  }

  lemma CreditsForAppend(entries: seq<Entry>, e: Entry, id: Uuid)
    ensures CreditsFor(entries + [e], id)
         == CreditsFor(entries, id) + (if e.kind == Replenishment && e.orderId == id then 1 else 0)
  {
    assert (entries + [e])[..|entries|] == entries;
  }

  /** One run of the job as the syncer sees it: the service's answer, the
      time, and the statements that fail. */
  datatype Attempt = Attempt(remote: Remote, now: int, faults: set<DbStep>)

  /** The state after one run: the committed state, or the old one. */
  function Next(t: Tables, id: Uuid, a: Attempt): Tables
  {
    match Reconcile(t, id, a.remote, a.now, a.faults)
    case Success(t') => t'
    case Failure(_) => t
  }

  /** The state after a series of runs of the job for the same order. */
  function Run(t: Tables, id: Uuid, attempts: seq<Attempt>): Tables
    decreases |attempts|
  {
    if attempts == [] then t else Run(Next(t, id, attempts[0]), id, attempts[1..])
  }

  predicate ProcessedAnswer(r: Remote) {
    r.RemoteOk? && r.status == Processed
  }

  /** An answer that does not move an order away from PROCESSED. */
  predicate StaysProcessed(r: Remote) {
    r.RemoteErr? || r.status == Processed
  }

  /** PROCESSED is final at the service: once it has answered PROCESSED,
      every later answer is PROCESSED again or an error. */
  ghost predicate ProcessedIsFinal(attempts: seq<Attempt>) {
    forall i, j :: 0 <= i < j < |attempts| && ProcessedAnswer(attempts[i].remote) ==> StaysProcessed(attempts[j].remote)
  }

  /** One run adds at most one credit for the order, and only by moving it
      to PROCESSED on a PROCESSED answer; from PROCESSED, an answer that
      stays PROCESSED adds none. */
  lemma NextCredits(t: Tables, id: Uuid, a: Attempt)
    requires id in t.orders
    ensures id in Next(t, id, a).orders
    ensures CreditsFor(Next(t, id, a).entries, id) <= CreditsFor(t.entries, id) + 1
    ensures CreditsFor(Next(t, id, a).entries, id) > CreditsFor(t.entries, id) ==>
      ProcessedAnswer(a.remote) && Next(t, id, a).orders[id].status == Processed
    ensures t.orders[id].status == Processed && StaysProcessed(a.remote) ==>
      Next(t, id, a).entries == t.entries && Next(t, id, a).orders[id].status == Processed
  {
    var r := Reconcile(t, id, a.remote, a.now, a.faults);
    if r.Success? {
      var before := t.orders[id];
      if CreditGuard(before.status, a.remote.status, a.remote.accrual) {
        CreditsForAppend(t.entries, CreditEntry(before, id, a.remote.accrual.value, a.now), id);
      }
    }
  }

  /** From PROCESSED, answers that stay PROCESSED never credit again. */
  lemma {:induction false} NoCreditOnceProcessed(t: Tables, id: Uuid, attempts: seq<Attempt>)
    requires id in t.orders && t.orders[id].status == Processed
    requires forall i :: 0 <= i < |attempts| ==> StaysProcessed(attempts[i].remote)
    ensures CreditsFor(Run(t, id, attempts).entries, id) == CreditsFor(t.entries, id)
    decreases |attempts|
  {
    if attempts != [] {
      NextCredits(t, id, attempts[0]);
      NoCreditOnceProcessed(Next(t, id, attempts[0]), id, attempts[1..]);
    }
  }

  /** At most one credit per order: however many times the job runs, and
      whatever fails along the way, the order is credited at most once as
      long as PROCESSED is final at the service. */
  lemma {:induction false} AtMostOneCredit(t: Tables, id: Uuid, attempts: seq<Attempt>)
    requires id in t.orders
    requires ProcessedIsFinal(attempts)
    ensures CreditsFor(Run(t, id, attempts).entries, id) <= CreditsFor(t.entries, id) + 1
    decreases |attempts|
  {
    if attempts != [] {
      var t1 := Next(t, id, attempts[0]);
      NextCredits(t, id, attempts[0]);
      if CreditsFor(t1.entries, id) > CreditsFor(t.entries, id) {
        forall i | 0 <= i < |attempts[1..]| ensures StaysProcessed(attempts[1..][i].remote) {
          assert attempts[1..][i] == attempts[i + 1];
        }
        NoCreditOnceProcessed(t1, id, attempts[1..]);
      } else {
        assert ProcessedIsFinal(attempts[1..]) by {
          forall i, j | 0 <= i < j < |attempts[1..]| && ProcessedAnswer(attempts[1..][i].remote)
            ensures StaysProcessed(attempts[1..][j].remote)
          {
            assert attempts[1..][i] == attempts[i + 1] && attempts[1..][j] == attempts[j + 1];
          }
        }
        AtMostOneCredit(t1, id, attempts[1..]);
      }
    }
  }

  /** A failed run is invisible: a retry after it ends where a first
      successful run would have. */
  lemma RetryAfterFailure(t: Tables, id: Uuid, failed: Attempt, a: Attempt)
    requires Reconcile(t, id, failed.remote, failed.now, failed.faults).Failure?
    ensures Run(t, id, [failed, a]) == Next(t, id, a)
  {
    assert Next(t, id, failed) == t;
    assert [failed, a][1..] == [a];
    assert [a][1..] == [];
    assert Run(t, id, [failed, a]) == Run(t, id, [a]);
  }

  // ---------------------------------------------------------------------
  // Selecting the pending orders

  /** The statuses the selection query asks for. */
  predicate Pending(s: Status) {
    s == Registered || s == Processing
  }

  ghost function PendingIds(orders: map<Uuid, Order>): set<Uuid> {
    set k | k in orders && Pending(orders[k].status)
  }

  /** `FetchAll` as written: it scans each pending row's id, and submits a
      `FetchOrderDetails` job only when the scan FAILS, for the id held from
      the previous successful scan (the nil UUID before the first). The
      rows come in no particular order; `scanFails` are the rows whose scan
      fails. `submitted` are the jobs' order ids, in submission order. */
  method FetchAllAsWritten(db: Database, scanFails: set<Uuid>, faults: set<DbStep>)
    returns (err: Option<Error>, submitted: seq<Uuid>)
    ensures err.Some? <==> Begin in faults || Query in faults
    ensures err.Some? ==> submitted == []
    ensures |submitted| == |PendingIds(db.orders) * scanFails| || err.Some?
    ensures PendingIds(db.orders) * scanFails == {} ==> submitted == []
    ensures forall x :: x in submitted ==> x == NilUuid || x in PendingIds(db.orders) - scanFails
  {
    if Begin in faults {
      return Some(DbFailure(Begin)), [];
    }
    // SELECT id FROM orders WHERE status in ($1, $2)
    if Query in faults {
      return Some(DbFailure(Query)), [];
    }
    var orders := db.orders;
    var pending := set k | k in orders && Pending(orders[k].status);
    var allowed := (pending - scanFails) + {NilUuid};
    var id: Uuid := NilUuid;
    var seen: set<Uuid> := {};
    var failed: set<Uuid> := {};  // rows seen whose scan failed
    submitted := [];
    while seen != pending
      invariant seen <= pending
      invariant failed <= seen && failed <= scanFails
      invariant forall k :: k in seen && k in scanFails ==> k in failed
      invariant |submitted| == |failed|
      invariant id in allowed
      invariant forall x :: x in submitted ==> x in allowed
      decreases pending - seen
    {
      assert pending - seen != {};
      var row :| row in pending - seen;
      if row in scanFails {
        submitted := submitted + [id];
        failed := failed + {row};
      } else {
        id := row;
      }
      seen := seen + {row};
    }
    assert failed == pending * scanFails;
    err := None;
  }

  /** As written, a first row that fails to scan submits a job for the nil
      UUID. That id is never an order, so the job, once its transaction
      begins, stops at the lock with no rows and changes nothing. */
  lemma NilUuidIsNoOrder(t: Tables, remote: Remote, now: int, faults: set<DbStep>)
    requires Consistent(t)
    ensures NilUuid !in t.orders
    ensures Begin !in faults ==> Reconcile(t, NilUuid, remote, now, faults) == Failure(NoRows)
  {
  }

  /** `FetchAll` as intended: one `FetchOrderDetails` job for every pending
      row that scans, each once. */
  method FetchAll(db: Database, scanFails: set<Uuid>, faults: set<DbStep>)
    returns (err: Option<Error>, submitted: seq<Uuid>)
    ensures err.Some? <==> Begin in faults || Query in faults
    ensures err.Some? ==> submitted == []
    ensures err.None? ==> forall k :: k in submitted <==> k in PendingIds(db.orders) - scanFails
    ensures forall i, j :: 0 <= i < j < |submitted| ==> submitted[i] != submitted[j]
  {
    if Begin in faults {
      return Some(DbFailure(Begin)), [];
    }
    if Query in faults {
      return Some(DbFailure(Query)), [];
    }
    var pending := set k | k in db.orders && Pending(db.orders[k].status);
    var remaining := pending;
    submitted := [];
    while remaining != {}
      invariant remaining <= pending
      invariant forall k :: k in submitted <==> k in (pending - remaining) - scanFails
      invariant forall i, j :: 0 <= i < j < |submitted| ==> submitted[i] != submitted[j]
      decreases remaining
    {
      var row :| row in remaining;
      if row !in scanFails {
        assert row !in submitted;
        submitted := submitted + [row];
      }
      remaining := remaining - {row};
    }
    err := None;
  }

  // ---------------------------------------------------------------------
  // Retrying a job

  /** Each job runs at most this many times (`strategy.Limit(3)`). */
  const MaxAttempts: nat := 3

  /** How one run of a job ends: it returns an error or nil, or it panics. */
  datatype Outcome = Returned(err: Option<Error>) | Panic

  /** The attempt's result as written: the panic is recovered in a deferred
      function, and with an unnamed result the attempt returns nil. */
  function AttemptResultAsWritten(o: Outcome): (r: Option<Error>)
    ensures o.Returned? ==> r == o.err
    ensures o.Panic? ==> r == None
  {
    match o
    case Returned(e) => e
    case Panic => None
  }

  /** The attempt's result as intended: a panic is a failed attempt. */
  function AttemptResult(o: Outcome): (r: Option<Error>)
    ensures o.Returned? ==> r == o.err
    ensures r == None <==> o == Returned(None)
  {
    match o
    case Returned(e) => e
    case Panic => Some(Panicked)
  }

  /** Number of runs the retry loop makes over the results `results`: up to
      and including the first nil one, at most `MaxAttempts`. */
  function Runs(results: seq<Option<Error>>): (n: nat)
    requires |results| == MaxAttempts
    ensures 1 <= n <= MaxAttempts
    ensures forall i :: 0 <= i < n - 1 ==> results[i].Some?
    ensures results[n - 1].None? || n == MaxAttempts
  {
    if results[0].None? then 1 else if results[1].None? then 2 else 3
  }

  /** `retry.Retry` with `Limit(3)`: run the attempt until it returns nil
      or three runs are used up; the answer is the last run's result.
      The Fibonacci backoff only sleeps between runs and is not modelled. */
  method Retry(results: seq<Option<Error>>) returns (err: Option<Error>, runs: nat)
    requires |results| == MaxAttempts
    ensures runs == Runs(results)
    ensures err == results[runs - 1]
    ensures err == None <==> exists i :: 0 <= i < MaxAttempts && results[i] == None
  {
    runs := 0;
    err := Some(Panicked);
    while runs < MaxAttempts && (runs == 0 || err.Some?)
      invariant 0 <= runs <= MaxAttempts
      invariant runs > 0 ==> err == results[runs - 1]
      invariant forall i :: 0 <= i < runs - 1 ==> results[i].Some?
      invariant runs == 0 ==> err.Some?
    {
      err := results[runs];
      runs := runs + 1;
    }
  }

  /** As written, a run whose request to the accrual service gets no
      response panics, the recovered attempt returns nil, and the job is
      reported done after one run whatever the later runs would do; the
      transaction is rolled back, so the order stays as it was. */
  lemma TransportFailureNotRetried(t: Tables, id: Uuid, now: int, faults: set<DbStep>, later: seq<Outcome>)
    requires Begin !in faults && id in t.orders && Lock !in faults
    requires |later| == MaxAttempts - 1
    ensures JobOutcomeAsWritten(t, id, RemoteErr(true), now, faults) == Panic
    ensures Reconcile(t, id, RemoteErr(true), now, faults).Failure?
    ensures var results := [AttemptResultAsWritten(JobOutcomeAsWritten(t, id, RemoteErr(true), now, faults)),
                            AttemptResultAsWritten(later[0]), AttemptResultAsWritten(later[1])];
      Runs(results) == 1 && results[0] == None
  {
  }

  /** As intended, the same run fails with `RemoteFailure`, so the job is
      run again; when the later runs fail too, it is run three times and
      reported failed. */
  lemma TransportFailureRetried(t: Tables, id: Uuid, now: int, faults: set<DbStep>, later: seq<Option<Error>>)
    requires Begin !in faults && id in t.orders && Lock !in faults
    requires |later| == MaxAttempts - 1
    ensures JobError(t, id, RemoteErr(true), now, faults) == Some(RemoteFailure)
    ensures var results := [JobError(t, id, RemoteErr(true), now, faults)] + later;
      && Runs(results) >= 2
      && (later[0].Some? && later[1].Some? ==> Runs(results) == MaxAttempts && results[MaxAttempts - 1].Some?)
  {
  }

  /** As written, a job that panics on every run is run once and reported
      done; as intended it is run three times and reported failed. */
  lemma PanickingJob()
    ensures var o := [Panic, Panic, Panic];
      var asWritten := [AttemptResultAsWritten(o[0]), AttemptResultAsWritten(o[1]), AttemptResultAsWritten(o[2])];
      var intended := [AttemptResult(o[0]), AttemptResult(o[1]), AttemptResult(o[2])];
      && Runs(asWritten) == 1 && asWritten[0] == None
      && Runs(intended) == MaxAttempts && intended[MaxAttempts - 1] == Some(Panicked)
  {
  }
}
