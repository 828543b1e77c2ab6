/** The order endpoints: submitting an order number, which starts its
    reconciliation, and listing the caller's orders. */
module OrderHandler {
  import opened Model
  import opened Store
  import OrderRepository
  import Luhn

  /** How a handler ends: with a response, or with a panic on a nil dereference. */
  datatype Reply = Respond(code: Code) | Crash

  /** The second lookup the conflict branch makes, by the submitted number,
      outside any transaction. */
  function ConflictLookup(t: Tables, externalId: string, faults: set<DbStep>): (r: Result<Order, Error>)
    requires KeyedById(t.orders) && UniqueExternal(t.orders)
    ensures Query in faults ==> r == Failure(DbFailure(Query))
    ensures Query !in faults ==> r == OrderRepository.ReadByExternalId(t, externalId)
  {
    if Query in faults then Failure(DbFailure(Query)) else OrderRepository.ReadByExternalId(t, externalId)
  }

  /** The response to a submission, from what `Create` answered and, for a
      hard conflict, from the lookup of the order holding the number. This
      is the intended handler: the lookup takes the number from the request
      body, and the two replies after a successful lookup do not touch the
      lookup's nil error (see `SubmissionReplyAsWritten` and
      `ConflictReplyAsWritten` for the handler as written). */
  function SubmissionCode(created: Result<Order, Error>, lookup: Result<Order, Error>, caller: Uuid): (c: Code)
    ensures c == Accepted202 <==> created.Success?
    ensures created == Failure(InvalidInput) <==> c == Unprocessable422
    ensures created == Failure(Conflict) ==>
      c == (if lookup.Failure? then Internal500 else if lookup.value.owner == caller then Ok200 else Conflict409)
    ensures created.Failure? && created.error !in {InvalidInput, Conflict} ==> c == Internal500
  {
    match created
    case Success(_) => Accepted202
    case Failure(InvalidInput) => Unprocessable422
    case Failure(Conflict) =>
      (match lookup
       case Failure(_) => Internal500
       case Success(existing) => if existing.owner == caller then Ok200 else Conflict409)
    case Failure(_) => Internal500
  }

  /** The handler as written: `Create` returns a nil order with its error,
      and the conflict branch reads the number from that nil order. */
  function SubmissionReplyAsWritten(created: Result<Order, Error>, caller: Uuid): (r: Reply)
    ensures created == Failure(Conflict) <==> r == Crash
  {
    match created
    case Failure(Conflict) => Crash
    case _ => Respond(SubmissionCode(created, Failure(NotFound), caller))
  }

  /** A hard conflict crashes the handler as written, where the intended
      handler answers 200, 409 or 500 after looking the number up. */
  lemma ConflictCrashesAsWritten(lookup: Result<Order, Error>, caller: Uuid)
    ensures SubmissionReplyAsWritten(Failure(Conflict), caller) == Crash
    ensures SubmissionCode(Failure(Conflict), lookup, caller) in {Ok200, Conflict409, Internal500}
  {
  }

  /** The conflict branch after the lookup, as written: the lookup declares
      a new `err`, which is nil once the lookup succeeded, and both replies
      that follow call `Error()` on it. Only a failed lookup gets an answer. */
  function ConflictReplyAsWritten(lookup: Result<Order, Error>): (r: Reply)
    ensures r == Crash <==> lookup.Success?
    ensures lookup.Failure? ==> r == Respond(Internal500)
  {
    match lookup
    case Failure(_) => Respond(Internal500)
    case Success(_) => Crash
  }

  /** Even with the number taken from the request body, a hard conflict whose
      lookup succeeds crashes as written, where the intended handler answers
      200 to the holder and 409 to anyone else. */
  lemma NilErrorCrashesAsWritten(existing: Order, caller: Uuid)
    ensures ConflictReplyAsWritten(Success(existing)) == Crash
    ensures SubmissionCode(Failure(Conflict), Success(existing), caller)
         == (if existing.owner == caller then Ok200 else Conflict409)
  {
  }

  /** `Create`: authenticate, read the body as the order number, create the
      order, and on success submit one reconciliation job for it. `body` is
      `None` when reading the request body fails; `job` is the order id of
      the submitted `FetchOrderDetails` job. */
  method Create(db: Database, caller: Option<User>, body: Option<string>, now: int, faults: set<DbStep>)
    returns (code: Code, job: Option<Uuid>)
    requires db.Valid()
    modifies db
    ensures db.Valid()
    ensures caller.None? ==> code == Unauthorized401 && job == None && db.Snapshot() == old(db.Snapshot())
    ensures caller.Some? && body.None? ==> code == BadRequest400 && job == None && db.Snapshot() == old(db.Snapshot())
    ensures caller.Some? && body.Some? ==>
      var t := old(db.Snapshot());
      var tr := OrderRepository.CreateTransition(t, body.value, caller.value.id, now, faults);
      && code == SubmissionCode(if tr.Success? then Success(tr.value.order) else Failure(tr.error),
                                ConflictLookup(t, body.value, faults), caller.value.id)
      && (tr.Success? ==> db.Snapshot() == tr.value.tx && job == Some(tr.value.order.id))
      && (tr.Failure? ==> db.Snapshot() == t && job == None)
  {
    if caller.None? {
      return Unauthorized401, None;
    }
    if body.None? {
      return BadRequest400, None;
    }
    var u := caller.value;
    var created := OrderRepository.Create(db, body.value, u.id, now, faults);
    job := None;
    if created.Success? {
      job := Some(created.value.id);
      code := Accepted202;
    } else if created.error == InvalidInput {
      code := Unprocessable422;
    } else if created.error == Conflict {
      var lookup := ConflictLookup(db.Snapshot(), body.value, faults);
      if lookup.Failure? {
        code := Internal500;
      } else if lookup.value.owner == u.id {
        code := Ok200;
      } else {
        code := Conflict409;
      }
    } else {
      code := Internal500;
    }
  }

  /** A valid unseen number is accepted (202), gets exactly one new row
      owned by the caller, and one job for that row. */
  lemma NewNumberAccepted(t: Tables, externalId: string, caller: Uuid, now: int, faults: set<DbStep>)
    requires Consistent(t)
    requires Luhn.Accepted(externalId) && !ExternalTaken(t.orders, externalId)
    requires Begin !in faults && OrderInsert !in faults && Commit !in faults
    ensures var tr := OrderRepository.CreateTransition(t, externalId, caller, now, faults);
      && tr.Success?
      && SubmissionCode(Success(tr.value.order), ConflictLookup(t, externalId, faults), caller) == Accepted202
      && tr.value.order.owner == caller && tr.value.order.externalId == externalId
      && tr.value.order.status == Registered
      && tr.value.tx.orders == t.orders[tr.value.order.id := tr.value.order]
      && tr.value.order.id !in t.orders
  {
    OrderRepository.TxCreateInserts(t, externalId, caller, now, faults);
  }

  /** Submitting a number that is already taken: another user's number
      answers 409; the caller's own number reaches `Create` as a soft
      conflict, which this handler does not single out, so it answers 500.
      No row is added either way. */
  lemma DuplicateSubmission(t: Tables, externalId: string, caller: Uuid, now: int, faults: set<DbStep>, k: Uuid)
    requires Consistent(t)
    requires Luhn.Accepted(externalId) && Begin !in faults && OrderInsert !in faults && Query !in faults
    requires k in t.orders && t.orders[k].externalId == externalId
    ensures var tr := OrderRepository.CreateTransition(t, externalId, caller, now, faults);
      && tr.Failure?
      && SubmissionCode(Failure(tr.error), ConflictLookup(t, externalId, faults), caller)
         == (if t.orders[k].owner == caller then Internal500 else Conflict409)
  {
    OrderRepository.TxCreateConflicts(t, externalId, caller, now, faults, k);
    var l := OrderRepository.ReadByExternalId(t, externalId);
    assert l.value.id == k;
  }

  /** `List`: 204 when the caller has no orders, 200 with them otherwise. */
  method List(db: Database, caller: Option<User>, faults: set<DbStep>) returns (code: Code, orders: seq<Order>)
    requires db.Valid()
    ensures caller.None? ==> code == Unauthorized401 && orders == []
    ensures caller.Some? && Query in faults ==> code == Internal500 && orders == []
    ensures caller.Some? && Query !in faults ==>
      && (code == NoContent204 <==> forall k :: k in db.orders ==> db.orders[k].owner != caller.value.id)
      && (code == NoContent204 || code == Ok200)
      && OrderRepository.SortedByCreation(orders)
      && (forall o :: o in orders <==> o.id in db.orders && db.orders[o.id] == o && o.owner == caller.value.id)
  {
    if caller.None? {
      return Unauthorized401, [];
    }
    var r := OrderRepository.AllByUserId(db, caller.value.id, faults);
    if r.Failure? {
      return Internal500, [];
    }
    orders := r.value;
    if |orders| == 0 {
      code := NoContent204;
    } else {
      code := Ok200;
      var o := orders[0];
      assert o.id in db.orders && db.orders[o.id].owner == caller.value.id;
    }
  }
}
