# Gophermart loyalty ledger — a Dafny model

Gophermart is a loyalty-points service. A user submits purchase order numbers. A
background synchroniser asks an external accrual service about each pending order.
When an order is first reported PROCESSED with an accrual, the owner's balance is
credited. A user can spend points by withdrawing a sum against a new order number,
and can ask for their balance.

This project models the core of that service:

- the synchroniser's jobs (`FetchOrderDetails`, `FetchAll`) and the retry loop they run under;
- the PostgreSQL order and transaction repositories;
- the order and withdrawal/balance HTTP handlers;
- the in-memory session store;
- the bearer-token authentication middleware.

The database is modelled as three tables: `orders`, the append-only ledger
`transactions`, and the balance column of `users`. A database transaction works on a
snapshot of these tables and either commits it whole or drops it. Each statement that
can fail for reasons outside the model is named by a `DbStep`. A call receives the set
of steps that fail on that call. The accrual service's answer, the token signer's and
parser's answers, the user repository's answers and which rows fail to scan are also
inputs.

Files, one module each:

- `model.dfy`: the entities and errors.
- `store.dfy`: the tables, the ledger sums, the consistency invariant and the live `Database` class.
- `luhn.dfy`: the Luhn check that order numbers must pass.
- `order_repository.dfy`, `transaction_repository.dfy`: the repositories.
- `syncer.dfy`: reconciliation, `FetchAll` and retry.
- `order_handler.dfy`, `transaction_handler.dfy`: the handlers.
- `session.dfy`: the session store, a class `Memory`.
- `middleware.dfy`: `Auth`, with a model of `strings.Split`.

The model's central invariant is `Store.Consistent`:

- rows are keyed by their ids;
- order numbers are unique;
- every stored balance equals the replenishments minus the withdrawals in the ledger.

Every committing operation is proved to keep it.

Where the code does not do what it evidently means to do, the model has both halves. A
member named `...AsWritten` shows the behaviour of the code as written. The corrected
member is the one the rest of the model uses. See "## Findings".

## Model

| member | source | states |
|---|---|---|
| Luhn.CheckDigitCompletes | internal/app/storage/postgres/order.go:60 | appending a digit to a digit string passes the Luhn check exactly when that digit is the computed check digit |
| Luhn.SingleDigitErrorDetected | internal/app/storage/postgres/order.go:60 | changing any one digit of an accepted number makes it fail the Luhn check |
| Luhn.DoubledWeightIsDigitSum | internal/app/storage/postgres/order.go:60 | a doubled digit contributes the sum of the decimal digits of its double |
| Luhn.SampleNumberAccepted | internal/app/storage/postgres/transaction.go:110 | the sample number 79927398713 is a non-empty Luhn-valid number |
| Store.LedgerBalanceIsDifference | internal/app/storage/postgres/transaction.go:25-63 | the balance the ledger implies is the replenishment sum minus the withdrawal sum |
| Store.Database.Commit | internal/app/storage/postgres/order.go:51-53 | committing makes the transaction's copy the database state |
| OrderRepository.Read | internal/app/storage/postgres/order.go:92-109 | the row with that id when present, otherwise ErrNotFound |
| OrderRepository.ReadAsWritten | internal/app/storage/postgres/order.go:100-106 | as written the scan of an existing row always fails; only a missing row answers ErrNotFound |
| OrderRepository.ReadAsWrittenNeverFinds | internal/app/storage/postgres/order.go:92-109 | as written `Read` fails to scan exactly the rows the intended lookup finds, and agrees with it on a missing row |
| OrderRepository.ReadByExternalId | internal/app/storage/postgres/order.go:112-129 | the unique row with that number when some row holds it, otherwise ErrNotFound |
| OrderRepository.ReadByExternalIdAsWritten | internal/app/storage/postgres/order.go:120-126 | as written the scan of an existing row always fails; only an unknown number answers ErrNotFound |
| OrderRepository.TxCreateRejectsInvalid | internal/app/storage/postgres/order.go:60-62 | TxCreate answers ErrInvalidInput exactly for an empty or non-Luhn number |
| OrderRepository.TxCreateInserts | internal/app/storage/postgres/order.go:64-70 | an unseen valid number inserts exactly one REGISTERED row owned by the caller under a fresh id; entries and balances are untouched; Read then finds the row |
| OrderRepository.TxCreateConflicts | internal/app/storage/postgres/order.go:71-82 | a number already taken gives ErrSoftConflict when the caller holds it and ErrConflict otherwise |
| OrderRepository.DuplicateLookupAsWritten | internal/app/storage/postgres/order.go:74-77 | as written the lookup after a uniqueness violation fails to scan, so TxCreate never answers a conflict |
| OrderRepository.TxCreateKeepsConsistent | internal/app/storage/postgres/order.go:64-88 | a successful insert keeps the tables consistent, in particular numbers stay unique |
| OrderRepository.CreateTransition | internal/app/storage/postgres/order.go:37-56 | it succeeds exactly when begin, TxCreate and commit all succeed, with TxCreate's answer; a begin or commit failure answers that step's error; a TxCreate error passes through unchanged |
| OrderRepository.Create | internal/app/storage/postgres/order.go:37-56 | the result and new state follow CreateTransition; on any error the database is unchanged; consistency is kept |
| OrderRepository.AllByUserId | internal/app/storage/postgres/order.go:153-187 | exactly the caller's orders, each once, sorted by creation time; a query failure is an error |
| TransactionRepository.PostEntryAsWrittenBreaksConsistency | internal/app/storage/postgres/transaction.go:152-153 | as written every accepted non-zero withdrawal leaves the stored balance twice the amount above what the ledger implies, so the tables are no longer consistent |
| TransactionRepository.WithdrawalRaisesBalanceAsWritten | internal/app/storage/postgres/transaction.go:152-153 | as written, posting a withdrawal of 60.00 against a stored balance of 100.00 is accepted and leaves a stored balance of 160.00, while the ledger it leaves implies 40.00 |
| TransactionRepository.PostEntryRefusals | internal/app/storage/postgres/transaction.go:110-142 | an invalid number answers ErrInvalidInput, an unknown user no rows, and a debit is refused with ErrInsufficientFunds exactly when the balance is below the amount |
| TransactionRepository.PostEntryEffect | internal/app/storage/postgres/transaction.go:144-158 | a successful post appends exactly the entry and moves only its user's balance, by its signed amount; orders are untouched |
| TransactionRepository.WithdrawalNeverOverdraws | internal/app/storage/postgres/transaction.go:137-142 | an accepted withdrawal of any sum never leaves a negative balance |
| TransactionRepository.PostEntryKeepsConsistent | internal/app/storage/postgres/transaction.go:144-158 | posting keeps every balance equal to its ledger sum |
| TransactionRepository.Create | internal/app/storage/postgres/transaction.go:103-169 | validation, begin, lock, funds check, insert, balance update and commit, in that order; on any error the database is unchanged; the balance step is the corrected one (a withdrawal debits), see Findings |
| TransactionRepository.GetReplenishmentSum | internal/app/storage/postgres/transaction.go:25-42 | fails exactly when the query fails; its value is related to the balance by SumsMatchBalance |
| TransactionRepository.GetWithdrawalSum | internal/app/storage/postgres/transaction.go:44-63 | fails exactly when the query fails; its value is related to the balance by SumsMatchBalance |
| TransactionRepository.SumWithoutEntriesIsZero | internal/app/storage/postgres/transaction.go:27 | a user with no entries of a type sums to 0 for it (`coalesce`) |
| TransactionRepository.SumsMatchBalance | internal/app/storage/postgres/transaction.go:25-63 | in a consistent state the replenishment sum minus the withdrawal sum is the stored balance |
| TransactionRepository.NewestFirstMembers | internal/app/storage/postgres/transaction.go:68-72 | the listing holds exactly the user's withdrawal entries |
| TransactionRepository.NewestFirstDescending | internal/app/storage/postgres/transaction.go:72 | when entries were appended in time order, the listing is newest first |
| TransactionRepository.GetWithdrawals | internal/app/storage/postgres/transaction.go:65-93 | fails exactly on a query failure; otherwise the loop collects exactly the user's withdrawals, newest first |
| Syncer.JobError | internal/app/service/syncer/service.go:150-233 | a run of the job returns nil exactly when it commits, and otherwise the error that stopped it |
| Syncer.JobOutcomeAsWritten | pkg/accrual/service.go:84-90 | as written a run panics exactly when it reaches the accrual call and the request gets no response; the panicking run commits nothing; every other run returns JobError |
| Syncer.FetchOrderDetails | internal/app/service/syncer/service.go:150-233 | the error returned is JobError's; the new state follows Reconcile; on any error the database is unchanged; consistency is kept |
| Syncer.ReconcileOverwrites | internal/app/service/syncer/service.go:195-201 | after a successful run the order row holds exactly the service's status and accrual |
| Syncer.ReconcileCreditsIffGuard | internal/app/service/syncer/service.go:203-220 | one replenishment is appended and the balance raised by the accrual exactly when the status changed to PROCESSED with an accrual; otherwise entries and balances are unchanged |
| Syncer.InvalidHasNoLedgerEffect | internal/app/service/syncer/service.go:203 | an INVALID answer never touches the ledger or the balances |
| Syncer.ReconcileErrors | internal/app/service/syncer/service.go:161-201 | a missing row answers no rows, a remote error is passed on, and a run fails exactly when the row is missing, the service errs, or a statement it reaches fails (the ledger writes only under the credit guard) |
| Syncer.ReconcileFrame | internal/app/service/syncer/service.go:150-233 | a successful run changes only that order's row, that owner's balance and the end of the ledger |
| Syncer.ReconcileIdempotent | internal/app/service/syncer/service.go:203 | running again with the same answer changes nothing more, so a repeated PROCESSED answer credits once |
| Syncer.ReconcileKeepsConsistent | internal/app/service/syncer/service.go:203-220 | a successful run keeps the tables consistent |
| Syncer.CreditsForAppend | internal/app/service/syncer/service.go:205-206 | appending an entry adds one credit for an order exactly when it is a replenishment for that order |
| Syncer.NextCredits | internal/app/service/syncer/service.go:203-220 | one run adds at most one credit for the order, and none when the order is already PROCESSED and stays so |
| Syncer.NoCreditOnceProcessed | internal/app/service/syncer/service.go:203 | once PROCESSED, any number of further runs that keep it PROCESSED add no credit |
| Syncer.AtMostOneCredit | internal/app/service/syncer/service.go:203-220 | over any sequence of runs in which PROCESSED is final, an order is credited at most once |
| Syncer.RetryAfterFailure | internal/app/service/syncer/service.go:187-191 | a failed run leaves no trace, so retrying is the same as running once |
| Syncer.FetchAllAsWritten | internal/app/service/syncer/service.go:235-284 | as written a job is submitted only for a row whose scan fails, so with no scan failure nothing is submitted, and any submitted id is nil or a pending order whose scan succeeded |
| Syncer.NilUuidIsNoOrder | internal/app/service/syncer/service.go:270-278 | the nil UUID that the as-written loop can submit names no order, so a job for it answers no rows and changes nothing |
| Syncer.FetchAll | internal/app/service/syncer/service.go:235-284 | fails exactly when begin or the query fails; otherwise submits one job for each pending order that scans, and for nothing else |
| Syncer.AttemptResult | internal/app/service/syncer/service.go:92-109 | an attempt succeeds exactly when the job returned nil |
| Syncer.Runs | internal/app/service/syncer/service.go:91-112 | the job runs until its first success, at most three times |
| Syncer.Retry | internal/app/service/syncer/service.go:91-112 | runs the attempts up to the first nil and returns the last error; nil exactly when some attempt of the three succeeds |
| Syncer.PanickingJob | internal/app/service/syncer/service.go:93-101 | a job that always panics counts as done after one attempt as written, and fails all three attempts as intended |
| Syncer.TransportFailureNotRetried | pkg/accrual/service.go:84-87 | as written, a run whose accrual request gets no response panics; the job is reported done after that one run, and nothing is committed |
| Syncer.TransportFailureRetried | internal/app/service/syncer/service.go:187-191 | as intended that run fails with the remote error, so the job runs again, and three times when the later runs fail too |
| OrderHandler.SubmissionCode | internal/app/handler/order.go:56-88 | the intended replies, with lines 65, 73 and 77 corrected (see Findings): 202 exactly on success; 422 exactly for invalid input; a hard conflict answers 200 for the caller's own order, 409 for another's, 500 when the lookup fails; every other error 500 |
| OrderHandler.SubmissionReplyAsWritten | internal/app/handler/order.go:49-65 | as written the handler crashes exactly on a hard conflict |
| OrderHandler.ConflictCrashesAsWritten | internal/app/handler/order.go:63-65 | a hard conflict crashes as written, while the intended handler answers 200, 409 or 500 |
| OrderHandler.ConflictReplyAsWritten | internal/app/handler/order.go:65-78 | as written the conflict branch crashes exactly when the lookup succeeds, because both replies call `Error()` on the lookup's nil error; a failed lookup answers 500 |
| OrderHandler.NilErrorCrashesAsWritten | internal/app/handler/order.go:71-77 | a successful lookup crashes as written, where the intended handler answers 200 to the holder and 409 to anyone else |
| OrderHandler.Create | internal/app/handler/order.go:30-89 | 401 without a user, 400 on a body failure; otherwise the code follows the corrected SubmissionCode (lines 65, 73 and 77 fixed), the state follows Create, and one reconciliation job is started exactly on success |
| OrderHandler.NewNumberAccepted | internal/app/handler/order.go:49-88 | a valid unseen number answers 202, adds exactly one REGISTERED row owned by the caller, and its job names that row |
| OrderHandler.DuplicateSubmission | internal/app/handler/order.go:56-83 | with the corrected conflict branch, another user's number answers 409 and the caller's own number answers 500; no row is added |
| OrderHandler.List | internal/app/handler/order.go:91-118 | 401 without a user, 500 on a query failure, 204 exactly when the caller has no orders, otherwise 200 with exactly the caller's orders sorted by creation |
| TransactionHandler.OrderErrorCode | internal/app/handler/transaction.go:117-128 | an order-creation error answers 422 exactly when it is invalid input, otherwise 500 |
| TransactionHandler.EntryErrorCode | internal/app/handler/transaction.go:139-168 | a posting error answers 402, 200, 409 or 422 exactly for insufficient funds, soft conflict, conflict and invalid input, and 500 for all others |
| TransactionHandler.CreateWithdrawal | internal/app/handler/transaction.go:83-178 | 401 without a user, 400 on a bad body; otherwise the code follows Withdraw, and the order and the debit commit together or not at all |
| TransactionHandler.WithdrawEffect | internal/app/handler/transaction.go:110-177 | a committed withdrawal adds exactly one order and one entry, lowers only the caller's balance by the sum, and keeps consistency |
| TransactionHandler.WithdrawNeverOverdraws | internal/app/handler/transaction.go:131-146 | a committed withdrawal of any sum never leaves a negative balance |
| TransactionHandler.NegativeWithdrawalCredits | internal/app/handler/transaction.go:95-104 | the sum's sign is never checked, so a committed negative withdrawal raises the caller's balance |
| TransactionHandler.PaymentRequiredIffShort | internal/app/handler/transaction.go:139-146 | with a fresh valid number and no failures, the answer is 402 exactly when the balance is short and 200 otherwise |
| TransactionHandler.SecondWithdrawalRefused | internal/app/handler/transaction.go:110-177 | after a withdrawal that fits, a second one exceeding the rest is refused with 402 |
| TransactionHandler.Balance | internal/app/handler/transaction.go:30-59 | 401 exactly without a user, 500 exactly on a query failure, otherwise 200 with the user's carried balance and, as withdrawn, the sum of the user's withdrawal entries |
| TransactionHandler.BalanceAgreesWithLedger | internal/app/handler/transaction.go:42-55 | when the user carries its stored balance, current is the ledger balance and current plus withdrawn is everything credited |
| Session.LifetimeDefaults | internal/app/session/memory.go:34-51 | without a lifetime option the lifetime is one hour; otherwise the last option wins |
| Session.Memory.constructor | internal/app/session/memory.go:34-51 | an empty store whose lifetime and issuer are what the options leave after the defaults |
| Session.Stored | internal/app/session/memory.go:90-94 | Create adds or replaces only the new id's session, which starts now and expires after the lifetime |
| Session.Memory.Create | internal/app/session/memory.go:60-97 | a signing failure stores nothing; otherwise the token is returned and the session stored |
| Session.ReadSessionAnswers | internal/app/session/memory.go:100-153 | the only error is an invalid token; a user is returned exactly for a valid token naming a live session of a known user, and it is that user |
| Session.ReadSessionPrunesOnlyExpired | internal/app/session/memory.go:126-141 | Read removes at most the named session, and only when it has expired |
| Session.CreateThenRead | internal/app/session/memory.go:60-153 | a new session authenticates its user until it expires, without changing the store |
| Session.CreateThenReadExpired | internal/app/session/memory.go:133-141 | after its lifetime a token the parser still accepts is refused and only its session is removed; the parser checks the same expiry, so this happens only within the second the token expires |
| Session.Memory.Read | internal/app/session/memory.go:100-153 | the answer and the new session map are those of ReadSession |
| Middleware.Split | internal/app/middleware/auth.go:19 | splitting always gives at least one piece |
| Middleware.SplitJoin | internal/app/middleware/auth.go:19 | joining the pieces with the separator gives the header back |
| Middleware.SplitCount | internal/app/middleware/auth.go:19-20 | there is one more piece than occurrences of the separator |
| Middleware.PiecesAreFree | internal/app/middleware/auth.go:19 | no piece contains the separator |
| Middleware.ExtractBearer | internal/app/middleware/auth.go:18-24 | a token is extracted exactly when "Bearer " occurs once, and it is the second piece |
| Middleware.TokenFollowsBearer | internal/app/middleware/auth.go:19-26 | an extracted token is what follows the only "Bearer " in the header |
| Middleware.BearerHeaderAccepted | internal/app/middleware/auth.go:18-26 | the header "Bearer <token>" yields the token when the token holds no "Bearer " |
| Middleware.RejectedHeaders | internal/app/middleware/auth.go:20-24 | a header with "Bearer " twice, or an empty one, is refused |
| Middleware.Auth | internal/app/middleware/auth.go:13-38 | every refusal is 401; the next handler runs exactly when a token is extracted and the reader accepts it, with the user it returns |
| Middleware.AuthWithBearerHeader | internal/app/middleware/auth.go:26-35 | a "Bearer <token>" request goes on exactly when the reader accepts the token |

## Left out

- Concurrency is not modelled: the worker pool, the jobs channel, the fetch timer, `Stop`,
  and the mutex in the session store. Each job and each request is one atomic step.
  Row locks and isolation levels are therefore implicit.
- Context timeouts, logging, and durations are not modelled. A timeout during a database
  statement is one of the statement failures in `DbStep`. A timeout during the accrual
  call is a transport failure, `RemoteErr(true)`.
- The worker exits after a job that failed all its attempts (service.go:113-116). That
  loop is outside the model.
- The accrual HTTP client's requests, its mock server and JSON decoding are not modelled.
  The answer is an input of type `Remote`, and only its four status values are modelled.
  `Remote` tells a request that got no response apart from an error response. The nil
  response's deferred `Body.Close` is modelled by `Syncer.JobOutcomeAsWritten` (see
  Findings).
- `Syncer.FetchOrderDetails` and `Syncer.Retry` model the job as intended: a transport
  failure returns the remote error and is retried. The as-written panic on that path is
  stated separately, by `Syncer.JobOutcomeAsWritten` and `Syncer.TransportFailureNotRetried`.
- The Luhn check comes from an external library that is not part of this model. It is
  modelled by the Luhn (mod 10) algorithm of ISO/IEC 7812-1, Annex B.
- Decimal amounts are integers in minor units. Decimal formatting and JSON encoding are
  not modelled.
- `jwt.ParseWithClaims` and `SignedString` are not modelled. `Session.Memory.Read` is
  given the parser's answer, including whether it judged the token valid; the parser's
  own expiry check is part of that answer. The token's `exp` claim is the session's
  expiry rounded down to whole seconds. Assuming the parser refuses a token once that
  claim has passed, the store removes an expired session only when a read falls
  within the second of expiry; `Session.CreateThenReadExpired` describes that read. `Session.Memory.Create` is given the signer's
  answer.
- The signing key, the session id generator and the clock are inputs: `id` and `now`.
- The `MemoryOption` functions are not part of this model. They are modelled as the two
  settings a store has, the token lifetime and the issuer.
- The user repository (user.go), the user handlers, the wiring in app.go and router.go,
  and configuration are not part of this model. Session reads get the user repository's
  answers as a map.
- `TransactionHandler.Balance`: the current balance is the one the authenticated user
  carries. user.go's `Read` loads only id and name, so in the running service that
  field is zero. The model states the handler's relation to the carried balance, and
  `BalanceAgreesWithLedger` states what it would show if the balance were loaded.
- `OrderHandler.DuplicateSubmission`: resubmitting one's own number reaches the handler
  as a soft conflict. The handler does not single that out and answers 500. This
  assumes the conflict errors are distinct values, since the error package is not part
  of this model.
- `TransactionHandler.CreateWithdrawal`: the error from `BeginTx` at
  handler/transaction.go:106-108 is discarded by the handler, so a failing begin is not
  modelled there.
- `TransactionHandler.CreateWithdrawal`: the in-transaction `TxCreate` of the
  transaction repository (interface.go:44) has no implementation among the files
  modelled. Its contract is taken to be that of `Create`'s checks and writes with the
  corrected balance step, where a withdrawal debits (`TransactionRepository.PostEntry`).
  The source's `Create` adds a withdrawal's amount instead (transaction.go:152-153, see
  Findings). `TransactionHandler.WithdrawEffect`, `WithdrawNeverOverdraws` and
  `PaymentRequiredIffShort` rest on that assumption.
- `Syncer.FetchAll`: `rows.Err()` inside the loop checks an error that cannot be set
  while `Next` returns true, so it is not modelled. Closing the rows is not modelled.
- `Syncer.Retry`: `strategy.Limit(3)` is taken to mean at most three attempts. The
  retry library and its backoff delays are not part of this model.
- A new order is taken to start in status REGISTERED, the column default. The schema
  migrations are not part of this model.
- `TransactionHandler.NegativeWithdrawalCredits`: the body's sum is not checked for sign
  at handler/transaction.go:95-104, so a negative withdrawal is accepted. The model
  keeps that behaviour. Whether a sign check was intended is not decided here, so this
  is not listed as a finding.
- `TransactionRepository.GetWithdrawals`: the rows come in reverse append order. That is
  the `ORDER BY created_at DESC` order only when entries were appended in time order
  (`NewestFirstDescending`). The INSERTs at transaction.go:144 and service.go:205 leave
  `created_at` to the column default, the database clock, which the model does not
  have. Each transition takes `now` as an input, and the model does not require it to
  be monotone.
- `OrderRepository.Update`, `SetJobTimeout` and `ListWithdrawals` are not part of the
  core and are not modelled.

## Findings

| source | as written | input that shows it | evidently intended | confidence | as-written member | corrected member |
|---|---|---|---|---|---|---|
| internal/app/service/syncer/service.go:277-279 | a reconciliation job is submitted only when `rows.Scan` fails, for the id of the previous row or the nil UUID | two pending orders whose ids scan: nothing is submitted | submit a job for every pending order that scans | not executed | Syncer.FetchAllAsWritten | Syncer.FetchAll |
| internal/app/storage/postgres/transaction.go:152-153 | the balance update adds the amount for every entry type | balance 100.00, withdraw 60.00: the balance becomes 160.00 while the ledger implies 40.00 | a withdrawal lowers the balance by its amount | not executed | TransactionRepository.PostEntryAsWrittenBreaksConsistency | TransactionRepository.PostEntryKeepsConsistent |
| internal/app/storage/postgres/order.go:100,120 | `Scan` gets `m.CreatedAt`, `m.UserID`, `m.Status`, `m.Accrual` by value, so scanning an existing row fails | any `Read` or `ReadByExternalID` of an existing row; any resubmitted number | scan into the fields' addresses and return the row | not executed | OrderRepository.DuplicateLookupAsWritten | OrderRepository.TxCreateConflicts |
| internal/app/handler/order.go:65 | on a hard conflict the handler reads `m.ExternalID` from the nil order `Create` returned | another user's order number submitted again, with order.go:120 scanning correctly: the handler panics at line 65 | look the number up from the request body | not executed | OrderHandler.ConflictCrashesAsWritten | OrderHandler.SubmissionCode |
| internal/app/handler/order.go:73,77 | after a successful lookup both replies call `err.Error()` on the lookup's own `err`, which is nil there | another user's order number submitted again, with order.go:120 and line 65 fixed: the handler panics at line 77 | reply with the conflict error, or with a fixed message | not executed | OrderHandler.NilErrorCrashesAsWritten | OrderHandler.SubmissionCode |
| internal/app/storage/postgres/transaction.go:71 | the filter joins its two conditions with `&&`, which PostgreSQL does not accept here | any call of `GetWithdrawals` | join them with `AND` | not executed | TransactionRepository.GetWithdrawalsAsWritten | TransactionRepository.GetWithdrawals |
| internal/app/service/syncer/service.go:93-108 | a panic recovered in the deferred function leaves the attempt returning nil, so a panicking job counts as done | a job that always panics: one attempt, then "Job done" | treat the panic as a failed attempt | not executed | Syncer.PanickingJob | Syncer.AttemptResult |
| pkg/accrual/service.go:84-87 | the deferred `res.Body.Close()` runs even when `request` returned a nil response, which it does on every transport failure (service.go:142-146) | the accrual service unreachable, or the job's timeout during the call: the run panics, the attempt returns nil, the job is reported done after one run and the order stays pending | close the body only when there is a response, and return the error so that the job is retried | not executed | Syncer.TransportFailureNotRetried | Syncer.TransportFailureRetried |
