/** Entities of the loyalty ledger: orders, ledger entries, users, the
    accrual service's answer, and the error values the storage layer and
    the handlers pass around. */
module Model {

  /** A UUID. Ids are opaque; 0 stands for the nil UUID (`uuid.UUID{}`). */
  type Uuid = nat

  const NilUuid: Uuid := 0

  datatype Option<+T> = None | Some(value: T)

  datatype Result<+T, +E> = Success(value: T) | Failure(error: E)

  /** Status of an order, as stored in `orders.status` and as answered by
      the accrual service. */
  datatype Status = Registered | Processing | Invalid | Processed

  /** `model.TransactionType`: REPLENISHMENT = 1, WITHDRAWAL = 2. */
  datatype TxType = Replenishment | Withdrawal
  {
    function Code(): (c: int)
      ensures c == 1 <==> this == Replenishment
      ensures c == 2 <==> this == Withdrawal
    {
      match this
      case Replenishment => 1
      case Withdrawal => 2
    }
  }

  /** A row of the `orders` table (`model.Order`). The accrual is a nullable
      decimal, kept here in minor units. */
  datatype Order = Order(
    id: Uuid,
    externalId: string,
    owner: Uuid,
    status: Status,
    accrual: Option<int>,
    createdAt: int)

  /** A row of the `transactions` table (`model.Transaction`): one ledger entry. */
  datatype Entry = Entry(
    kind: TxType,
    user: Uuid,
    orderId: Uuid,
    externalOrderId: string,
    amount: int,
    createdAt: int)

  /** `model.User`; the password is not modelled. */
  datatype User = User(id: Uuid, name: string, balance: int)

  /** The accrual service's answer to `GetOrder`: a status with an optional
      accrual, or an error. `transport` holds when the request got no
      response at all (a refused connection, the job's timeout); otherwise
      the service answered a status of 400 or more, or a body that does not
      decode. */
  datatype Remote = RemoteOk(status: Status, accrual: Option<int>) | RemoteErr(transport: bool)

  /** The statements of a database transaction that can fail for reasons
      outside the model (connection loss, serialization failure, timeout). */
  datatype DbStep =
    | Begin | Lock | Query | OrderInsert | OrderUpdate | EntryInsert | BalanceUpdate | Commit

  /** The response codes the handlers answer with. */
  datatype Code =
    | Ok200 | Accepted202 | NoContent204
    | BadRequest400 | Unauthorized401 | PaymentRequired402 | Conflict409 | Unprocessable422
    | Internal500

  datatype Error =
    | InvalidInput
    | SoftConflict
    | Conflict
    | NotFound
    | InsufficientFunds
    | Unauthorized
    | InvalidToken
    | NoRows            // sql.ErrNoRows returned unwrapped
    | ScanFailure       // Scan into a destination passed by value
    | StatementRejected // the server refuses the SQL text itself
    | RemoteFailure
    | SigningFailure
    | DbFailure(step: DbStep)
    | Panicked
}
