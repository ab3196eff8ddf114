/** The record types of the loyalty-points ledger and the outcome of its operations. */
module Records {

  datatype Option<T> = None | Some(value: T)

  /** Timestamps as the canister clock reports them (nanoseconds). */
  type Time = nat

  /** The kinds of failure the operations report; the message texts are not modelled. */
  datatype Error =
    | MissingField            // a required creation input is empty or zero
    | UserNotFound
    | TokenNotFound
    | PrizeNotFound
    | NotEnoughPointsOrStock  // the combined guard of an exchange

  /** Every operation answers either its record or an error kind. */
  datatype Result<T> = Ok(value: T) | Err(error: Error)

  datatype User = User(
    id: string,
    username: string,
    password: string,
    points: nat,
    createdAt: Time,
    updatedAt: Option<Time>)

  /** A token's `uniqueCode` is both its key and the code a user redeems. */
  datatype Token = Token(
    name: string,
    point: nat,
    uniqueCode: string,
    createdAt: Time,
    updatedAt: Option<Time>)

  /** `point` is the price of one unit, `amount` the units left in stock. */
  datatype Prize = Prize(
    id: string,
    name: string,
    point: nat,
    amount: nat,
    createdAt: Time,
    updatedAt: Option<Time>)

  datatype PrizePayload = PrizePayload(name: string, point: nat, amount: nat)
}
