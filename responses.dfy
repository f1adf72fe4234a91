/**
 * What a handler answers: a payload with status 200/201, or the reason it refused.
 * Every refusal in the server carries one of the reasons below, and each reason
 * is always answered with the same HTTP status.
 */
module Responses {

  datatype Reason =
    | MissingFields             // a required body field is absent or empty
    | ShortPassword             // admin password shorter than 6 characters
    | EmailTaken                // another admin already has that email
    | BadCredentials            // admin login: unknown email or wrong password
    | NoSession                 // no X-Session-ID header
    | InvalidSession            // X-Session-ID not in the session map
    | AdminNotFound             // the session's admin id has no admin row
    | CurrentPasswordRequired   // new admin password without the current one
    | WrongCurrentPassword      // current admin password does not verify
    | BadPin                    // PIN is not exactly four digits
    | BadTelephone              // telephone does not match 07 followed by 8 digits
    | TelephoneTaken            // a user already has that telephone
    | UnknownTelephone          // user login: no user with that telephone
    | WrongPin                  // user login: PIN does not verify
    | UserNotFound              // forgot-password: no user with that telephone
    | BadNewPin                 // reset-password: new PIN is not exactly four digits
    | InvalidToken              // reset-password: no matching unexpired token
    | ClientNotFound            // no abonizera row with that telephone or id
    | ProductNotFound           // delete-product: no abonizera row with that id
    | TicketNotFound            // no ticket with that id
    | StoreRejected             // the database refused the statement the handler built

  /** The HTTP status the handlers send with each reason. */
  function Status(reason: Reason): (code: int)
    ensures code in {400, 401, 404, 500}
    ensures code == 401 <==> reason == NoSession || reason == InvalidSession
    ensures code == 500 <==> reason == StoreRejected
  {
    match reason
    case NoSession | InvalidSession => 401
    case AdminNotFound | UserNotFound | ClientNotFound | ProductNotFound | TicketNotFound => 404
    case StoreRejected => 500
    case _ => 400
  }

  datatype Result<+T> = Ok(value: T) | Err(reason: Reason)
}
