/**
 * What the services see of the relational store: the errors a query can raise
 * and the column limits the schema imposes.
 */
module Db {
  import opened Wrappers

  /** Why a call into the store raised instead of returning rows. */
  datatype DbError =
    | StoreFailure      // the connection or the query failed for a reason outside the model
    | ValueTooLong      // a value longer than its varchar column
    | InvalidEnumValue  // a label outside the column's enum type
    | NumericOverflow   // an amount too large for its decimal(10,2) column
    | PoolMissing       // `db.pool` is undefined, so `db.pool.connect()` throws a TypeError

  /** `phone_number varchar(15)` in the users table. */
  const PhoneNumberMax: nat := 15

  /** `item_name varchar(100)` and `entity_name varchar(100)`. */
  const NameMax: nat := 100

  /**
   * The smallest magnitude that `decimal(10,2)` rejects. It keeps two digits
   * after the point, so at most eight before it. An amount rounds to two
   * decimals first, and from this magnitude on it rounds to 10^8.
   */
  const DecimalOverflowBound: real := 99999999.995

  /** The error of storing `amount` in a `decimal(10,2)` column. */
  function AmountError(amount: real): (r: Option<DbError>)
    ensures r.None? <==> -DecimalOverflowBound < amount < DecimalOverflowBound
    ensures r.Some? ==> r.value == NumericOverflow
  {
    if -DecimalOverflowBound < amount < DecimalOverflowBound then None else Some(NumericOverflow)
  }

  /**
   * The error an insert of a row with a name and an amount column meets: a
   * failure of the store, a name too long for `varchar(100)`, or an amount
   * too large for `decimal(10,2)`, in that order.
   */
  function RowInsertError(name: string, amount: real, storeFails: bool): (r: Option<DbError>)
    ensures r.None? <==> !storeFails && |name| <= NameMax && -DecimalOverflowBound < amount < DecimalOverflowBound
  {
    if NameInsertError(name, storeFails).Some? then NameInsertError(name, storeFails) else AmountError(amount)
  }

  /** The names `db.js` exports: only `query`. */
  const DbExports: set<string> := {"query"}

  /**
   * `db.getClient()` as `expenseService.js` installs it: `db.pool.connect()`.
   * It yields a client only when the database module exports `pool`.
   */
  function GetClient(exports: set<string>): (r: Result<(), DbError>)
    ensures r.Success? <==> "pool" in exports
    ensures r.Failure? ==> r.error == PoolMissing
  {
    if "pool" in exports then Success(()) else Failure(PoolMissing)
  }

  /**
   * The error an insert of a row with a name column meets: a failure of the
   * store itself, or a name too long for `varchar(100)`.
   */
  function NameInsertError(name: string, storeFails: bool): (r: Option<DbError>)
    ensures r.None? <==> !storeFails && |name| <= NameMax
  {
    if storeFails then Some(StoreFailure)
    else if |name| > NameMax then Some(ValueTooLong)
    else None
  }
}
