/**
 * The users table and its two operations: find-or-create by phone number,
 * and status update by id. Database errors are returned as failures (the
 * source re-throws them).
 */
module UserService {
  import opened Wrappers
  import opened Db

  /** The `user_status` enum type of the users table. */
  datatype Status = PendingOnboarding | Active | Disabled

  function StatusLabel(s: Status): (text: string)
    ensures text == "pending_onboarding" || text == "active" || text == "disabled"
  {
    match s
    case PendingOnboarding => "pending_onboarding"
    case Active => "active"
    case Disabled => "disabled"
  }

  /** The enum value a label denotes; any other label is rejected by the database. */
  function ParseStatus(name: string): (r: Option<Status>)
    ensures r.Some? ==> StatusLabel(r.value) == name
  {
    match name
    case "pending_onboarding" => Some(PendingOnboarding)
    case "active" => Some(Active)
    case "disabled" => Some(Disabled)
    case _ => None
  }

  /** Every enum value is accepted under its own label. */
  lemma ParseStatusLabel(s: Status)
    ensures ParseStatus(StatusLabel(s)) == Some(s)
  {
  }

  /** A row of the users table. */
  datatype User = User(user_id: nat, phone_number: string, status: Status, created_at: int)

  /** How many rows have this phone number. */
  function CountPhone(rows: seq<User>, phone: string): nat {
    if rows == [] then 0
    else (if rows[0].phone_number == phone then 1 else 0) + CountPhone(rows[1..], phone)
  }

  /** `SELECT * FROM users WHERE phone_number = $1`, first row. */
  function FindByPhone(rows: seq<User>, phone: string): (r: Option<User>)
    ensures r.None? <==> CountPhone(rows, phone) == 0
    ensures r.Some? ==> r.value in rows && r.value.phone_number == phone
  {
    if rows == [] then None
    else if rows[0].phone_number == phone then Some(rows[0])
    else FindByPhone(rows[1..], phone)
  }

  lemma {:induction false} CountPhoneAppend(rows: seq<User>, u: User, phone: string)
    ensures CountPhone(rows + [u], phone) == CountPhone(rows, phone) + (if u.phone_number == phone then 1 else 0)
  {
    if rows == [] {
      assert rows + [u] == [u];
    } else {
      assert (rows + [u])[1..] == rows[1..] + [u];
      CountPhoneAppend(rows[1..], u, phone);
    }
  }

  /** A phone that occurs in some row is counted. */
  lemma {:induction false} CountPhoneOccurs(rows: seq<User>, i: nat)
    requires i < |rows|
    ensures CountPhone(rows, rows[i].phone_number) > 0
  {
    if i > 0 {
      CountPhoneOccurs(rows[1..], i - 1);
    }
  }

  /** When no row has the phone, the first match after appending one row is that row. */
  lemma {:induction false} FindAfterAppend(rows: seq<User>, u: User)
    requires CountPhone(rows, u.phone_number) == 0
    ensures FindByPhone(rows + [u], u.phone_number) == Some(u)
  {
    if rows == [] {
      assert rows + [u] == [u];
    } else {
      assert (rows + [u])[1..] == rows[1..] + [u];
      FindAfterAppend(rows[1..], u);
    }
  }

  /** The table invariant: unique phone numbers (the UNIQUE constraint) and ids below the next serial value. */
  ghost predicate TableInvariant(rows: seq<User>, nextId: nat) {
    && (forall i, j :: 0 <= i < j < |rows| ==> rows[i].phone_number != rows[j].phone_number)
    && (forall i, j :: 0 <= i < j < |rows| ==> rows[i].user_id != rows[j].user_id)
    && (forall i :: 0 <= i < |rows| ==> rows[i].user_id < nextId && |rows[i].phone_number| <= PhoneNumberMax)
  }

  /** The new state of the table and the returned row or error of one `findOrCreateUser` call. */
  datatype FindOrCreateStep = FindOrCreateStep(rows: seq<User>, nextId: nat, result: Result<User, DbError>)

  /**
   * `findOrCreateUser`: the existing row for the phone; otherwise one inserted
   * row with status pending_onboarding and the next serial id.
   */
  function FindOrCreate(rows: seq<User>, nextId: nat, phone: string, now: int, dbFails: bool): (step: FindOrCreateStep)
    ensures step.result.Failure? ==> step.rows == rows && step.nextId == nextId
    ensures step.nextId == nextId || step.nextId == nextId + 1
  {
    if dbFails then FindOrCreateStep(rows, nextId, Failure(StoreFailure))
    else match FindByPhone(rows, phone)
      case Some(u) => FindOrCreateStep(rows, nextId, Success(u))
      case None =>
        if |phone| > PhoneNumberMax then FindOrCreateStep(rows, nextId, Failure(ValueTooLong))
        else
          var u := User(nextId, phone, PendingOnboarding, now);
          FindOrCreateStep(rows + [u], nextId + 1, Success(u))
  }

  /**
   * Each call either fails and changes nothing, or finds the existing row,
   * or inserts exactly one new pending row. A store failure is reported.
   * An existing row is returned as it is. A missing phone number that fits
   * `varchar(15)` gets one new `pending_onboarding` row with the next id,
   * and that row is returned. A longer one is rejected.
   */
  lemma FindOrCreateCases(rows: seq<User>, nextId: nat, phone: string, now: int, dbFails: bool)
    ensures var step := FindOrCreate(rows, nextId, phone, now, dbFails);
      && (step.result.Failure? ==> step.rows == rows)
      && (FindByPhone(rows, phone).Some? ==> step.rows == rows)
      && (step.rows != rows ==>
            && step.result == Success(User(nextId, phone, PendingOnboarding, now))
            && step.rows == rows + [step.result.value]
            && CountPhone(step.rows, phone) == 1)
      && (step.result.Success? ==> step.result.value.phone_number == phone)
      && (dbFails ==> step.result == Failure(StoreFailure))
      && (!dbFails && FindByPhone(rows, phone).Some? ==>
            && step.result == Success(FindByPhone(rows, phone).value)
            && step.rows == rows && step.nextId == nextId)
      && (!dbFails && FindByPhone(rows, phone).None? && |phone| <= PhoneNumberMax ==>
            && step.rows == rows + [User(nextId, phone, PendingOnboarding, now)]
            && step.nextId == nextId + 1
            && step.result == Success(step.rows[|rows|]))
      && (!dbFails && FindByPhone(rows, phone).None? && |phone| > PhoneNumberMax ==>
            step.result == Failure(ValueTooLong) && step.rows == rows)
  {
    var step := FindOrCreate(rows, nextId, phone, now, dbFails);
    if step.rows != rows {
      CountPhoneAppend(rows, step.result.value, phone);
    }
  }

  /** Every call keeps the table invariant. */
  lemma FindOrCreatePreserves(rows: seq<User>, nextId: nat, phone: string, now: int, dbFails: bool)
    requires TableInvariant(rows, nextId)
    ensures var step := FindOrCreate(rows, nextId, phone, now, dbFails);
            TableInvariant(step.rows, step.nextId)
  {
    var step := FindOrCreate(rows, nextId, phone, now, dbFails);
    if step.rows != rows {
      var u := step.result.value;
      assert step.rows == rows + [u];
      forall i | 0 <= i < |rows| ensures rows[i].phone_number != phone {
        if rows[i].phone_number == phone {
          CountPhoneOccurs(rows, i);
        }
      }
    }
  }

  /**
   * A second call with the same phone returns the same user and inserts
   * nothing, and the table then holds exactly one row for that phone.
   */
  lemma FindOrCreateIdempotent(rows: seq<User>, nextId: nat, phone: string, t1: int, t2: int)
    requires TableInvariant(rows, nextId)
    ensures var first := FindOrCreate(rows, nextId, phone, t1, false);
            var second := FindOrCreate(first.rows, first.nextId, phone, t2, false);
            first.result.Success? ==>
              && second.result == first.result
              && second.rows == first.rows
              && CountPhone(second.rows, phone) == 1
  {
    var first := FindOrCreate(rows, nextId, phone, t1, false);
    if first.result.Success? {
      match FindByPhone(rows, phone)
      case Some(u) =>
        UniquePhoneCount(rows, phone);
      case None =>
        FindAfterAppend(rows, first.result.value);
        CountPhoneAppend(rows, first.result.value, phone);
    }
  }

  /** With unique phone numbers, a phone that occurs occurs exactly once. */
  lemma {:induction false} UniquePhoneCount(rows: seq<User>, phone: string)
    requires forall i, j :: 0 <= i < j < |rows| ==> rows[i].phone_number != rows[j].phone_number
    requires FindByPhone(rows, phone).Some?
    ensures CountPhone(rows, phone) == 1
  {
    if rows[0].phone_number == phone {
      NoOtherPhone(rows[1..], phone);
    } else {
      UniquePhoneCount(rows[1..], phone);
    }
  }

  lemma {:induction false} NoOtherPhone(rows: seq<User>, phone: string)
    requires forall i :: 0 <= i < |rows| ==> rows[i].phone_number != phone
    ensures CountPhone(rows, phone) == 0
  {
    if rows != [] {
      NoOtherPhone(rows[1..], phone);
    }
  }

  /** The rows after `UPDATE users SET status = $1 WHERE user_id = $2`. */
  function WithStatus(rows: seq<User>, userId: nat, status: Status): (r: seq<User>)
    ensures |r| == |rows|
    ensures forall i :: 0 <= i < |rows| ==>
      r[i] == if rows[i].user_id == userId then rows[i].(status := status) else rows[i]
  {
    seq(|rows|, i requires 0 <= i < |rows| =>
      if rows[i].user_id == userId then rows[i].(status := status) else rows[i])
  }

  /** The first row with the id, if any (what `RETURNING *` gives as `rows[0]`). */
  function FindById(rows: seq<User>, userId: nat): (r: Option<User>)
    ensures r.None? <==> forall i :: 0 <= i < |rows| ==> rows[i].user_id != userId
    ensures r.Some? ==> r.value in rows && r.value.user_id == userId
  {
    if rows == [] then None
    else if rows[0].user_id == userId then Some(rows[0])
    else FindById(rows[1..], userId)
  }

  /** The new rows and the returned row (absent when no row has the id) or error of `updateUserStatus`. */
  datatype UpdateStep = UpdateStep(rows: seq<User>, result: Result<Option<User>, DbError>)

  /**
   * `updateUserStatus`: a label outside the enum is rejected by the database;
   * otherwise the row with the id gets the new status and is returned.
   */
  function UpdateStatus(rows: seq<User>, userId: nat, name: string, dbFails: bool): (step: UpdateStep)
    ensures |step.rows| == |rows|
    ensures step.result.Failure? ==> step.rows == rows
    ensures step.result.Success? ==> ParseStatus(name).Some?
  {
    if dbFails then UpdateStep(rows, Failure(StoreFailure))
    else match ParseStatus(name)
      case None => UpdateStep(rows, Failure(InvalidEnumValue))
      case Some(status) =>
        var updated := WithStatus(rows, userId, status);
        UpdateStep(updated, Success(FindById(updated, userId)))
  }

  /**
   * A successful update changes only the status, and only of the row with
   * that id; it returns that row with the new status, or nothing when no row
   * has the id. A failed update changes nothing.
   */
  lemma UpdateStatusEffect(rows: seq<User>, userId: nat, status: Status)
    ensures var step := UpdateStatus(rows, userId, StatusLabel(status), false);
      && |step.rows| == |rows|
      && (forall i :: 0 <= i < |rows| && rows[i].user_id != userId ==> step.rows[i] == rows[i])
      && (forall i :: 0 <= i < |rows| && rows[i].user_id == userId ==> step.rows[i] == rows[i].(status := status))
      && step.result == Success(match FindById(rows, userId)
                                case None => None
                                case Some(u) => Some(u.(status := status)))
  {
    ParseStatusLabel(status);
    FindByIdWithStatus(rows, userId, status);
  }

  lemma {:induction false} FindByIdWithStatus(rows: seq<User>, userId: nat, status: Status)
    ensures FindById(WithStatus(rows, userId, status), userId)
         == match FindById(rows, userId) case None => None case Some(u) => Some(u.(status := status))
  {
    if rows != [] {
      assert WithStatus(rows, userId, status)[1..] == WithStatus(rows[1..], userId, status);
      FindByIdWithStatus(rows[1..], userId, status);
    }
  }

  /** Labels outside the enum and database errors are reported, not swallowed, and leave the rows as they were. */
  lemma UpdateStatusFailures(rows: seq<User>, userId: nat, name: string, dbFails: bool)
    requires dbFails || ParseStatus(name).None?
    ensures UpdateStatus(rows, userId, name, dbFails).result.Failure?
    ensures UpdateStatus(rows, userId, name, dbFails).rows == rows
  {
  }

  /** An update keeps the table invariant: ids and phone numbers are untouched. */
  lemma UpdateStatusPreserves(rows: seq<User>, nextId: nat, userId: nat, name: string, dbFails: bool)
    requires TableInvariant(rows, nextId)
    ensures TableInvariant(UpdateStatus(rows, userId, name, dbFails).rows, nextId)
  {
    if !dbFails && ParseStatus(name).Some? {
      var updated := WithStatus(rows, userId, ParseStatus(name).value);
      assert forall i :: 0 <= i < |rows| ==>
        updated[i].user_id == rows[i].user_id && updated[i].phone_number == rows[i].phone_number;
    }
  }

  /** The users table, as the service's queries see it. */
  class UserTable {
    var rows: seq<User>
    var nextId: nat  // the next value of the user_id serial

    ghost predicate Valid()
      reads this
    {
      TableInvariant(rows, nextId)
    }

    constructor ()
      ensures Valid() && rows == []
    {
      rows := [];
      nextId := 1;
    }

    /** `findOrCreateUser`; `now` is the database clock and `dbFails` says that a query raised. */
    method FindOrCreateUser(phoneNumber: string, now: int, dbFails: bool) returns (r: Result<User, DbError>)
      requires Valid()
      modifies this
      ensures Valid()
      ensures FindOrCreateStep(rows, nextId, r) == FindOrCreate(old(rows), old(nextId), phoneNumber, now, dbFails)
    {
      FindOrCreatePreserves(rows, nextId, phoneNumber, now, dbFails);
      if dbFails {
        return Failure(StoreFailure);
      }
      var found := FindByPhone(rows, phoneNumber);
      if found.Some? {
        return Success(found.value);
      }
      if |phoneNumber| > PhoneNumberMax {
        return Failure(ValueTooLong);
      }
      var user := User(nextId, phoneNumber, PendingOnboarding, now);
      rows := rows + [user];
      nextId := nextId + 1;
      r := Success(user);
    }

    /** `updateUserStatus`: `newStatus` is the label the caller passes. */
    method UpdateUserStatus(userId: nat, newStatus: string, dbFails: bool) returns (r: Result<Option<User>, DbError>)
      requires Valid()
      modifies this
      ensures Valid() && nextId == old(nextId)
      ensures UpdateStep(rows, r) == UpdateStatus(old(rows), userId, newStatus, dbFails)
    {
      UpdateStatusPreserves(rows, nextId, userId, newStatus, dbFails);
      if dbFails {
        return Failure(StoreFailure);
      }
      var status := ParseStatus(newStatus);
      if status.None? {
        return Failure(InvalidEnumValue);
      }
      rows := WithStatus(rows, userId, status.value);
      r := Success(FindById(rows, userId));
    }
  }
}
