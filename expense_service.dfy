/**
 * The expenses and shared-participants tables, with:
 * - the personal insert;
 * - the shared insert, run as one transaction on a pooled client;
 * - the balance query.
 * The balance query sums a user's shares with one person, matching names
 * case-insensitively.
 */
module ExpenseService {
  import opened Wrappers
  import opened Text
  import opened Db

  /** The `expense_type` enum type. */
  datatype ExpenseType = Personal | Shared

  /** A row of the expenses table. */
  datatype Expense = Expense(expense_id: nat, user_id: nat, item_name: string, total_amount: real,
                             expense_type: ExpenseType, transaction_time: int)

  /** A row of the shared-participants table: one person's share of one shared expense. */
  datatype Participant = Participant(share_id: nat, expense_id: nat, entity_name: string, share_amount: real)

  /**
   * Where a shared log meets a database error:
   * - acquiring the client;
   * - BEGIN;
   * - the expense insert;
   * - the participant insert at a position of the list;
   * - COMMIT.
   */
  datatype Fault = NoFault | ConnectFails | BeginFails | ExpenseInsertFails | ParticipantInsertFails(index: nat) | CommitFails

  /** Each participant's share: the total split equally among the participants and the user who logs it. */
  function ShareAmount(totalAmount: real, participantCount: nat): (share: real)
    ensures (participantCount + 1) as real * share == totalAmount
  {
    totalAmount / (participantCount + 1) as real
  }

  /** The participant rows inserted for `names`, in list order, with consecutive share ids from `firstShareId`. */
  function ParticipantRows(expenseId: nat, firstShareId: nat, names: seq<string>, share: real): (rows: seq<Participant>)
    ensures |rows| == |names|
    ensures forall k :: 0 <= k < |names| ==> rows[k] == Participant(firstShareId + k, expenseId, names[k], share)
  {
    seq(|names|, k requires 0 <= k < |names| => Participant(firstShareId + k, expenseId, names[k], share))
  }

  lemma ParticipantRowsSnoc(expenseId: nat, firstShareId: nat, names: seq<string>, name: string, share: real)
    ensures ParticipantRows(expenseId, firstShareId, names + [name], share)
         == ParticipantRows(expenseId, firstShareId, names, share) + [Participant(firstShareId + |names|, expenseId, name, share)]
  {
    var more := ParticipantRows(expenseId, firstShareId, names + [name], share);
    var rows := ParticipantRows(expenseId, firstShareId, names, share) + [Participant(firstShareId + |names|, expenseId, name, share)];
    forall k | 0 <= k < |more| ensures more[k] == rows[k] {
      assert (names + [name])[k] == if k < |names| then names[k] else name;
    }
  }

  /** `rows` are the participant rows for `names`, built one row at a time from the last. */
  predicate RowsFor(rows: seq<Participant>, expenseId: nat, firstShareId: nat, names: seq<string>, share: real) {
    if names == [] then rows == []
    else
      && |rows| == |names|
      && rows[|rows| - 1] == Participant(firstShareId + |names| - 1, expenseId, names[|names| - 1], share)
      && RowsFor(rows[..|rows| - 1], expenseId, firstShareId, names[..|names| - 1], share)
  }

  lemma {:induction false} RowsForRows(rows: seq<Participant>, expenseId: nat, firstShareId: nat, names: seq<string>, share: real)
    requires RowsFor(rows, expenseId, firstShareId, names, share)
    ensures rows == ParticipantRows(expenseId, firstShareId, names, share)
  {
    if names != [] {
      var init := names[..|names| - 1];
      RowsForRows(rows[..|rows| - 1], expenseId, firstShareId, init, share);
      assert names == init + [names[|names| - 1]];
      ParticipantRowsSnoc(expenseId, firstShareId, init, names[|names| - 1], share);
      assert rows == rows[..|rows| - 1] + [rows[|rows| - 1]];
    }
  }

  lemma AppendAssociates(before: seq<Participant>, rows: seq<Participant>, row: Participant)
    ensures before + rows + [row] == before + (rows + [row])
  {
  }

  /** The sum of the share amounts of some rows. */
  function TotalShares(rows: seq<Participant>): real {
    if rows == [] then 0.0 else TotalShares(rows[..|rows| - 1]) + rows[|rows| - 1].share_amount
  }

  /** The participants' shares and the logging user's own share add up to the total. */
  lemma {:induction false} SharesCoverTotal(expenseId: nat, firstShareId: nat, names: seq<string>, totalAmount: real)
    ensures TotalShares(ParticipantRows(expenseId, firstShareId, names, ShareAmount(totalAmount, |names|)))
            + ShareAmount(totalAmount, |names|) == totalAmount
  {
    var share := ShareAmount(totalAmount, |names|);
    RowsTotal(expenseId, firstShareId, names, share);
  }

  lemma {:induction false} RowsTotal(expenseId: nat, firstShareId: nat, names: seq<string>, share: real)
    ensures TotalShares(ParticipantRows(expenseId, firstShareId, names, share)) == |names| as real * share
  {
    if names != [] {
      var init := names[..|names| - 1];
      assert names == init + [names[|names| - 1]];
      ParticipantRowsSnoc(expenseId, firstShareId, init, names[|names| - 1], share);
      RowsTotal(expenseId, firstShareId, init, share);
      var rows := ParticipantRows(expenseId, firstShareId, names, share);
      assert rows[..|rows| - 1] == ParticipantRows(expenseId, firstShareId, init, share);
    }
  }

  /** The error of the first failing participant insert at or after position `from`, if any. */
  function FirstInsertError(names: seq<string>, from: nat, share: real, fault: Fault): (r: Option<DbError>)
    requires from <= |names|
    ensures from == |names| ==> r.None?
    decreases |names| - from
  {
    if from == |names| then None
    else match RowInsertError(names[from], share, fault == ParticipantInsertFails(from))
      case Some(e) => Some(e)
      case None => FirstInsertError(names, from + 1, share, fault)
  }

  /** No error is found exactly when every insert from position `from` on succeeds. */
  lemma {:induction false} FirstInsertErrorNone(names: seq<string>, from: nat, share: real, fault: Fault)
    requires from <= |names|
    ensures FirstInsertError(names, from, share, fault).None?
        <==> forall k :: from <= k < |names| ==> RowInsertError(names[k], share, fault == ParticipantInsertFails(k)).None?
    decreases |names| - from
  {
    if from < |names| {
      FirstInsertErrorNone(names, from + 1, share, fault);
    }
  }

  /** A share is no larger in magnitude than the total, so it fits `decimal(10,2)` whenever the total does. */
  lemma ShareFits(totalAmount: real, participantCount: nat)
    requires -DecimalOverflowBound < totalAmount < DecimalOverflowBound
    ensures -DecimalOverflowBound < ShareAmount(totalAmount, participantCount) < DecimalOverflowBound
  {
    var share, n := ShareAmount(totalAmount, participantCount), (participantCount + 1) as real;
    assert n * share == share + (n - 1.0) * share;
    if share >= 0.0 {
      ProductNonNegative(n - 1.0, share);
    } else {
      ProductNonNegative(n - 1.0, -share);
      assert (n - 1.0) * share == -((n - 1.0) * -share);
    }
  }

  lemma ProductNonNegative(a: real, b: real)
    requires a >= 0.0 && b >= 0.0
    ensures a * b >= 0.0
  {
  }

  /**
   * The outcome of `logSharedExpense`, given a working client. It returns
   * the new expense id when every step succeeds. Otherwise it returns the
   * error of the first step that fails.
   */
  function SharedResult(newExpenseId: nat, totalAmount: real, itemName: string, names: seq<string>, fault: Fault): (r: Result<nat, DbError>)
    ensures r.Success? ==> r.value == newExpenseId
    ensures fault in {ConnectFails, BeginFails, ExpenseInsertFails, CommitFails} ==> r.Failure?
  {
    if fault == ConnectFails || fault == BeginFails then Failure(StoreFailure)
    else match RowInsertError(itemName, totalAmount, fault == ExpenseInsertFails)
      case Some(e) => Failure(e)
      case None =>
        match FirstInsertError(names, 0, ShareAmount(totalAmount, |names|), fault)
        case Some(e) => Failure(e)
        case None => if fault == CommitFails then Failure(StoreFailure) else Success(newExpenseId)
  }

  /**
   * The shared log succeeds exactly when no step fails: no store failure,
   * the item name and every participant name fit `varchar(100)`, and the
   * total fits `decimal(10,2)`. An empty list of names needs no participant
   * insert.
   */
  lemma SharedSucceedsIff(newExpenseId: nat, totalAmount: real, itemName: string, names: seq<string>, fault: Fault)
    ensures SharedResult(newExpenseId, totalAmount, itemName, names, fault).Success?
        <==> && fault !in {ConnectFails, BeginFails, ExpenseInsertFails, CommitFails}
             && |itemName| <= NameMax
             && -DecimalOverflowBound < totalAmount < DecimalOverflowBound
             && (forall k :: 0 <= k < |names| ==> fault != ParticipantInsertFails(k) && |names[k]| <= NameMax)
  {
    FirstInsertErrorNone(names, 0, ShareAmount(totalAmount, |names|), fault);
    if -DecimalOverflowBound < totalAmount < DecimalOverflowBound {
      ShareFits(totalAmount, |names|);
    }
  }

  /**
   * `logSharedExpense` as written. Its first statement, `db.getClient()`,
   * runs before the `try` and reads `db.pool`, which the database module
   * does not export. So the call rejects before BEGIN, and without ROLLBACK
   * or release. `exports` are the names the database module exports; the
   * program as written has `DbExports`.
   */
  function SharedResultAsWritten(exports: set<string>, newExpenseId: nat, totalAmount: real, itemName: string, names: seq<string>, fault: Fault): (r: Result<nat, DbError>)
    ensures GetClient(exports).Success? ==> r == SharedResult(newExpenseId, totalAmount, itemName, names, fault)
    ensures GetClient(exports).Failure? ==> r == Failure(PoolMissing)
  {
    match GetClient(exports)
    case Failure(e) => Failure(e)
    case Success(_) => SharedResult(newExpenseId, totalAmount, itemName, names, fault)
  }

  /** As written, every shared log fails with `PoolMissing`. */
  lemma SharedLogAsWrittenFails(newExpenseId: nat, totalAmount: real, itemName: string, names: seq<string>, fault: Fault)
    ensures SharedResultAsWritten(DbExports, newExpenseId, totalAmount, itemName, names, fault) == Failure(PoolMissing)
  {
    assert "pool" !in DbExports;
  }

  /** A shared log that the intended transaction commits and the program as written rejects. */
  lemma SharedLogAsWrittenCounterexample()
    ensures SharedResultAsWritten(DbExports, 1, 1000.0, "taxi", ["Kamal"], NoFault) == Failure(PoolMissing)
    ensures SharedResult(1, 1000.0, "taxi", ["Kamal"], NoFault) == Success(1)
  {
    SharedLogAsWrittenFails(1, 1000.0, "taxi", ["Kamal"], NoFault);
    SharedSucceedsIff(1, 1000.0, "taxi", ["Kamal"], NoFault);
  }

  /** The user who owns the first expense with this id. */
  function OwnerOf(expenses: seq<Expense>, expenseId: nat): (r: Option<nat>)
    ensures r.None? <==> forall i :: 0 <= i < |expenses| ==> expenses[i].expense_id != expenseId
    ensures r.Some? ==> exists i :: 0 <= i < |expenses| && expenses[i].expense_id == expenseId && expenses[i].user_id == r.value
  {
    if expenses == [] then None
    else if expenses[0].expense_id == expenseId then Some(expenses[0].user_id)
    else
      var r := OwnerOf(expenses[1..], expenseId);
      assert r.Some? ==> exists i :: 1 <= i < |expenses| && expenses[i].expense_id == expenseId && expenses[i].user_id == r.value by {
        if r.Some? {
          var i :| 0 <= i < |expenses[1..]| && expenses[1..][i].expense_id == expenseId && expenses[1..][i].user_id == r.value;
          assert expenses[i + 1] == expenses[1..][i];
        }
      }
      r
  }

  /** Appending an expense does not change the owner of an id that is already present. */
  lemma {:induction false} OwnerOfAppend(expenses: seq<Expense>, e: Expense, expenseId: nat)
    requires OwnerOf(expenses, expenseId).Some?
    ensures OwnerOf(expenses + [e], expenseId) == OwnerOf(expenses, expenseId)
  {
    if expenses[0].expense_id != expenseId {
      assert (expenses + [e])[1..] == expenses[1..] + [e];
      OwnerOfAppend(expenses[1..], e, expenseId);
    }
  }

  /** Expense ids increase along the table and stay below `bound`. */
  predicate IncreasingExpenseIds(expenses: seq<Expense>, bound: nat) {
    expenses == []
    || (var last := expenses[|expenses| - 1];
        last.expense_id < bound && IncreasingExpenseIds(expenses[..|expenses| - 1], last.expense_id))
  }

  /** Share ids increase along the table and stay below `bound`. */
  predicate IncreasingShareIds(participants: seq<Participant>, bound: nat) {
    participants == []
    || (var last := participants[|participants| - 1];
        last.share_id < bound && IncreasingShareIds(participants[..|participants| - 1], last.share_id))
  }

  /** Every participant row refers to an existing expense (the foreign key). */
  predicate AllReferToExpenses(expenses: seq<Expense>, participants: seq<Participant>) {
    participants == []
    || (OwnerOf(expenses, participants[|participants| - 1].expense_id).Some?
        && AllReferToExpenses(expenses, participants[..|participants| - 1]))
  }

  /**
   * The table invariant:
   * - expense ids and share ids are increasing and below the next serial value;
   * - every participant row refers to an existing expense.
   */
  ghost predicate LedgerInvariant(expenses: seq<Expense>, participants: seq<Participant>, nextExpenseId: nat, nextShareId: nat) {
    && IncreasingExpenseIds(expenses, nextExpenseId)
    && IncreasingShareIds(participants, nextShareId)
    && AllReferToExpenses(expenses, participants)
  }

  /** No expense uses an id at or above the bound, in particular the next serial value. */
  lemma {:induction false} FreshExpenseId(expenses: seq<Expense>, bound: nat, expenseId: nat)
    requires IncreasingExpenseIds(expenses, bound) && bound <= expenseId
    ensures OwnerOf(expenses, expenseId).None?
  {
    if expenses != [] {
      var init, last := expenses[..|expenses| - 1], expenses[|expenses| - 1];
      FreshExpenseId(init, last.expense_id, expenseId);
      assert forall i :: 0 <= i < |init| ==> expenses[i] == init[i];
    }
  }

  /** Appending an expense keeps every reference valid. */
  lemma {:induction false} ReferencesAfterNewExpense(expenses: seq<Expense>, e: Expense, participants: seq<Participant>)
    requires AllReferToExpenses(expenses, participants)
    ensures AllReferToExpenses(expenses + [e], participants)
  {
    if participants != [] {
      OwnerOfAppend(expenses, e, participants[|participants| - 1].expense_id);
      ReferencesAfterNewExpense(expenses, e, participants[..|participants| - 1]);
    }
  }

  /** An expense row with the next expense id keeps the invariant. */
  lemma InvariantAppendExpense(expenses: seq<Expense>, participants: seq<Participant>,
                               nextExpenseId: nat, nextShareId: nat, e: Expense)
    requires LedgerInvariant(expenses, participants, nextExpenseId, nextShareId)
    requires e.expense_id == nextExpenseId
    ensures LedgerInvariant(expenses + [e], participants, nextExpenseId + 1, nextShareId)
  {
    assert (expenses + [e])[..|expenses|] == expenses;
    ReferencesAfterNewExpense(expenses, e, participants);
  }

  /** Serial values never handed out stay unused, so moving the counters forward keeps the invariant. */
  lemma InvariantWithLaterCounters(expenses: seq<Expense>, participants: seq<Participant>,
                                   nextExpenseId: nat, nextShareId: nat, laterExpenseId: nat, laterShareId: nat)
    requires LedgerInvariant(expenses, participants, nextExpenseId, nextShareId)
    requires nextExpenseId <= laterExpenseId && nextShareId <= laterShareId
    ensures LedgerInvariant(expenses, participants, laterExpenseId, laterShareId)
  {
  }

  /** A participant row with the next share id and an existing expense keeps the invariant. */
  lemma InvariantAppendParticipant(expenses: seq<Expense>, participants: seq<Participant>,
                                   nextExpenseId: nat, nextShareId: nat, p: Participant)
    requires LedgerInvariant(expenses, participants, nextExpenseId, nextShareId)
    requires p.share_id == nextShareId && OwnerOf(expenses, p.expense_id).Some?
    ensures LedgerInvariant(expenses, participants + [p], nextExpenseId, nextShareId + 1)
  {
    assert (participants + [p])[..|participants|] == participants;
  }

  /** Whether a participant row counts towards `userId`'s balance with `person` (`ILIKE` as case-insensitive equality). */
  predicate Counts(expenses: seq<Expense>, p: Participant, userId: nat, person: string)
    ensures Counts(expenses, p, userId, person) <==>
              && Lower(p.entity_name) == Lower(person)
              && exists i :: 0 <= i < |expenses| && expenses[i].expense_id == p.expense_id && OwnerOf(expenses, p.expense_id) == Some(userId)
  {
    EqualIgnoringCaseIff(p.entity_name, person);
    EqualIgnoringCase(p.entity_name, person) && OwnerOf(expenses, p.expense_id) == Some(userId)
  }

  /** The sum of `share_amount` over the counted rows, 0 when there are none. */
  function Balance(expenses: seq<Expense>, participants: seq<Participant>, userId: nat, person: string): (r: real)
    ensures (forall k :: 0 <= k < |participants| ==> participants[k].share_amount >= 0.0) ==> r >= 0.0
  {
    if participants == [] then 0.0
    else
      var last := participants[|participants| - 1];
      Balance(expenses, participants[..|participants| - 1], userId, person)
        + (if Counts(expenses, last, userId, person) then last.share_amount else 0.0)
  }

  /** How many names match `person` case-insensitively. */
  function CountMatches(names: seq<string>, person: string): nat {
    if names == [] then 0
    else CountMatches(names[..|names| - 1], person) + (if EqualIgnoringCase(names[|names| - 1], person) then 1 else 0)
  }

  /** Without a counted row the balance is 0. */
  lemma {:induction false} BalanceWithoutMatches(expenses: seq<Expense>, participants: seq<Participant>, userId: nat, person: string)
    requires forall i :: 0 <= i < |participants| ==> !Counts(expenses, participants[i], userId, person)
    ensures Balance(expenses, participants, userId, person) == 0.0
  {
    if participants != [] {
      BalanceWithoutMatches(expenses, participants[..|participants| - 1], userId, person);
    }
  }

  /** The balance depends on the person's name only up to case. */
  lemma {:induction false} BalanceIgnoresCase(expenses: seq<Expense>, participants: seq<Participant>, userId: nat, p: string, q: string)
    requires Lower(p) == Lower(q)
    ensures Balance(expenses, participants, userId, p) == Balance(expenses, participants, userId, q)
  {
    if participants != [] {
      var name := participants[|participants| - 1].entity_name;
      EqualIgnoringCaseIff(name, p);
      EqualIgnoringCaseIff(name, q);
      BalanceIgnoresCase(expenses, participants[..|participants| - 1], userId, p, q);
    }
  }

  lemma {:induction false} BalanceAppend(expenses: seq<Expense>, ps: seq<Participant>, qs: seq<Participant>, userId: nat, person: string)
    ensures Balance(expenses, ps + qs, userId, person)
         == Balance(expenses, ps, userId, person) + Balance(expenses, qs, userId, person)
  {
    if qs == [] {
      assert ps + qs == ps;
    } else {
      var init := qs[..|qs| - 1];
      assert (ps + qs)[..|ps + qs| - 1] == ps + init;
      BalanceAppend(expenses, ps, init, userId, person);
    }
  }

  /** A new expense with an id that no row uses leaves the balance of the existing rows as it was. */
  lemma {:induction false} BalanceNewExpense(expenses: seq<Expense>, e: Expense, participants: seq<Participant>, userId: nat, person: string)
    requires AllReferToExpenses(expenses, participants)
    ensures Balance(expenses + [e], participants, userId, person) == Balance(expenses, participants, userId, person)
  {
    if participants != [] {
      var last := participants[|participants| - 1];
      OwnerOfAppend(expenses, e, last.expense_id);
      BalanceNewExpense(expenses, e, participants[..|participants| - 1], userId, person);
    }
  }

  /** The rows of one expense owned by `owner` add the share once per matching name, and only to the owner. */
  lemma {:induction false} BalanceOfRows(expenses: seq<Expense>, expenseId: nat, firstShareId: nat, names: seq<string>,
                                         share: real, owner: nat, userId: nat, person: string)
    requires OwnerOf(expenses, expenseId) == Some(owner)
    ensures Balance(expenses, ParticipantRows(expenseId, firstShareId, names, share), userId, person)
         == if owner == userId then MatchedShares(names, person, share) else 0.0
  {
    var rows := ParticipantRows(expenseId, firstShareId, names, share);
    if names == [] {
      assert rows == [];
    } else {
      var init, last := names[..|names| - 1], names[|names| - 1];
      assert names == init + [last];
      var before := ParticipantRows(expenseId, firstShareId, init, share);
      ParticipantRowsSnoc(expenseId, firstShareId, init, last, share);
      assert rows[..|rows| - 1] == before;
      BalanceOfRows(expenses, expenseId, firstShareId, init, share, owner, userId, person);
      var row := rows[|rows| - 1];
      assert row == Participant(firstShareId + |init|, expenseId, last, share);
    }
  }

  /** The share added once for each name matching `person`. */
  function MatchedShares(names: seq<string>, person: string, share: real): real {
    if names == [] then 0.0
    else MatchedShares(names[..|names| - 1], person, share) + (if EqualIgnoringCase(names[|names| - 1], person) then share else 0.0)
  }

  /** The matched shares are the share times the number of matching names. */
  lemma {:induction false} MatchedSharesCount(names: seq<string>, person: string, share: real)
    ensures MatchedShares(names, person, share) == CountMatches(names, person) as real * share
  {
    if names != [] {
      MatchedSharesCount(names[..|names| - 1], person, share);
    }
  }

  /**
   * A successful shared log raises the logging user's balance with `person`
   * by the share once for each participant name matching `person` (by
   * `MatchedSharesCount`, the share times their number). Every other user's
   * balance stays as it was.
   */
  lemma SharedLogBalance(expenses: seq<Expense>, participants: seq<Participant>, nextExpenseId: nat, nextShareId: nat,
                         userId: nat, totalAmount: real, itemName: string, names: seq<string>, now: int,
                         queryUser: nat, person: string)
    requires LedgerInvariant(expenses, participants, nextExpenseId, nextShareId)
    ensures var share := ShareAmount(totalAmount, |names|);
            var e := Expense(nextExpenseId, userId, itemName, totalAmount, Shared, now);
            Balance(expenses + [e], participants + ParticipantRows(nextExpenseId, nextShareId, names, share), queryUser, person)
            == Balance(expenses, participants, queryUser, person)
               + (if queryUser == userId then MatchedShares(names, person, share) else 0.0)
  {
    var e := Expense(nextExpenseId, userId, itemName, totalAmount, Shared, now);
    FreshExpenseId(expenses, nextExpenseId, nextExpenseId);
    SharedRowsBalance(expenses, participants, e, nextShareId, names, ShareAmount(totalAmount, |names|), queryUser, person);
  }

  lemma SharedRowsBalance(expenses: seq<Expense>, participants: seq<Participant>, e: Expense, firstShareId: nat,
                          names: seq<string>, share: real, queryUser: nat, person: string)
    requires AllReferToExpenses(expenses, participants)
    requires OwnerOf(expenses, e.expense_id).None?
    ensures Balance(expenses + [e], participants + ParticipantRows(e.expense_id, firstShareId, names, share), queryUser, person)
         == Balance(expenses, participants, queryUser, person)
            + (if queryUser == e.user_id then MatchedShares(names, person, share) else 0.0)
  {
    var rows := ParticipantRows(e.expense_id, firstShareId, names, share);
    BalanceAppend(expenses + [e], participants, rows, queryUser, person);
    BalanceNewExpense(expenses, e, participants, queryUser, person);
    OwnerOfAbsentAppend(expenses, e);
    BalanceOfRows(expenses + [e], e.expense_id, firstShareId, names, share, e.user_id, queryUser, person);
  }

  /** The owner of a fresh id, after appending the expense carrying it, is that expense's user. */
  lemma {:induction false} OwnerOfAbsentAppend(expenses: seq<Expense>, e: Expense)
    requires OwnerOf(expenses, e.expense_id).None?
    ensures OwnerOf(expenses + [e], e.expense_id) == Some(e.user_id)
  {
    if expenses == [] {
      assert expenses + [e] == [e];
    } else {
      assert (expenses + [e])[1..] == expenses[1..] + [e];
      OwnerOfAbsentAppend(expenses[1..], e);
    }
  }

  /** A personal expense has no participant rows and changes no balance. */
  lemma PersonalLogBalance(expenses: seq<Expense>, participants: seq<Participant>, nextExpenseId: nat, nextShareId: nat,
                           userId: nat, amount: real, itemName: string, now: int, queryUser: nat, person: string)
    requires LedgerInvariant(expenses, participants, nextExpenseId, nextShareId)
    ensures Balance(expenses + [Expense(nextExpenseId, userId, itemName, amount, Personal, now)], participants, queryUser, person)
         == Balance(expenses, participants, queryUser, person)
  {
    BalanceNewExpense(expenses, Expense(nextExpenseId, userId, itemName, amount, Personal, now), participants, queryUser, person);
  }

  /**
   * The two tables and the connection pool. `clientsInUse` counts the
   * pooled clients checked out and not yet released. `now` is the database
   * clock.
   */
  class Ledger {
    var expenses: seq<Expense>
    var participants: seq<Participant>
    var nextExpenseId: nat  // the next value of the expense_id serial
    var nextShareId: nat    // the next value of the share_id serial
    var clientsInUse: nat

    ghost predicate Valid()
      reads this`expenses, this`participants, this`nextExpenseId, this`nextShareId
    {
      LedgerInvariant(expenses, participants, nextExpenseId, nextShareId)
    }

    constructor ()
      ensures Valid() && expenses == [] && participants == [] && clientsInUse == 0
    {
      expenses, participants := [], [];
      nextExpenseId, nextShareId := 1, 1;
      clientsInUse := 0;
    }

    /** `logPersonalExpense`: one personal row, or the insert's error with nothing changed. */
    method LogPersonalExpense(userId: nat, amount: real, itemName: string, now: int, dbFails: bool)
      returns (r: Result<Expense, DbError>)
      requires Valid()
      modifies this
      ensures Valid()
      ensures participants == old(participants) && nextShareId == old(nextShareId) && clientsInUse == old(clientsInUse)
      ensures r.Success? <==> RowInsertError(itemName, amount, dbFails).None?
      ensures r.Success? ==>
                && r.value == Expense(old(nextExpenseId), userId, itemName, amount, Personal, now)
                && expenses == old(expenses) + [r.value]
                && nextExpenseId == old(nextExpenseId) + 1
      ensures r.Failure? ==>
                && r.error == RowInsertError(itemName, amount, dbFails).value
                && expenses == old(expenses) && nextExpenseId == old(nextExpenseId)
    {
      var err := RowInsertError(itemName, amount, dbFails);
      if err.Some? {
        return Failure(err.value);
      }
      var e := Expense(nextExpenseId, userId, itemName, amount, Personal, now);
      InvariantAppendExpense(expenses, participants, nextExpenseId, nextShareId, e);
      expenses, nextExpenseId := expenses + [e], nextExpenseId + 1;
      r := Success(e);
    }

    /**
     * `logSharedExpense`: within one transaction, the shared expense row and
     * one participant row per name, each with the equal share. Any failure
     * rolls both tables back to their state at BEGIN. The serial counters
     * are not rolled back: they never move backwards, and a success moves
     * them past the new rows. The client is released on every path.
     */
    method LogSharedExpense(userId: nat, totalAmount: real, itemName: string, names: seq<string>, now: int, fault: Fault)
      returns (r: Result<nat, DbError>)
      requires Valid()
      modifies this
      ensures Valid()
      ensures clientsInUse == old(clientsInUse)
      ensures nextExpenseId >= old(nextExpenseId) && nextShareId >= old(nextShareId)
      ensures r == SharedResult(old(nextExpenseId), totalAmount, itemName, names, fault)
      ensures r.Success? ==>
                && expenses == old(expenses) + [Expense(r.value, userId, itemName, totalAmount, Shared, now)]
                && participants == old(participants)
                     + ParticipantRows(r.value, old(nextShareId), names, ShareAmount(totalAmount, |names|))
                && nextExpenseId == old(nextExpenseId) + 1 && nextShareId == old(nextShareId) + |names|
      ensures r.Failure? ==> expenses == old(expenses) && participants == old(participants)
    {
      if fault == ConnectFails {
        return Failure(StoreFailure);
      }
      clientsInUse := clientsInUse + 1;
      // BEGIN: the state a ROLLBACK returns to.
      var savedExpenses, savedParticipants := expenses, participants;
      ghost var savedExpenseId, savedShareId := nextExpenseId, nextShareId;
      r := SharedTransaction(userId, totalAmount, itemName, names, now, fault);
      if r.Failure? {
        // ROLLBACK
        InvariantWithLaterCounters(savedExpenses, savedParticipants, savedExpenseId, savedShareId, nextExpenseId, nextShareId);
        expenses, participants := savedExpenses, savedParticipants;
      }
      // release, in `finally`
      clientsInUse := clientsInUse - 1;
    }

    /**
     * `logSharedExpense` as written: it asks `db.getClient()` for a client
     * before the `try`. That request throws, since the database module has
     * no `pool`, and the call rejects with nothing changed. With a client it
     * would run the transaction of `LogSharedExpense`.
     */
    method LogSharedExpenseAsWritten(userId: nat, totalAmount: real, itemName: string, names: seq<string>, now: int, fault: Fault)
      returns (r: Result<nat, DbError>)
      requires Valid()
      modifies this
      ensures Valid()
      ensures r == SharedResultAsWritten(DbExports, old(nextExpenseId), totalAmount, itemName, names, fault)
      ensures r.Failure? ==> expenses == old(expenses) && participants == old(participants) && clientsInUse == old(clientsInUse)
    {
      var client := GetClient(DbExports);
      if client.Failure? {
        return Failure(client.error);
      }
      r := LogSharedExpense(userId, totalAmount, itemName, names, now, fault);
    }

    /**
     * The statements of the transaction, from BEGIN to COMMIT. It stops at
     * the first failing statement. The caller rolls back what it inserted.
     */
    method SharedTransaction(userId: nat, totalAmount: real, itemName: string, names: seq<string>, now: int, fault: Fault)
      returns (r: Result<nat, DbError>)
      requires Valid()
      modifies this
      ensures Valid()
      ensures clientsInUse == old(clientsInUse)
      ensures nextExpenseId >= old(nextExpenseId) && nextShareId >= old(nextShareId)
      ensures r == SharedResult(old(nextExpenseId), totalAmount, itemName, names, fault)
      ensures r.Success? ==>
                && expenses == old(expenses) + [Expense(r.value, userId, itemName, totalAmount, Shared, now)]
                && participants == old(participants)
                     + ParticipantRows(r.value, old(nextShareId), names, ShareAmount(totalAmount, |names|))
                && nextExpenseId == old(nextExpenseId) + 1 && nextShareId == old(nextShareId) + |names|
    {
      if fault == ConnectFails || fault == BeginFails {
        return Failure(StoreFailure);
      }
      var err := RowInsertError(itemName, totalAmount, fault == ExpenseInsertFails);
      if err.Some? {
        return Failure(err.value);
      }
      var expenseId := InsertSharedExpense(userId, totalAmount, itemName, now);
      err := InsertParticipants(expenseId, names, ShareAmount(totalAmount, |names|), fault);
      if err.Some? {
        r := Failure(err.value);
      } else if fault == CommitFails {
        r := Failure(StoreFailure);
      } else {
        r := Success(expenseId);
      }
    }

    /** The expense insert of `logSharedExpense`: one shared row with the next expense id, which it returns. */
    method InsertSharedExpense(userId: nat, totalAmount: real, itemName: string, now: int) returns (expenseId: nat)
      requires Valid()
      modifies this
      ensures Valid()
      ensures expenseId == old(nextExpenseId) && nextExpenseId == expenseId + 1
      ensures expenses == old(expenses) + [Expense(expenseId, userId, itemName, totalAmount, Shared, now)]
      ensures OwnerOf(expenses, expenseId) == Some(userId)
      ensures participants == old(participants) && nextShareId == old(nextShareId) && clientsInUse == old(clientsInUse)
    {
      expenseId := nextExpenseId;
      var e := Expense(expenseId, userId, itemName, totalAmount, Shared, now);
      InvariantAppendExpense(expenses, participants, nextExpenseId, nextShareId, e);
      FreshExpenseId(expenses, nextExpenseId, expenseId);
      OwnerOfAbsentAppend(expenses, e);
      expenses, nextExpenseId := expenses + [e], nextExpenseId + 1;
    }

    /**
     * The participant loop of `logSharedExpense`: one row per name, in list
     * order, until an insert fails; the error is that of the first failing
     * insert.
     */
    method InsertParticipants(expenseId: nat, names: seq<string>, share: real, fault: Fault) returns (err: Option<DbError>)
      requires Valid() && OwnerOf(expenses, expenseId).Some?
      modifies this
      ensures Valid()
      ensures err == FirstInsertError(names, 0, share, fault)
      ensures err.None? ==> participants == old(participants) + ParticipantRows(expenseId, old(nextShareId), names, share)
      ensures nextShareId >= old(nextShareId)
      ensures err.None? ==> nextShareId == old(nextShareId) + |names|
      ensures expenses == old(expenses) && nextExpenseId == old(nextExpenseId) && clientsInUse == old(clientsInUse)
    {
      ghost var before, firstShareId := participants, nextShareId;
      ghost var inserted: seq<Participant> := [];
      var k := 0;
      while k < |names|
        invariant 0 <= k <= |names|
        invariant expenses == old(expenses) && nextExpenseId == old(nextExpenseId) && clientsInUse == old(clientsInUse)
        invariant nextShareId == firstShareId + k
        invariant participants == before + inserted
        invariant RowsFor(inserted, expenseId, firstShareId, names[..k], share)
        invariant Valid()
        invariant FirstInsertError(names, 0, share, fault) == FirstInsertError(names, k, share, fault)
      {
        err := RowInsertError(names[k], share, fault == ParticipantInsertFails(k));
        if err.Some? {
          return;
        }
        var row := InsertParticipant(expenseId, names[k], share);
        assert (inserted + [row])[..k] == inserted && names[..k + 1][..k] == names[..k];
        AppendAssociates(before, inserted, row);
        inserted := inserted + [row];
        k := k + 1;
      }
      assert names[..k] == names;
      RowsForRows(inserted, expenseId, firstShareId, names, share);
      err := None;
    }

    /** One participant insert: the row with the next share id. */
    method InsertParticipant(expenseId: nat, name: string, share: real) returns (row: Participant)
      requires Valid() && OwnerOf(expenses, expenseId).Some?
      modifies this
      ensures Valid()
      ensures row == Participant(old(nextShareId), expenseId, name, share)
      ensures participants == old(participants) + [row] && nextShareId == old(nextShareId) + 1
      ensures expenses == old(expenses) && nextExpenseId == old(nextExpenseId) && clientsInUse == old(clientsInUse)
    {
      row := Participant(nextShareId, expenseId, name, share);
      InvariantAppendParticipant(expenses, participants, nextExpenseId, nextShareId, row);
      participants, nextShareId := participants + [row], nextShareId + 1;
    }

    /** `queryBalance`: the balance, or the query's error. */
    method QueryBalance(userId: nat, person: string, dbFails: bool) returns (r: Result<real, DbError>)
      ensures r == if dbFails then Failure(StoreFailure) else Success(Balance(expenses, participants, userId, person))
    {
      if dbFails {
        return Failure(StoreFailure);
      }
      r := Success(Balance(expenses, participants, userId, person));
    }
  }
}
