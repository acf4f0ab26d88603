# ExpenseTrack core service in Dafny

ExpenseTrack is a chat bot for tracking expenses. Its core service receives
the entities a language service found in a user's message and folds them into
one record. It keeps a short-lived conversation state per user in a key-value
cache. It stores users, personal and shared expenses and trackable items in a
relational database, and it formats the replies. This project models that
service and proves what each operation promises:

- `EntityExtractor` (`entity_extractor.dfy`) models the entity extractor as
  functions. It covers the spelled-number table, the leftmost `\d+(\.\d+)?`
  scan of `parseAmount`, and the first-AMOUNT / first-ITEM / all-PERSON fold
  of `extractEntities`.
- `MessageService` (`message_service.dfy`) models the fixed onboarding texts
  and the numbered item listing.
- `StateService` (`state_service.dfy`) models the cache as a
  `map<string, Entry>` with expiry instants. A `StateStore` class holds it.
- `UserService` (`user_service.dfy`) models the users table. A class
  `UserTable` holds the table as a `seq<User>` and the next serial id. It has
  find-or-create by phone number and the status update.
- `ExpenseService` (`expense_service.dfy`) models the `expenses` and
  `sharedParticipants` tables in a class `Ledger`, with a count of
  checked-out pool clients. The shared log is meant to be a transaction:
  BEGIN, one expense insert, a participant-insert loop, then COMMIT, or
  ROLLBACK and release. As written it never gets that far: its request for
  a pool client always throws (see "## Findings"). The balance query is a
  sum over the participant rows.
- `ItemService` (`item_service.dfy`) models the trackable-items table in a
  class `ItemTable`. The listing is a stable sort by creation time over the
  user's rows.
- Shared helpers:
  - `Db` (`db.dfy`) holds the database errors, the column limits from the
    migrations (`varchar(15)`, `varchar(100)`, `decimal(10,2)`), and the
    names the database module exports.
  - `Text` (`text.dfy`) holds ASCII digits, decimal rendering, ASCII
    lower-casing, case-insensitive equality, `join`, and prefixes/suffixes.
  - `Wrappers` (`wrappers.dfy`) holds `Option` and `Result`.

Every store operation takes its clock (`now`) and whether the store call
fails (`dbFails`, `storeFails`, or an injected `Fault` point for the shared
transaction) as parameters. Each table operation is specified by a function on
the old table: `FindOrCreate`, `UpdateStatus`, `SharedResult`/`ParticipantRows`,
`Balance`, `ItemNames`. The method's `ensures` ties the new state and the result
to that function. The lemmas prove what the service promises about it.

Two facts about the code that shape the model:

- The `user_status` enum of the migration has only `pending_onboarding`,
  `active` and `disabled`, so `updateUserStatus` with any other label fails
  with `InvalidEnumValue`.
- `stateService.js` stores and returns one string per user, not a
  structured record.

## Model

| member | source | states |
|---|---|---|
| Text.Lower | core-service/src/utils/entityExtractor.js:17 | `toLowerCase` keeps the length and lower-cases each ASCII letter, position by position |
| Text.DecimalString | core-service/src/services/stateService.js:11 | the `${userId}` rendering of an id is a non-empty string of digits |
| Text.NatValueOfDecimal | core-service/src/services/stateService.js:11 | reading the decimal rendering of an id back gives the id |
| Text.EqualIgnoringCase | core-service/src/services/expenseService.js:86 | `ILIKE` without wildcards: equal strings match, and matching strings have the same length |
| Text.EqualIgnoringCaseIff | core-service/src/services/expenseService.js:86 | the case-insensitive comparison used for `ILIKE` holds exactly when the lower-cased strings are equal |
| Text.Join | core-service/src/services/messageService.js:52 | `join` of no parts is empty, and a join of parts starts with the first part |
| Text.JoinSnoc | core-service/src/services/messageService.js:52 | `join('\n')` of one more line appends the separator and that line |
| Text.JoinEndsWithLast | core-service/src/services/messageService.js:52 | a join of a non-empty list ends with its last part |
| Db.NameInsertError | core-service/migrations/1757174769748_create-users-and-trackableitems.js:24 | an insert with a name column succeeds exactly when the store does not fail and the name fits `varchar(100)` |
| Db.AmountError | core-service/migrations/1758040017161_CreateExpensesAndSharedParticipants.js:19 | an amount fits `decimal(10,2)` exactly when its magnitude stays below 99999999.995, which rounds to 10^8; otherwise the error is a numeric overflow |
| Db.RowInsertError | core-service/migrations/1758040017161_CreateExpensesAndSharedParticipants.js:18-19 | an insert with a name and an amount column succeeds exactly when the store does not fail, the name fits `varchar(100)` and the amount fits `decimal(10,2)` |
| Db.GetClient | core-service/src/services/expenseService.js:100 | `db.pool.connect()` yields a client exactly when the database module exports `pool`, and otherwise throws |
| EntityExtractor.WrittenNumber | core-service/src/utils/entityExtractor.js:10-20 | the twelve table words with their values; every value is positive, so the truthiness test succeeds exactly on table words |
| EntityExtractor.TableWordsHaveNoDigits | core-service/src/utils/entityExtractor.js:17-20 | a string holding a digit never hits the table after lower-casing |
| EntityExtractor.FirstDigit | core-service/src/utils/entityExtractor.js:23 | the regex scan starts at the first digit: everything before it is a non-digit |
| EntityExtractor.RunEnd | core-service/src/utils/entityExtractor.js:23 | `\d+` is greedy: the run consists of digits and is followed by a non-digit or the end |
| EntityExtractor.FractionAt | core-service/src/utils/entityExtractor.js:23 | `(\.\d+)?` is taken exactly when a dot and a digit follow; it is then the maximal digit run after the dot |
| EntityExtractor.MatchAt | core-service/src/utils/entityExtractor.js:23 | the match at a digit has a non-empty whole part of digits and a fraction of digits |
| EntityExtractor.MatchNumber | core-service/src/utils/entityExtractor.js:23-24 | there is a match exactly when the string holds a digit; its whole part is a non-empty digit run |
| EntityExtractor.FractionValue | core-service/src/utils/entityExtractor.js:25 | the value of the fraction digits lies in [0, 1) |
| EntityExtractor.MatchValue | core-service/src/utils/entityExtractor.js:25 | `parseFloat` of a match lies between its whole part and the next integer, and is the whole part when there is no fraction |
| EntityExtractor.ParseAmount | core-service/src/utils/entityExtractor.js:6-29 | null for the empty string; the table value for a table word in any case; null exactly when the string is empty or is neither a table word nor holds a digit; never negative |
| EntityExtractor.ParseWithDigits | core-service/src/utils/entityExtractor.js:23-26 | for a string with a digit, the amount is `parseFloat` of the leftmost match |
| EntityExtractor.ParseAllDigits | core-service/src/utils/entityExtractor.js:23-25 | a string of digits parses to the number it denotes |
| EntityExtractor.ParseDecimal | core-service/src/utils/entityExtractor.js:23-25 | parsing the decimal rendering of any natural number gives that number back |
| EntityExtractor.MatchDecimalWithFraction | core-service/src/utils/entityExtractor.js:23 | in `d.f` with digit runs `d` and `f` the match is `d` with fraction `f` |
| EntityExtractor.ParseDigitsWithFraction | core-service/src/utils/entityExtractor.js:23-25 | `d.f` parses to the value of `d` plus 0.f |
| EntityExtractor.ParseDigitsWithoutFraction | core-service/src/utils/entityExtractor.js:23-25 | a digit run followed by text that starts with neither a digit nor a dot and a digit parses to the number the run denotes |
| EntityExtractor.MatchIgnoresLeadingText | core-service/src/utils/entityExtractor.js:23 | a digit-free prefix does not change the leftmost match |
| EntityExtractor.ParseIgnoresLeadingText | core-service/src/utils/entityExtractor.js:23-26 | a digit-free prefix does not change the parsed amount |
| EntityExtractor.ParseWord | core-service/src/utils/entityExtractor.js:17-19 | a string whose lower case is a table word parses to that word's value |
| EntityExtractor.ParseFiveExample | core-service/src/utils/entityExtractor.js:17-19 | "Five" parses to 5 |
| EntityExtractor.ParseThousandExample | core-service/src/utils/entityExtractor.js:17-19 | "THOUSAND" parses to 1000 |
| EntityExtractor.ParseDecimalExample | core-service/src/utils/entityExtractor.js:23-25 | "12.5x" parses to 12.5 |
| EntityExtractor.FractionExampleWithPrefix | core-service/src/utils/entityExtractor.js:23-25 | "abc" before "12.5x" is skipped |
| EntityExtractor.ParseFractionExample | core-service/src/utils/entityExtractor.js:23-25 | "abc12.5x" parses to 12.5 |
| EntityExtractor.ParseTrailingDotExample | core-service/src/utils/entityExtractor.js:23-25 | "1." parses to 1: a dot with no digit after it is not taken |
| EntityExtractor.ParseSignExample | core-service/src/utils/entityExtractor.js:23-25 | "-7" parses to 7: the sign is not part of the match |
| EntityExtractor.Find | core-service/src/utils/entityExtractor.js:44 | `find` gives nothing exactly when no tuple has the tag, and otherwise a tuple of the list with that tag |
| EntityExtractor.Values | core-service/src/utils/entityExtractor.js:56 | `filter`/`map` gives only values of tuples with the tag, no more of them than tuples |
| EntityExtractor.ExtractEntities | core-service/src/utils/entityExtractor.js:39-41 | an absent or empty tuple list gives `{null, null, []}` |
| EntityExtractor.FindAppend | core-service/src/utils/entityExtractor.js:44 | the first tuple with a tag in `a + b` is the one in `a` if there is one, else the one in `b` |
| EntityExtractor.ValuesAppend | core-service/src/utils/entityExtractor.js:56 | filtering distributes over concatenation |
| EntityExtractor.AmountFromFirstOnly | core-service/src/utils/entityExtractor.js:44-47 | the amount is the parse of the first AMOUNT tuple, whatever later AMOUNT tuples hold |
| EntityExtractor.ItemFromFirstOnly | core-service/src/utils/entityExtractor.js:50-53 | the item is the first ITEM tuple's value, verbatim |
| EntityExtractor.MissingTagsGiveNothing | core-service/src/utils/entityExtractor.js:44-53 | without an ITEM tuple the item is null; without an AMOUNT tuple the amount is null |
| EntityExtractor.PersonsInOrder | core-service/src/utils/entityExtractor.js:56 | the persons of a concatenation are the persons of each part, in order, duplicates kept |
| EntityExtractor.OnePerson | core-service/src/utils/entityExtractor.js:56 | one PERSON tuple contributes exactly its value |
| EntityExtractor.OtherTagsIgnored | core-service/src/utils/entityExtractor.js:44-56 | a tuple with any other tag changes no field of the result |
| EntityExtractor.ExtractThree | core-service/src/utils/entityExtractor.js:32-59 | an AMOUNT, an ITEM and a PERSON tuple give the parsed amount, the item and the one person |
| EntityExtractor.ExtractExample | core-service/src/utils/entityExtractor.js:32-59 | `[AMOUNT 500, ITEM groceries, PERSON Kamal]` gives `{500, "groceries", ["Kamal"]}` |
| EntityExtractor.FiveHundred | core-service/src/utils/entityExtractor.js:23-25 | "500" parses to 500 |
| MessageService.GetOnboardingMessage | core-service/src/services/messageService.js:6-25 | the reply is the welcome text, whatever the phone number |
| MessageService.OnboardingIgnoresPhone | core-service/src/services/messageService.js:6-22 | any two phone numbers get the same text |
| MessageService.GetOnboardingSuccessMessage | core-service/src/services/messageService.js:27-39 | the reply is the fixed confirmation text |
| MessageService.ItemLine | core-service/src/services/messageService.js:51 | the line is the decimal digits of `index + 1`, then `". "`, then the name |
| MessageService.NumberedLines | core-service/src/services/messageService.js:51 | line k is `k+1 + ". " + name k`, one line per item, in input order |
| MessageService.FormatItemsList | core-service/src/services/messageService.js:46-53 | the reply is the hint exactly for an absent or empty list; otherwise it starts with the header |
| MessageService.FormatEmpty | core-service/src/services/messageService.js:47-49 | an absent or empty list gives the "no items yet" hint |
| MessageService.FormatHintIffEmpty | core-service/src/services/messageService.js:46-53 | the hint is returned exactly for an absent or empty list |
| MessageService.FormatOne | core-service/src/services/messageService.js:51-52 | one item gives the header and `1. name`, with no trailing newline |
| MessageService.FormatSnoc | core-service/src/services/messageService.js:51-52 | one more item appends `\n`, its number and its name to the listing |
| MessageService.ListingSnoc | core-service/src/services/messageService.js:52 | the joined numbered lines grow by one separator and one line |
| MessageService.NumberedLinesSnoc | core-service/src/services/messageService.js:51 | numbering one more name adds one line carrying the next number |
| MessageService.FormatShape | core-service/src/services/messageService.js:51-52 | a non-empty listing starts with the header and ends with `". " +` the last name |
| MessageService.ItemLineEnds | core-service/src/services/messageService.js:51 | each line ends with `". "` and its name |
| StateService.StateKeyInjective | core-service/src/services/stateService.js:11 | distinct user ids have distinct keys `user:<id>:state` |
| StateService.StateKey | core-service/src/services/stateService.js:11 | the key is `user:`, then the decimal id, then `:state` |
| StateService.Get | core-service/src/services/stateService.js:28 | a read finds a value exactly when the key is present and not expired |
| StateService.SetWithExpiry | core-service/src/services/stateService.js:13 | a write adds or replaces that key only |
| StateService.Delete | core-service/src/services/stateService.js:44 | a delete removes that key only |
| StateService.StateOf | core-service/src/services/stateService.js:28-30 | the state read is never empty: the stored string, or 'IDLE' when absent, expired or empty |
| StateService.SetThenGetBeforeExpiry | core-service/src/services/stateService.js:3-30 | before 300 seconds have passed, a written state is read back, with "" read as 'IDLE' |
| StateService.SetThenGetAfterExpiry | core-service/src/services/stateService.js:3-30 | from 300 seconds on, a written state reads as 'IDLE' |
| StateService.ClearThenGet | core-service/src/services/stateService.js:41-49 | after a clear the user reads as 'IDLE' |
| StateService.OtherUsersUnaffected | core-service/src/services/stateService.js:10-49 | writing or clearing one user's state leaves every other user's state as it was |
| StateService.StateStore.SetUserState | core-service/src/services/stateService.js:10-18 | the cache gets the state with expiry now + 300, or is left as it was when the write fails (the error is swallowed) |
| StateService.StateStore.GetUserState | core-service/src/services/stateService.js:25-35 | the remembered state, or 'IDLE' when there is none or the read fails; never empty |
| StateService.StateStore.ClearUserState | core-service/src/services/stateService.js:41-49 | the key is removed, or the cache is left as it was when the delete fails |
| UserService.StatusLabel | core-service/migrations/1757174769748_create-users-and-trackableitems.js:6 | every status is stored as one of the three enum labels |
| UserService.ParseStatus | core-service/migrations/1757174769748_create-users-and-trackableitems.js:6 | a label accepted by the `user_status` enum names that status |
| UserService.ParseStatusLabel | core-service/migrations/1757174769748_create-users-and-trackableitems.js:6 | every status's label is accepted and names it |
| UserService.FindByPhone | core-service/src/services/userService.js:18-22 | the lookup finds nothing exactly when no row has the phone number, and otherwise a row with it |
| UserService.FindOrCreate | core-service/src/services/userService.js:8-33 | a failed call leaves the rows and the serial as they were; a call uses at most one serial value |
| UserService.CountPhoneAppend | core-service/src/services/userService.js:26 | an inserted row adds one to its phone number's count only |
| UserService.FindAfterAppend | core-service/src/services/userService.js:18-27 | after inserting a row for a new phone number, the lookup finds that row |
| UserService.UniquePhoneCount | core-service/migrations/1757174769748_create-users-and-trackableitems.js:10 | with unique phone numbers, a phone number that is found occurs exactly once |
| UserService.FindOrCreateCases | core-service/src/services/userService.js:8-33 | a call fails and changes nothing, or returns the existing row and changes nothing, or inserts exactly one `pending_onboarding` row with the next id and returns it |
| UserService.FindOrCreatePreserves | core-service/src/services/userService.js:10-27 | unique phone numbers, unique ids below the serial, and phone numbers within `varchar(15)` are kept |
| UserService.FindOrCreateIdempotent | core-service/src/services/userService.js:18-27 | a second call with the same phone returns the same user, inserts nothing, and the table holds one row for that phone |
| UserService.WithStatus | core-service/src/services/userService.js:42 | the UPDATE changes the status of the rows with the id and nothing else |
| UserService.FindById | core-service/src/services/userService.js:46 | `rows[0]` is absent exactly when no row has the id, and otherwise a row with it |
| UserService.UpdateStatus | core-service/src/services/userService.js:41-51 | the table keeps its size; a failure leaves the rows as they were; a success needs a label of the enum |
| UserService.UpdateStatusEffect | core-service/src/services/userService.js:41-46 | a successful update changes only that user's status and returns that row with the new status, or nothing when no row has the id |
| UserService.FindByIdWithStatus | core-service/src/services/userService.js:42-46 | the returned row is the old row with the new status |
| UserService.UpdateStatusFailures | core-service/src/services/userService.js:47-50 | a database error or a label outside the enum is reported and leaves the rows as they were |
| UserService.UpdateStatusPreserves | core-service/src/services/userService.js:42 | an update keeps the table invariant |
| UserService.UserTable.FindOrCreateUser | core-service/src/services/userService.js:8-33 | the new table, serial and result are those of `FindOrCreate` on the old table; the invariant is kept |
| UserService.UserTable.UpdateUserStatus | core-service/src/services/userService.js:41-51 | the new table and result are those of `UpdateStatus` on the old table; the serial is unchanged |
| ExpenseService.ShareAmount | core-service/src/services/expenseService.js:51 | the share times the number of sharers (the participants plus the logging user) is the total |
| ExpenseService.ShareFits | core-service/migrations/1758040017161_CreateExpensesAndSharedParticipants.js:38 | a total that fits `decimal(10,2)` gives a share that fits `share_amount decimal(10,2)` |
| ExpenseService.ParticipantRows | core-service/src/services/expenseService.js:53-59 | one row per name in list order, each with the new expense id, the share and consecutive share ids |
| ExpenseService.ParticipantRowsSnoc | core-service/src/services/expenseService.js:53-59 | one more name adds one row at the end |
| ExpenseService.RowsTotal | core-service/src/services/expenseService.js:53-59 | the inserted rows' shares add up to the number of names times the share |
| ExpenseService.SharesCoverTotal | core-service/src/services/expenseService.js:50-59 | the participants' shares plus the logging user's share are the total amount |
| ExpenseService.FirstInsertErrorNone | core-service/src/services/expenseService.js:53-59 | the loop meets no error exactly when every participant insert succeeds |
| ExpenseService.FirstInsertError | core-service/src/services/expenseService.js:53-59 | with no participant left the loop meets no error |
| ExpenseService.SharedSucceedsIff | core-service/src/services/expenseService.js:35-72 | the shared log succeeds exactly when connect, BEGIN and COMMIT succeed, the expense insert succeeds with a name within `varchar(100)` and a total within `decimal(10,2)`, and every participant insert succeeds with a name within `varchar(100)`; it then returns the new expense id |
| ExpenseService.SharedResult | core-service/src/services/expenseService.js:35-72 | a success returns the new expense id; a failure of connect, BEGIN, the expense insert or COMMIT fails the call |
| ExpenseService.SharedResultAsWritten | core-service/src/services/expenseService.js:36 | as written, the result is the intended transaction's when the database module exports `pool`, and `PoolMissing` when it does not |
| ExpenseService.SharedLogAsWrittenFails | core-service/src/database/db.js:18-21 | as written, every shared log fails with `PoolMissing`, whatever its arguments |
| ExpenseService.SharedLogAsWrittenCounterexample | core-service/src/services/expenseService.js:35-72 | sharing 1000 for "taxi" with "Kamal" fails as written and succeeds with expense id 1 as intended |
| ExpenseService.Counts | core-service/src/services/expenseService.js:83-86 | a participant row counts exactly when its name equals the person after lower-casing and its expense exists and belongs to the user |
| ExpenseService.OwnerOf | core-service/src/services/expenseService.js:85 | the join finds an owner exactly when some expense has the id, and that owner is that expense's user |
| ExpenseService.OwnerOfAppend | core-service/src/services/expenseService.js:85 | a new expense does not change the owner of an existing expense id |
| ExpenseService.OwnerOfAbsentAppend | core-service/src/services/expenseService.js:41-47 | the owner of the new expense id is the logging user |
| ExpenseService.FreshExpenseId | core-service/src/services/expenseService.js:41-47 | the next serial value is not the id of any existing expense |
| ExpenseService.InvariantAppendParticipant | core-service/src/services/expenseService.js:54-58 | a participant row with the next share id and an existing expense keeps the table invariant |
| ExpenseService.InvariantAppendExpense | core-service/src/services/expenseService.js:41-47 | an expense row with the next expense id keeps the table invariant |
| ExpenseService.InvariantWithLaterCounters | core-service/src/services/expenseService.js:65-68 | the tables restored by ROLLBACK satisfy the invariant with the advanced serials |
| ExpenseService.BalanceWithoutMatches | core-service/src/services/expenseService.js:90-91 | with no counted row the balance is 0 |
| ExpenseService.Balance | core-service/src/services/expenseService.js:81-91 | the sum over the counted rows is never negative when no share is negative |
| ExpenseService.BalanceIgnoresCase | core-service/src/services/expenseService.js:86 | names equal up to case give the same balance |
| ExpenseService.BalanceAppend | core-service/src/services/expenseService.js:83-86 | the sum over two row lists is the sum of the sums |
| ExpenseService.BalanceNewExpense | core-service/src/services/expenseService.js:83-86 | a new expense row without participants changes no balance |
| ExpenseService.BalanceOfRows | core-service/src/services/expenseService.js:83-86 | one expense's rows add the share once per matching name, and only to that expense's owner |
| ExpenseService.MatchedSharesCount | core-service/src/services/expenseService.js:83 | the added amount is the share times the number of matching names |
| ExpenseService.SharedRowsBalance | core-service/src/services/expenseService.js:41-59 | a new expense and its rows raise only its owner's balance, by the matched shares |
| ExpenseService.SharedLogBalance | core-service/src/services/expenseService.js:35-96 | a successful shared log raises the logging user's balance with a person by the share once per matching name; every other user's balance is unchanged |
| ExpenseService.PersonalLogBalance | core-service/src/services/expenseService.js:10-19 | a personal expense changes no balance |
| ExpenseService.Ledger.LogPersonalExpense | core-service/src/services/expenseService.js:10-24 | one `personal` row with the user, amount and item and the next id exactly when the store does not fail, the item fits `varchar(100)` and the amount fits `decimal(10,2)`; otherwise the insert's error with the tables unchanged |
| ExpenseService.Ledger.LogSharedExpense | core-service/src/services/expenseService.js:35-72 | the result is `SharedResult`; on success one `shared` row and the participant rows are added, and the expense and share serials move past them; on failure both tables are as before; the serials never move backwards, so a ROLLBACK does not return them; the client is released on every path |
| ExpenseService.Ledger.LogSharedExpenseAsWritten | core-service/src/services/expenseService.js:35-72 | the result is `SharedResultAsWritten`; on failure both tables and the count of checked-out clients are as before |
| ExpenseService.Ledger.SharedTransaction | core-service/src/services/expenseService.js:38-63 | from BEGIN to COMMIT: the result is `SharedResult`; on success the rows are added and the serials move past them; the serials never move backwards |
| ExpenseService.Ledger.InsertSharedExpense | core-service/src/services/expenseService.js:41-47 | one `shared` row with the next expense id, which is returned and now owned by the user |
| ExpenseService.Ledger.InsertParticipants | core-service/src/services/expenseService.js:53-59 | the loop's error is the first failing insert's; without one, exactly the `ParticipantRows` for the names are appended and the share serial advances by one per name |
| ExpenseService.Ledger.InsertParticipant | core-service/src/services/expenseService.js:54-58 | one participant row with the next share id |
| ExpenseService.Ledger.QueryBalance | core-service/src/services/expenseService.js:81-96 | the balance over the current tables, or the query's error |
| ItemService.OwnItems | core-service/src/services/itemService.js:32 | `WHERE user_id = $1` keeps exactly the user's rows, each as often as in the table, and no other user's |
| ItemService.InsertByTime | core-service/src/services/itemService.js:32 | inserting into sorted rows keeps them sorted and adds exactly that row |
| ItemService.SortByTime | core-service/src/services/itemService.js:32 | `ORDER BY created_at ASC` gives a sorted permutation of the rows |
| ItemService.Names | core-service/src/services/itemService.js:32 | `SELECT item_name` gives one name per row, in order |
| ItemService.ListedItemsSpec | core-service/src/services/itemService.js:31-42 | the listing holds exactly the user's rows, each as often as in the table, and no other user's, in ascending `created_at` order |
| ItemService.ListedItems | core-service/src/services/itemService.js:32 | the listing is sorted by `created_at` and holds each of the user's rows as often as the table does, and no other user's |
| ItemService.ItemNames | core-service/src/services/itemService.js:32 | one name per listed row, in the listing's order |
| ItemService.InsertLatest | core-service/src/services/itemService.js:32 | a row newer than every sorted row goes last |
| ItemService.AddedItemListedLast | core-service/src/services/itemService.js:9-32 | with a later clock, a user's new item is listed last, after the user's earlier items |
| ItemService.OtherUsersListingUnchanged | core-service/src/services/itemService.js:9-32 | another user's new item does not change a user's listing |
| ItemService.NamesSnoc | core-service/src/services/itemService.js:32 | one more row adds its name at the end |
| ItemService.ItemTable.AddItem | core-service/src/services/itemService.js:9-24 | one row for the user with the name, the clock and the next id, exactly when the insert succeeds; otherwise the error with the table unchanged |
| ItemService.ItemTable.GetItems | core-service/src/services/itemService.js:31-42 | the user's item names in creation order, or the query's error |

## Left out

- The conversation state machine, slot filling, onboarding and the "yes" confirmation are not modelled. `core-service/src/controllers/webhook.controller.js` only acknowledges the request, so these steps are not in the code.
- The WhatsApp gateway, the language service and its HTTP client, and the Express application and routes are not part of this model. They are I/O and plumbing.
- Connection setup for the cache and the database pool is not modelled, and neither are reconnects or process exit. A connection failure is the `StoreFailure` error or a `Fault` value.
- Migrations enter only as constraints:
  - unique phone numbers;
  - `varchar(15)` phone numbers;
  - `varchar(100)` names;
  - the `user_status` labels.
- Logging is not modelled.
- Concurrency is not modelled: no races on a cache key, no concurrent inserts of the same phone number, and no pool exhaustion.
- Amounts are `real`. IEEE-754 rounding of `parseFloat` and of the share division is not modelled.
- ExpenseService.Ledger.LogPersonalExpense: stores the amount as given. `decimal(10,2)` rounds it to two decimals on insert, and that rounding is not modelled. Its overflow is.
- ExpenseService.Ledger.LogSharedExpense: stores the total and the share as given, without rounding them to two decimals. So the shares need not add up to the stored total. Overflow of either column is modelled.
- Db.NameInsertError: rejects every name longer than its `varchar(n)` column. PostgreSQL instead truncates a value whose excess characters are all spaces, and the model does not. The same holds for phone numbers in the users table.
- `ILIKE` is modelled as ASCII case-insensitive equality. The `%` and `_` wildcards in a person name are not modelled.
- `toLowerCase` is modelled as ASCII lower-casing. Unicode case folding is not modelled.
- The spelled-number table is exactly its twelve entries. A lookup hitting an inherited object property such as "constructor" is not modelled.
- Entity values are strings. An entity whose value is missing or not a string is not modelled. The entity list itself may be absent or empty.
- Rows with equal `created_at` are listed in table order. SQL leaves their order unspecified.
- The item queries name the table `"trackableItems"` and the migration creates `TrackableItems`. The model treats them as one table.
- The user queries name the table `users` (`userService.js:9,11,42`) and the migration creates the quoted `Users`. PostgreSQL folds the unquoted name to `users`, so as written these queries would not find the table. The model treats them as one table.
- Foreign keys to the users table are not enforced: expenses and items accept any user id.
- A failing insert consumes no serial value here. Postgres may consume one. A ROLLBACK does not roll the serials back, as in Postgres.
- A failure of ROLLBACK itself is not modelled.
- Clocks and failures are parameters:
  - the cache's and the database's clocks are the `now` argument;
  - each store call's failure is a boolean argument;
  - the point where the shared transaction fails is a `Fault` argument.
- The state store holds one string per user, as in `stateService.js`. It has no context record.
- A user's status is one of the three enum values. Status labels are checked only by `updateUserStatus`.

## Findings

| source | as written | input that shows it | evidently intended | confidence | as-written member | corrected member |
|---|---|---|---|---|---|---|
| core-service/src/services/expenseService.js:100 | `db.getClient` is `db.pool.connect()`, but `db.js` exports only `query`, so reading `db.pool.connect` throws a TypeError before the `try`: every shared log rejects, with no BEGIN, ROLLBACK or release | `logSharedExpense(1, 1000, "taxi", ["Kamal"])` on a working database | a pool client runs the BEGIN/insert/COMMIT transaction and returns the new expense id | not executed | ExpenseService.SharedLogAsWrittenCounterexample | ExpenseService.Ledger.LogSharedExpense |
