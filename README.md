# Core banking API: the transaction controller

This project models the money-movement handlers of the banking back-end's
transaction controller. It covers deposits and withdrawals, transfers between
two accounts, status changes of ledger entries, and the per-account history
query. It works over two stores:

- the account store, a map from account number to an account row (customer,
  type, balance, overdraft limit, open date, status, last-updated time);
- the ledger, a sequence of ledger rows (id, account, type, amount,
  timestamp, reference number, status, last-updated time), with the next
  value of the ledger's identity column.

Money is held in integer cents, because every money column is `numeric(15,2)`.
Timestamps are integer ticks; an unset timestamp is `DefaultTime`.

Files:

- `models.dfy` (module `Models`): the rows, the column limits of the schema,
  the error kinds and the result type.
- `history.dfy` (module `History`): `GetTransactionsByAccount` as a pure
  filter, projection and sort, with its properties.
- `ledger.dfy` (module `Ledger`): each handler as a function from the stores
  before a request to the handler's answer and the stores after it. The
  function's contract states the handler's rules. Saving changes is the
  function `Commit`: every change is written, or none is.
- `ledger_properties.dfy` (module `LedgerProperties`): properties that relate
  several operations, or an operation to the total money held by the bank.
- `controller.dfy` (module `Controller`): the class `TransactionController`.
  Its fields are the account map, the ledger sequence and the identity counter.
  Its four handlers update those fields in place, and each is proved equal to
  its `Ledger` function. The invariant `Valid` is kept by every handler.
- `key_lookup.dfy` (module `KeyLookup`): the primary-key lookup of
  `UpdateTransaction` and `SoftDelete` as the code calls it (see "## Findings").

Nondeterministic inputs are parameters. `DateTime.UtcNow` becomes one `Time`
parameter per clock read (a transfer reads the clock three times). `Guid.NewGuid()`
becomes one reference-number parameter per call. The unique index on reference
numbers is checked when the changes are saved, as the database does. A
repeated reference number ends in `StorageFailure` and changes neither store.

The code departs from the usual banking rules (overdraft limits, closed
accounts, positive amounts, one timestamp per transfer). The model follows the
code:

- Neither a withdrawal nor a transfer reads the overdraft limit or the account
  status. The only check is `balance >= amount`, so a closed account takes
  deposits and withdrawals. See `OverdraftLimitIgnored` and `ClosedAccountAccepted`.
- A deposit or withdrawal does not validate its amount. A negative deposit
  lowers the balance (`NegativeDepositLowersBalance`). After a successful
  withdrawal the balance is never negative, whatever the amount's sign.
- The two legs of a transfer take their timestamps from separate clock reads.
  The account rows take theirs from a third read. The legs' timestamps are
  therefore not required to be equal.
- A deposit or withdrawal does not change the account's last-updated time.
  A transfer does.
- `UpdateTransaction` accepts any status text. Only the 10-character column
  limits it. Neither status change reverses a balance.
- There is no locking and no lock ordering. Each handler is one database
  transaction.

## Model

| member | source | states |
|---|---|---|
| `Ledger.ApplyTransaction` | Controllers/TransactionController.cs:125-158 | A missing account gives AccountNotFound. A type other than Deposit or Withdrawal gives UnsupportedType. A withdrawal above the balance gives InsufficientBalance. Each refusal leaves both stores unchanged. A success changes only that account's balance, by +amount for a deposit and -amount for a withdrawal. A withdrawal leaves a balance that is not negative. It appends exactly one row with the next id, the given timestamp, a fresh reference number and unset last-updated time. |
| `Ledger.ApplyTransfer` | Controllers/TransactionController.cs:164-215 | Invalid request attributes give InvalidRequest. Equal accounts give SameAccounts. A missing account gives AccountNotFound. A source balance below the amount gives InsufficientFunds. The checks run in that order, and each refusal leaves both stores unchanged. A success subtracts the amount from the source and adds it to the destination. The sum of the two balances is kept, and both last-updated times are set. No other account changes. It appends a debit row on the source and a credit row on the destination, both Transfer/Completed with the same amount. Their reference numbers are fresh and distinct, and it returns the debit's. |
| `Ledger.TransactionSucceedsExactlyWhen` | Controllers/TransactionController.cs:133-150 | On a consistent store, a deposit or withdrawal succeeds exactly when these hold: the account exists; the type is Deposit, or Withdrawal with balance >= amount; the new balance and the amount fit `numeric(15,2)`; the status fits its column; the reference number fits and is fresh. |
| `Ledger.TransactionKeepsValid` | Controllers/TransactionController.cs:146-150 | A deposit or withdrawal keeps the store consistent. |
| `Ledger.ValidTransferRequest` | Controllers/TransactionController.cs:12-25 | Accepts a request when both account numbers are present (not blank) and at most 15 characters, the amount is 1 to 100000000000 cents (0.01 to 1000000000.00), and the description is at most 100 characters. An accepted amount is positive and fits `numeric(15,2)`; accepted account numbers are not empty. |
| `Ledger.TransferSucceedsExactlyWhen` | Controllers/TransactionController.cs:166-207 | On a consistent store, a transfer succeeds exactly when these hold: the request passes validation; the accounts differ and exist; the source balance covers the amount; the new destination balance fits; the two reference numbers fit, are distinct and are fresh. |
| `Ledger.TransferKeepsValid` | Controllers/TransactionController.cs:202-207 | A transfer keeps the store consistent. |
| `Ledger.ApplyStatusUpdate` | Controllers/TransactionController.cs:221-233 | With the id looked up as the key's 64-bit type (see "## Findings"): an id not in the ledger gives TransactionNotFound, and only that case does. Any refusal changes nothing. A success changes only that row's status and last-updated time. It touches no account and no other row, and it keeps the store consistent. |
| `Ledger.ApplySoftDelete` | Controllers/TransactionController.cs:240-250 | As the status update, with status Cancelled. On a consistent store it succeeds exactly when the id exists, and no row is removed. |
| `Ledger.FindEntry` | Controllers/TransactionController.cs:223 | Finds the position of the first row with the given id. It returns none exactly when no row has that id. |
| `Ledger.CommitExtends` | Controllers/TransactionController.cs:146-150 | A committed save only appends: the old ledger is a prefix of the new one. Account rows outside the update keep their values, and no account disappears. The reference numbers in use become exactly the old ones plus those of the new rows. |
| `Ledger.CommitKeepsValid` | Data/WebDbContext.cs:204-236 | A committed change that touches only existing accounts keeps the database consistent when it numbers its new rows from the identity counter. Consistent means increasing ids, unique reference numbers, every row naming an existing account, and values within their columns. |
| `History.Matching` | Controllers/TransactionController.cs:98-99 | Keeps exactly the entries of the account, each as often as it occurs in the ledger. |
| `History.InsertKeepsNewestFirst` | Controllers/TransactionController.cs:100 | Inserting a row into rows ordered newest first keeps them ordered. |
| `History.SortNewestFirst` | Controllers/TransactionController.cs:100 | The result is a permutation of the input, ordered by timestamp, newest first. |
| `History.GetTransactionsByAccount` | Controllers/TransactionController.cs:96-118 | The answer is NotFound exactly when the account has no entries, or when the account row is absent (the join is an inner join). Otherwise it is, newest first, a permutation of the projected rows of exactly the account's entries. |
| `History.MatchingViews` | Controllers/TransactionController.cs:99-111 | The projected rows of an account's entries all name that account and its type. Each comes from one of its entries, and every entry of the account has its row. |
| `History.HistoryIsExact` | Controllers/TransactionController.cs:98-115 | Every returned row belongs to the account, carries the account's type and comes from one of its entries. Every entry of the account appears. |
| `LedgerProperties.TransactionMovesTotal` | Controllers/TransactionController.cs:136-140 | A successful deposit or withdrawal changes the sum of all balances by exactly +amount or -amount. |
| `LedgerProperties.TransferKeepsTotal` | Controllers/TransactionController.cs:178-179 | A successful transfer leaves the sum of all balances unchanged. |
| `LedgerProperties.StatusUpdateKeepsTotal` | Controllers/TransactionController.cs:228-229 | A status update never changes the sum of balances. |
| `LedgerProperties.SoftDeleteIdempotent` | Controllers/TransactionController.cs:245-246 | Cancelling twice gives the same answer and stores as cancelling once at the later time. |
| `LedgerProperties.TransferAddsReferences` | Controllers/TransactionController.cs:187-197 | After a transfer, the reference numbers in use are the old ones plus the two legs'. |
| `LedgerProperties.TransferBackSucceeds` | Controllers/TransactionController.cs:164-215 | Take any successful transfer A to B on a consistent store, with any description and any three clock reads. Sending the same amount back from B to A, with any clock reads, succeeds when its description fits, its reference numbers are fresh and B's balance was not negative. |
| `LedgerProperties.TransferThereAndBack` | Controllers/TransactionController.cs:178-204 | Any two successful transfers of the same amount, A to B and then B to A, restore every balance and add four ledger rows. Their descriptions and clock reads are arbitrary and independent. |
| `LedgerProperties.FindEntrySameIds` | Controllers/TransactionController.cs:223 | Lookup by id depends only on the rows' ids, so rewriting a status does not move the row it finds. |
| `LedgerProperties.OverdraftLimitIgnored` | Controllers/TransactionController.cs:139 | A withdrawal above the balance but within the overdraft limit is refused, with nothing changed. |
| `LedgerProperties.ClosedAccountAccepted` | Controllers/TransactionController.cs:133-136 | A deposit on a closed account succeeds when its rows fit and its reference is fresh. |
| `LedgerProperties.NegativeDepositLowersBalance` | Controllers/TransactionController.cs:136 | A successful deposit of a negative amount lowers the balance. |
| `KeyLookup.FindByKey` | Controllers/TransactionController.cs:223 | The entity lookup refuses a key of another integer type than the key column with KeyTypeMismatch. A key of the column's type finds none exactly when no row has that id, and otherwise a row with that id. |
| `KeyLookup.WidenedKeyFindsRow` | Controllers/TransactionController.cs:223 | With the id widened to the key's 64-bit type, the lookup finds exactly the row `FindEntry` finds. |
| `KeyLookup.StatusUpdateAsWritten` | Controllers/TransactionController.cs:221-233 | UpdateTransaction as written: every id ends in KeyTypeMismatch, and both stores are unchanged. |
| `KeyLookup.SoftDeleteAsWritten` | Controllers/TransactionController.cs:240-250 | SoftDelete as written: every id ends in KeyTypeMismatch, and both stores are unchanged. |
| `KeyLookup.StatusUpdateOfExistingRowRefused` | Controllers/TransactionController.cs:221-233 | On a consistent store, updating an existing row to a status that fits succeeds as intended but fails as written. |
| `KeyLookup.SoftDeleteOfExistingRowRefused` | Controllers/TransactionController.cs:240-250 | On a consistent store, cancelling an existing row succeeds as intended but fails as written. |
| `Controller.TransactionController.PostTransaction` | Controllers/TransactionController.cs:125-158 | Updates the account map and the ledger in place. The answer and the new state are those of `ApplyTransaction` on the old state, and the invariant is kept. |
| `Controller.TransactionController.PostTransfer` | Controllers/TransactionController.cs:164-215 | Updates both account rows and appends both legs in place. The answer and the new state are those of `ApplyTransfer`, and the invariant is kept. |
| `Controller.TransactionController.UpdateTransaction` | Controllers/TransactionController.cs:221-233 | Overwrites one row in place. The answer and the new state are those of `ApplyStatusUpdate`, and the invariant is kept. |
| `Controller.TransactionController.SoftDelete` | Controllers/TransactionController.cs:240-250 | Overwrites one row's status with Cancelled in place. The answer and the new state are those of `ApplySoftDelete`, and the invariant is kept. |

## Left out

- Request validation of a deposit or withdrawal body is not modelled. That body is a ledger row. Its implicit required-field checks come from framework conventions, not from this code. The transfer request's explicit attributes (range, required, length) are modelled.
- A required string counts as blank when it holds only space, tab, CR or LF. The framework's full Unicode white-space class is not modelled. String lengths are counted per character, while the length attributes count UTF-16 code units; the two differ only for characters outside the Basic Multilingual Plane.
- Amounts with more than two decimal places are not modelled. Money is whole cents, so the database's rounding to two places does not arise.
- Failures while saving are modelled only as violated schema constraints: the unique reference number, column widths and the `numeric(15,2)` range. Other exceptions that end in status 500 are not modelled. These include connection loss and a failure between saving and committing.
- Ledger.Commit: a failed save leaves the identity counter where it was. The database's identity sequence is not rolled back with the transaction, so in the system later rows may skip ids after a failed save. The model promises only that a new row's id is the counter's value, which is above every existing id.
- A transaction id sent by the client is not modelled. Ids come from the identity counter.
- The ledger row's last-updated time is never set by the posting handlers. It is modelled as `DefaultTime`.
- HTTP plumbing is not modelled: routing, status codes and `async`. Answers are a success/error datatype.
- Concurrency is not modelled. The code has no locking, and each handler is taken as one sequential, atomic step.
- `GetRecentTransactions`, `GetTransactionReport` and the other controllers are not modelled. They are read-only report projections and record maintenance.
- History ordering: the database does not order rows with equal timestamps. The contract promises only newest-first order and the exact set of rows. The model happens to keep ledger order among ties.

## Findings

| source | as written | input that shows it | evidently intended | confidence | as-written member | corrected member |
|---|---|---|---|---|---|---|
| Controllers/TransactionController.cs:221-223 | `UpdateTransaction(int id, ...)` passes the 32-bit `id` to `FindAsync`, whose key `Transactionid` is a `long` (Models/Transaction.cs:8). The entity lookup throws on the type mismatch, so every call ends in status 500 and changes nothing. | A consistent store holding a row with id 1; `PUT /1` with status `"Done"`. | The id is widened to `long` and the row with that id gets the new status. | Medium: rests on the lookup's documented key-type check; not executed. | `KeyLookup.StatusUpdateAsWritten`, shown by `KeyLookup.StatusUpdateOfExistingRowRefused` | `Ledger.ApplyStatusUpdate` |
| Controllers/TransactionController.cs:240-242 | `SoftDelete(int id)` passes the 32-bit `id` to `FindAsync` on the same `long` key, so every call ends in status 500 and cancels nothing. | A consistent store holding a row with id 1; `DELETE /1`. | The id is widened to `long` and the row with that id is marked Cancelled. | Medium: rests on the lookup's documented key-type check; not executed. | `KeyLookup.SoftDeleteAsWritten`, shown by `KeyLookup.SoftDeleteOfExistingRowRefused` | `Ledger.ApplySoftDelete` |
