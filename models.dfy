/** The two stores the transaction handlers work on: account rows and ledger
    rows, with the column limits the database enforces when changes are saved.
    Money is held in integer cents, because every money column is a fixed-point
    decimal with two fractional digits. */
module Models {

  /** Money in cents. */
  type Cents = int

  /** A point in time, in ticks; `DefaultTime` is the value of an unset timestamp. */
  type Time = int
  const DefaultTime: Time := 0

  type AccountNumber = string

  /** The transaction types the handlers write. */
  const Deposit: string := "Deposit"
  const Withdrawal: string := "Withdrawal"
  const Transfer: string := "Transfer"

  /** The statuses the handlers write. */
  const Completed: string := "Completed"
  const Cancelled: string := "Cancelled"

  /** Largest magnitude a numeric(15,2) column holds, in cents: 9999999999999.99. */
  const MaxMoney: Cents := 999_999_999_999_999

  /** Column widths of the schema. */
  const AccountNumberWidth: nat := 15
  const TypeWidth: nat := 20
  const ReferenceWidth: nat := 50
  const StatusWidth: nat := 10

  predicate FitsMoney(c: Cents) {
    -MaxMoney <= c <= MaxMoney
  }

  /** An account row, keyed in the store by its account number. */
  datatype Account = Account(
    customer: string,
    accountType: string,
    balance: Cents,
    overdraftLimit: Cents,
    openDate: int,
    status: string,
    lastUpdated: Option<Time>)

  /** A ledger row. */
  datatype Entry = Entry(
    id: int,
    account: AccountNumber,
    txType: string,
    amount: Cents,
    timestamp: Time,
    reference: string,
    status: string,
    lastUpdated: Time)

  datatype Option<T> = None | Some(value: T)

  /** Why a handler refused; each is returned before anything is committed. */
  datatype Error =
    | InvalidRequest       // the request body fails its validation attributes
    | SameAccounts         // "Same accounts not allowed."
    | AccountNotFound      // "Account not found."
    | InsufficientBalance  // "Insufficient balance." (deposit/withdrawal)
    | InsufficientFunds    // "Insufficient funds." (transfer)
    | UnsupportedType      // a simple transaction that is neither a deposit nor a withdrawal
    | TransactionNotFound  // "Transaction not found."
    | NoTransactions       // the history of an account is empty
    | StorageFailure       // saving the changes violates a database constraint
    | KeyTypeMismatch      // the entity lookup is handed a key of another type than the key column

  datatype Result<T> = Ok(value: T) | Err(error: Error)

  /** The database accepts an account row when its key and money fit their columns. */
  predicate AccountFits(n: AccountNumber, a: Account) {
    |n| <= AccountNumberWidth && FitsMoney(a.balance) && FitsMoney(a.overdraftLimit)
  }

  /** The database accepts a ledger row when every field fits its column. */
  predicate EntryFits(e: Entry) {
    && |e.account| <= AccountNumberWidth
    && |e.txType| <= TypeWidth
    && FitsMoney(e.amount)
    && |e.reference| <= ReferenceWidth
    && |e.status| <= StatusWidth
  }

  /** The reference numbers already in use in a ledger. */
  function References(ledger: seq<Entry>): set<string> {
    set i | 0 <= i < |ledger| :: ledger[i].reference
  }
}
