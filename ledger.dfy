/** The money-movement rules of the transaction handlers, stated on values:
    each operation takes the two stores before the request and gives the
    handler's answer with the stores after it. An operation either commits
    every change it makes or leaves both stores exactly as they were. */
module Ledger {
  import opened Models

  /** The account store, the ledger, and the next value of the ledger's identity column. */
  datatype Store = Store(accounts: map<AccountNumber, Account>, ledger: seq<Entry>, nextId: int)

  /** A handler's answer together with the stores it leaves behind. */
  datatype Step<T> = Step(result: Result<T>, store: Store)

  /** The body of a deposit or withdrawal: the ledger row the caller posts.
      Its id, timestamp and reference number are assigned by the handler. */
  datatype TransactionRequest = TransactionRequest(account: AccountNumber, txType: string, amount: Cents, status: string)

  /** The body of a transfer. */
  datatype TransferRequest = TransferRequest(source: AccountNumber, destination: AccountNumber, amount: Cents, description: string)

  /** What the database guarantees of its rows: ids increase in insertion order
      and stay below the identity counter, reference numbers are unique, every
      entry names an existing account, and every value fits its column. */
  predicate Valid(s: Store) {
    && s.nextId >= 1
    && (forall n :: n in s.accounts ==> AccountFits(n, s.accounts[n]))
    && (forall i :: 0 <= i < |s.ledger| ==>
          1 <= s.ledger[i].id < s.nextId && s.ledger[i].account in s.accounts && EntryFits(s.ledger[i]))
    && (forall i, j :: 0 <= i < j < |s.ledger| ==>
          s.ledger[i].id < s.ledger[j].id && s.ledger[i].reference != s.ledger[j].reference)
  }

  // ---------------------------------------------------------------------------
  // Saving changes

  /** The database accepts the changed account rows and the new ledger rows:
      every value fits its column and no reference number is used twice. */
  predicate Saves(s: Store, updated: map<AccountNumber, Account>, added: seq<Entry>) {
    && (forall n :: n in updated ==> AccountFits(n, updated[n]))
    && (forall i :: 0 <= i < |added| ==> EntryFits(added[i]) && added[i].reference !in References(s.ledger))
    && (forall i, j :: 0 <= i < j < |added| ==> added[i].reference != added[j].reference)
  }

  /** Save the changes and commit the database transaction, or roll all of it back. */
  function Commit<T>(s: Store, updated: map<AccountNumber, Account>, added: seq<Entry>, value: T): Step<T> {
    if Saves(s, updated, added) then Step(Ok(value), Store(s.accounts + updated, s.ledger + added, s.nextId + |added|))
    else Step(Err(StorageFailure), s)
  }

  /** A committed save only appends to the ledger and only replaces the account
      rows it updates; the reference numbers in use grow by exactly those of the
      new rows. */
  lemma CommitExtends<T>(s: Store, updated: map<AccountNumber, Account>, added: seq<Entry>, value: T)
    ensures var st := Commit(s, updated, added, value);
      st.result.Ok? ==>
        && |s.ledger| <= |st.store.ledger|
        && st.store.ledger[..|s.ledger|] == s.ledger
        && st.store.accounts.Keys == s.accounts.Keys + updated.Keys
        && (forall n :: n in s.accounts && n !in updated ==> st.store.accounts[n] == s.accounts[n])
        && References(st.store.ledger) == References(s.ledger) + References(added)
  {
    var st := Commit(s, updated, added, value);
    if st.result.Ok? {
      var l, k := st.store.ledger, |s.ledger|;
      assert l == s.ledger + added;
      forall r | r in References(l) ensures r in References(s.ledger) + References(added) {
        var i :| 0 <= i < |l| && l[i].reference == r;
        if i < k { assert l[i] == s.ledger[i]; } else { assert l[i] == added[i - k]; }
      }
      forall r | r in References(s.ledger) + References(added) ensures r in References(l) {
        if r in References(s.ledger) {
          var i :| 0 <= i < k && s.ledger[i].reference == r;
          assert l[i] == s.ledger[i];
        } else {
          var i :| 0 <= i < |added| && added[i].reference == r;
          assert l[k + i] == added[i];
        }
      }
    }
  }

  /** A committed change keeps the database consistent when it only touches
      existing accounts and numbers its new rows from the identity counter. */
  lemma CommitKeepsValid<T>(s: Store, updated: map<AccountNumber, Account>, added: seq<Entry>, value: T)
    requires Valid(s)
    requires updated.Keys <= s.accounts.Keys
    requires forall i :: 0 <= i < |added| ==> added[i].id == s.nextId + i && added[i].account in s.accounts
    ensures Valid(Commit(s, updated, added, value).store)
  {
    var st := Commit(s, updated, added, value);
    if st.result.Ok? {
      var t := st.store;
      var old_n := |s.ledger|;
      assert t.ledger == s.ledger + added;
      forall i, j | 0 <= i < j < |t.ledger|
        ensures t.ledger[i].id < t.ledger[j].id && t.ledger[i].reference != t.ledger[j].reference
      {
        if j >= old_n && i < old_n {
          assert t.ledger[j] == added[j - old_n];
          assert t.ledger[i].reference in References(s.ledger);
        }
      }
    }
  }

  // ---------------------------------------------------------------------------
  // PostTransaction: deposit or withdrawal

  /** How a successful simple transaction moves the balance of its account. */
  function BalanceChange(req: TransactionRequest): Cents {
    if req.txType == Deposit then req.amount else -req.amount
  }

  /** The ledger row a simple transaction adds. */
  function PostedEntry(s: Store, req: TransactionRequest, now: Time, guid: string): Entry {
    Entry(s.nextId, req.account, req.txType, req.amount, now, guid, req.status, DefaultTime)
  }

  function ApplyTransaction(s: Store, req: TransactionRequest, now: Time, guid: string): (st: Step<Entry>)
    // a refusal changes nothing, and each refusal has its own reason
    ensures st.result.Err? ==> st.store == s
    ensures req.account !in s.accounts ==> st.result == Err(AccountNotFound)
    ensures req.account in s.accounts && req.txType != Deposit && req.txType != Withdrawal
      ==> st.result == Err(UnsupportedType)
    ensures req.account in s.accounts && req.txType == Withdrawal && s.accounts[req.account].balance < req.amount
      ==> st.result == Err(InsufficientBalance)
    // a success moves one balance by the amount and appends one row with a fresh reference number
    ensures st.result.Ok? ==>
      && req.account in s.accounts
      && st.result.value == PostedEntry(s, req, now, guid)
      && guid !in References(s.ledger)
      && st.store.ledger == s.ledger + [st.result.value]
      && st.store.nextId == s.nextId + 1
      && st.store.accounts.Keys == s.accounts.Keys
      && (forall n :: n in s.accounts && n != req.account ==> st.store.accounts[n] == s.accounts[n])
      && st.store.accounts[req.account] == s.accounts[req.account].(balance := st.store.accounts[req.account].balance)
      && (req.txType == Deposit ==>
            st.store.accounts[req.account].balance == s.accounts[req.account].balance + req.amount)
      && (req.txType == Withdrawal ==>
            st.store.accounts[req.account].balance == s.accounts[req.account].balance - req.amount >= 0)
  {
    if req.account !in s.accounts then Step(Err(AccountNotFound), s)
    else if req.txType != Deposit && req.txType != Withdrawal then Step(Err(UnsupportedType), s)
    else if req.txType == Withdrawal && s.accounts[req.account].balance < req.amount then Step(Err(InsufficientBalance), s)
    else
      var e := PostedEntry(s, req, now, guid);
      assert [e][0] == e;
      Commit(s, PostedUpdate(s, req), [e], e)
  }

  /** The account row a simple transaction leaves behind. */
  function PostedUpdate(s: Store, req: TransactionRequest): map<AccountNumber, Account>
    requires req.account in s.accounts
  {
    var a := s.accounts[req.account];
    map[req.account := a.(balance := a.balance + BalanceChange(req))]
  }

  /** On a consistent database a simple transaction succeeds exactly when the
      handler's checks pass and the database accepts the new rows. */
  lemma TransactionSucceedsExactlyWhen(s: Store, req: TransactionRequest, now: Time, guid: string)
    requires Valid(s)
    ensures ApplyTransaction(s, req, now, guid).result.Ok? <==>
      && req.account in s.accounts
      && (req.txType == Deposit || (req.txType == Withdrawal && s.accounts[req.account].balance >= req.amount))
      && FitsMoney(s.accounts[req.account].balance + BalanceChange(req))
      && FitsMoney(req.amount) && |req.status| <= StatusWidth
      && |guid| <= ReferenceWidth && guid !in References(s.ledger)
  {
    if req.account in s.accounts && (req.txType == Deposit || req.txType == Withdrawal) {
      var e := PostedEntry(s, req, now, guid);
      var updated := PostedUpdate(s, req);
      assert updated.Keys == {req.account};
      assert [e][0] == e;
      assert Saves(s, updated, [e]) <==>
        AccountFits(req.account, updated[req.account]) && EntryFits(e) && guid !in References(s.ledger);
    }
  }

  lemma TransactionKeepsValid(s: Store, req: TransactionRequest, now: Time, guid: string)
    requires Valid(s)
    ensures Valid(ApplyTransaction(s, req, now, guid).store)
  {
    if ApplyTransaction(s, req, now, guid).result.Ok? {
      var e := PostedEntry(s, req, now, guid);
      CommitKeepsValid(s, PostedUpdate(s, req), [e], e);
    }
  }

  // ---------------------------------------------------------------------------
  // PostTransfer

  /** Bounds of the transfer amount: 0.01 to 1000000000.00. */
  const MinTransfer: Cents := 1
  const MaxTransfer: Cents := 100_000_000_000
  const DescriptionWidth: nat := 100

  predicate IsWhiteSpace(c: char) {
    c == ' ' || c == '\t' || c == '\n' || c == '\r'
  }

  /** A required string is present and not blank. */
  predicate IsPresent(s: string) {
    exists i :: 0 <= i < |s| && !IsWhiteSpace(s[i])
  }

  /** The validation attributes of a transfer request. An accepted amount is
      positive and fits the money column; accepted account numbers are not empty. */
  function ValidTransferRequest(req: TransferRequest): (ok: bool)
    ensures ok ==> 0 < req.amount && FitsMoney(req.amount)
    ensures ok ==> req.source != [] && req.destination != []
  {
    && IsPresent(req.source) && |req.source| <= AccountNumberWidth
    && IsPresent(req.destination) && |req.destination| <= AccountNumberWidth
    && MinTransfer <= req.amount <= MaxTransfer
    && |req.description| <= DescriptionWidth
  }

  /** The two ledger rows of a transfer: the debit leg on the source, then the credit leg on the destination. */
  function TransferLegs(s: Store, req: TransferRequest, debitAt: Time, creditAt: Time, debitGuid: string, creditGuid: string)
    : seq<Entry>
  {
    [ Entry(s.nextId, req.source, Transfer, req.amount, debitAt, debitGuid, Completed, DefaultTime),
      Entry(s.nextId + 1, req.destination, Transfer, req.amount, creditAt, creditGuid, Completed, DefaultTime) ]
  }

  function ApplyTransfer(s: Store, req: TransferRequest, updatedAt: Time, debitAt: Time, creditAt: Time,
                         debitGuid: string, creditGuid: string): (st: Step<string>)
    // a refusal changes nothing, and each refusal has its own reason
    ensures st.result.Err? ==> st.store == s
    ensures !ValidTransferRequest(req) ==> st.result == Err(InvalidRequest)
    ensures ValidTransferRequest(req) && req.source == req.destination ==> st.result == Err(SameAccounts)
    ensures (ValidTransferRequest(req) && req.source != req.destination
             && (req.source !in s.accounts || req.destination !in s.accounts))
      ==> st.result == Err(AccountNotFound)
    ensures (ValidTransferRequest(req) && req.source != req.destination
             && req.source in s.accounts && req.destination in s.accounts
             && s.accounts[req.source].balance < req.amount)
      ==> st.result == Err(InsufficientFunds)
    // a success moves the amount from source to destination and books both legs
    ensures st.result.Ok? ==>
      var src, dst := req.source, req.destination;
      && src in s.accounts && dst in s.accounts && src != dst
      && MinTransfer <= req.amount <= MaxTransfer
      && st.result.value == debitGuid
      && st.store.accounts.Keys == s.accounts.Keys
      && st.store.accounts[src] == s.accounts[src].(balance := s.accounts[src].balance - req.amount, lastUpdated := Some(updatedAt))
      && st.store.accounts[dst] == s.accounts[dst].(balance := s.accounts[dst].balance + req.amount, lastUpdated := Some(updatedAt))
      && st.store.accounts[src].balance + st.store.accounts[dst].balance == s.accounts[src].balance + s.accounts[dst].balance
      && (forall n :: n in s.accounts && n != src && n != dst ==> st.store.accounts[n] == s.accounts[n])
      && st.store.ledger == s.ledger + TransferLegs(s, req, debitAt, creditAt, debitGuid, creditGuid)
      && st.store.nextId == s.nextId + 2
      && debitGuid != creditGuid && debitGuid !in References(s.ledger) && creditGuid !in References(s.ledger)
  {
    if !ValidTransferRequest(req) then Step(Err(InvalidRequest), s)
    else if req.source == req.destination then Step(Err(SameAccounts), s)
    else if req.source !in s.accounts || req.destination !in s.accounts then Step(Err(AccountNotFound), s)
    else if s.accounts[req.source].balance < req.amount then Step(Err(InsufficientFunds), s)
    else
      var legs := TransferLegs(s, req, debitAt, creditAt, debitGuid, creditGuid);
      assert legs[0].reference == debitGuid && legs[1].reference == creditGuid;
      Commit(s, TransferUpdate(s, req, updatedAt), legs, debitGuid)
  }

  /** The two account rows a transfer leaves behind. */
  function TransferUpdate(s: Store, req: TransferRequest, updatedAt: Time): map<AccountNumber, Account>
    requires req.source in s.accounts && req.destination in s.accounts
  {
    var src, dst := s.accounts[req.source], s.accounts[req.destination];
    map[
      req.source := src.(balance := src.balance - req.amount, lastUpdated := Some(updatedAt)),
      req.destination := dst.(balance := dst.balance + req.amount, lastUpdated := Some(updatedAt))]
  }

  /** On a consistent database a transfer succeeds exactly when the handler's
      checks pass and the database accepts the new rows. */
  lemma TransferSucceedsExactlyWhen(s: Store, req: TransferRequest, updatedAt: Time, debitAt: Time, creditAt: Time,
                                    debitGuid: string, creditGuid: string)
    requires Valid(s)
    ensures ApplyTransfer(s, req, updatedAt, debitAt, creditAt, debitGuid, creditGuid).result.Ok? <==>
      && ValidTransferRequest(req) && req.source != req.destination
      && req.source in s.accounts && req.destination in s.accounts
      && s.accounts[req.source].balance >= req.amount
      && FitsMoney(s.accounts[req.destination].balance + req.amount)
      && |debitGuid| <= ReferenceWidth && |creditGuid| <= ReferenceWidth && debitGuid != creditGuid
      && debitGuid !in References(s.ledger) && creditGuid !in References(s.ledger)
  {
    if ValidTransferRequest(req) && req.source != req.destination
      && req.source in s.accounts && req.destination in s.accounts
      && s.accounts[req.source].balance >= req.amount
    {
      var updated := TransferUpdate(s, req, updatedAt);
      var legs := TransferLegs(s, req, debitAt, creditAt, debitGuid, creditGuid);
      assert updated.Keys == {req.source, req.destination};
      assert AccountFits(req.source, s.accounts[req.source]);
      assert Saves(s, updated, legs) <==>
        && AccountFits(req.source, updated[req.source]) && AccountFits(req.destination, updated[req.destination])
        && EntryFits(legs[0]) && EntryFits(legs[1])
        && debitGuid !in References(s.ledger) && creditGuid !in References(s.ledger) && debitGuid != creditGuid;
    }
  }

  lemma TransferKeepsValid(s: Store, req: TransferRequest, updatedAt: Time, debitAt: Time, creditAt: Time,
                           debitGuid: string, creditGuid: string)
    requires Valid(s)
    ensures Valid(ApplyTransfer(s, req, updatedAt, debitAt, creditAt, debitGuid, creditGuid).store)
  {
    if ApplyTransfer(s, req, updatedAt, debitAt, creditAt, debitGuid, creditGuid).result.Ok? {
      CommitKeepsValid(s, TransferUpdate(s, req, updatedAt), TransferLegs(s, req, debitAt, creditAt, debitGuid, creditGuid), debitGuid);
    }
  }

  // ---------------------------------------------------------------------------
  // UpdateTransaction and SoftDelete

  /** The position of the first ledger row with the given id. */
  function FindEntry(ledger: seq<Entry>, id: int): (r: Option<nat>)
    ensures r.Some? ==>
      && r.value < |ledger| && ledger[r.value].id == id
      && forall j :: 0 <= j < r.value ==> ledger[j].id != id
    ensures r.None? <==> forall j :: 0 <= j < |ledger| ==> ledger[j].id != id
  {
    if ledger == [] then None
    else if ledger[0].id == id then Some(0)
    else match FindEntry(ledger[1..], id)
      case None => None
      case Some(k) => Some(k + 1)
  }

  function ApplyStatusUpdate(s: Store, id: int, status: string, now: Time): (st: Step<()>)
    ensures st.result.Err? ==> st.store == s
    ensures (forall j :: 0 <= j < |s.ledger| ==> s.ledger[j].id != id) <==> st.result == Err(TransactionNotFound)
    ensures Valid(s) ==> (st.result.Ok? <==> (exists j :: 0 <= j < |s.ledger| && s.ledger[j].id == id) && |status| <= StatusWidth)
    // only the status and the last-updated time of the one row change
    ensures st.result.Ok? ==>
      && st.store.accounts == s.accounts
      && st.store.nextId == s.nextId
      && |st.store.ledger| == |s.ledger|
      && exists i :: 0 <= i < |s.ledger| && s.ledger[i].id == id
           && st.store.ledger[i] == s.ledger[i].(status := status, lastUpdated := now)
           && forall j :: 0 <= j < |s.ledger| && j != i ==> st.store.ledger[j] == s.ledger[j]
    ensures Valid(s) ==> Valid(st.store)
  {
    match FindEntry(s.ledger, id)
    case None => Step(Err(TransactionNotFound), s)
    case Some(i) =>
      var e := s.ledger[i].(status := status, lastUpdated := now);
      if EntryFits(e) then Step(Ok(()), s.(ledger := s.ledger[i := e])) else Step(Err(StorageFailure), s)
  }

  /** SoftDelete marks the row cancelled; no row is removed and no balance changes. */
  function ApplySoftDelete(s: Store, id: int, now: Time): (st: Step<()>)
    ensures st.result.Err? ==> st.store == s
    ensures (forall j :: 0 <= j < |s.ledger| ==> s.ledger[j].id != id) <==> st.result == Err(TransactionNotFound)
    ensures Valid(s) ==> (st.result.Ok? <==> exists j :: 0 <= j < |s.ledger| && s.ledger[j].id == id)
    ensures st.result.Ok? ==>
      && st.store.accounts == s.accounts
      && st.store.nextId == s.nextId
      && |st.store.ledger| == |s.ledger|
      && exists i :: 0 <= i < |s.ledger| && s.ledger[i].id == id
           && st.store.ledger[i] == s.ledger[i].(status := Cancelled, lastUpdated := now)
           && forall j :: 0 <= j < |s.ledger| && j != i ==> st.store.ledger[j] == s.ledger[j]
    ensures Valid(s) ==> Valid(st.store)
  {
    ApplyStatusUpdate(s, id, Cancelled, now)
  }
}
