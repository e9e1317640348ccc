/** The transaction controller: the account store and the ledger as mutable
    state, and the four handlers that change them. Each handler works on local
    copies of the rows it reads (the database transaction) and writes them back
    only once the database would accept them, so every early return leaves both
    stores as they were. */
module Controller {
  import opened Models
  import opened Ledger

  class TransactionController {
    var accounts: map<AccountNumber, Account>
    var ledger: seq<Entry>
    var nextId: int

    function State(): Store
      reads this
    {
      Store(accounts, ledger, nextId)
    }

    ghost predicate Valid()
      reads this
    {
      Ledger.Valid(State())
    }

    constructor (initial: Store)
      requires Ledger.Valid(initial)
      ensures Valid() && State() == initial
    {
      accounts, ledger, nextId := initial.accounts, initial.ledger, initial.nextId;
    }

    /** Deposit or withdrawal on one account. */
    method PostTransaction(req: TransactionRequest, now: Time, guid: string) returns (r: Result<Entry>)
      requires Valid()
      modifies this
      ensures Valid()
      ensures Step(r, State()) == ApplyTransaction(old(State()), req, now, guid)
    {
      if req.account !in accounts {
        return Err(AccountNotFound);
      }
      var account := accounts[req.account];
      if req.txType == Deposit {
        account := account.(balance := account.balance + req.amount);
      } else if req.txType == Withdrawal {
        if account.balance < req.amount {
          return Err(InsufficientBalance);
        }
        account := account.(balance := account.balance - req.amount);
      } else {
        return Err(UnsupportedType);
      }
      var entry := Entry(nextId, req.account, req.txType, req.amount, now, guid, req.status, DefaultTime);
      if !Saves(State(), map[req.account := account], [entry]) {
        return Err(StorageFailure);
      }
      ghost var spec := ApplyTransaction(State(), req, now, guid);
      TransactionKeepsValid(State(), req, now, guid);
      accounts := accounts[req.account := account];
      ledger := ledger + [entry];
      nextId := nextId + 1;
      r := Ok(entry);
      assert State() == spec.store;
    }

    /** Move money from one account to another; answers the debit leg's reference number. */
    method PostTransfer(req: TransferRequest, updatedAt: Time, debitAt: Time, creditAt: Time,
                        debitGuid: string, creditGuid: string) returns (r: Result<string>)
      requires Valid()
      modifies this
      ensures Valid()
      ensures Step(r, State()) == ApplyTransfer(old(State()), req, updatedAt, debitAt, creditAt, debitGuid, creditGuid)
    {
      if !ValidTransferRequest(req) {
        return Err(InvalidRequest);
      }
      if req.source == req.destination {
        return Err(SameAccounts);
      }
      if req.source !in accounts || req.destination !in accounts {
        return Err(AccountNotFound);
      }
      var source, dest := accounts[req.source], accounts[req.destination];
      if source.balance < req.amount {
        return Err(InsufficientFunds);
      }
      source := source.(balance := source.balance - req.amount);
      dest := dest.(balance := dest.balance + req.amount);
      source, dest := source.(lastUpdated := Some(updatedAt)), dest.(lastUpdated := Some(updatedAt));
      var debit := Entry(nextId, req.source, Transfer, req.amount, debitAt, debitGuid, Completed, DefaultTime);
      var credit := Entry(nextId + 1, req.destination, Transfer, req.amount, creditAt, creditGuid, Completed, DefaultTime);
      var updated := map[req.source := source, req.destination := dest];
      if !Saves(State(), updated, [debit, credit]) {
        return Err(StorageFailure);
      }
      ghost var spec := ApplyTransfer(State(), req, updatedAt, debitAt, creditAt, debitGuid, creditGuid);
      TransferKeepsValid(State(), req, updatedAt, debitAt, creditAt, debitGuid, creditGuid);
      assert [debit, credit] == TransferLegs(State(), req, debitAt, creditAt, debitGuid, creditGuid);
      assert updated == TransferUpdate(State(), req, updatedAt);
      assert spec == Commit(State(), updated, [debit, credit], debitGuid);
      accounts := accounts + updated;
      ledger := ledger + [debit, credit];
      nextId := nextId + 2;
      r := Ok(debit.reference);
      assert Step(r, State()) == spec;
    }

    /** Overwrite the status of one ledger row. */
    method UpdateTransaction(id: int, status: string, now: Time) returns (r: Result<()>)
      requires Valid()
      modifies this
      ensures Valid()
      ensures Step(r, State()) == ApplyStatusUpdate(old(State()), id, status, now)
    {
      var found := FindEntry(ledger, id);
      if found.None? {
        return Err(TransactionNotFound);
      }
      var txn := ledger[found.value];
      txn := txn.(status := status, lastUpdated := now);
      if !EntryFits(txn) {
        return Err(StorageFailure);
      }
      ledger := ledger[found.value := txn];
      r := Ok(());
    }

    /** Mark one ledger row cancelled; the row stays and no balance changes. */
    method SoftDelete(id: int, now: Time) returns (r: Result<()>)
      requires Valid()
      modifies this
      ensures Valid()
      ensures Step(r, State()) == ApplySoftDelete(old(State()), id, now)
    {
      var found := FindEntry(ledger, id);
      if found.None? {
        return Err(TransactionNotFound);
      }
      var txn := ledger[found.value];
      txn := txn.(status := Cancelled, lastUpdated := now);
      if !EntryFits(txn) {
        return Err(StorageFailure);
      }
      ledger := ledger[found.value := txn];
      r := Ok(());
    }
  }
}
