/** Properties that relate several ledger operations, or one operation to the
    total money held across all accounts. */
module LedgerProperties {
  import opened Models
  import opened Ledger

  /** The sum of the balances of all accounts. */
  ghost function TotalBalance(accounts: map<AccountNumber, Account>): Cents
    decreases |accounts|
  {
    if accounts == map[] then 0
    else
      var n :| n in accounts;
      assert |accounts - {n}| < |accounts| by { assert (accounts - {n}).Keys == accounts.Keys - {n}; }
      accounts[n].balance + TotalBalance(accounts - {n})
  }

  /** The total can be split off at any account, not only the one the definition picks. */
  lemma {:induction false} TotalBalanceSplit(accounts: map<AccountNumber, Account>, k: AccountNumber)
    requires k in accounts
    ensures TotalBalance(accounts) == accounts[k].balance + TotalBalance(accounts - {k})
    decreases |accounts|
  {
    var n :| n in accounts && TotalBalance(accounts) == accounts[n].balance + TotalBalance(accounts - {n});
    if n != k {
      assert (accounts - {n}).Keys == accounts.Keys - {n};
      assert (accounts - {k}).Keys == accounts.Keys - {k};
      TotalBalanceSplit(accounts - {n}, k);
      TotalBalanceSplit(accounts - {k}, n);
      assert accounts - {n} - {k} == accounts - {k} - {n};
    }
  }

  /** Replacing one account row moves the total by exactly the change of its balance. */
  lemma TotalBalanceUpdate(accounts: map<AccountNumber, Account>, k: AccountNumber, a: Account)
    requires k in accounts
    ensures TotalBalance(accounts[k := a]) == TotalBalance(accounts) - accounts[k].balance + a.balance
  {
    TotalBalanceSplit(accounts, k);
    TotalBalanceSplit(accounts[k := a], k);
    assert accounts[k := a] - {k} == accounts - {k};
  }

  /** A deposit or withdrawal moves the money held by the bank by exactly its amount. */
  lemma TransactionMovesTotal(s: Store, req: TransactionRequest, now: Time, guid: string)
    ensures var st := ApplyTransaction(s, req, now, guid);
      st.result.Ok? ==> TotalBalance(st.store.accounts) == TotalBalance(s.accounts) + BalanceChange(req)
  {
    var st := ApplyTransaction(s, req, now, guid);
    if st.result.Ok? {
      var a := s.accounts[req.account];
      assert st.store.accounts == s.accounts[req.account := st.store.accounts[req.account]];
      TotalBalanceUpdate(s.accounts, req.account, st.store.accounts[req.account]);
    }
  }

  /** A transfer moves money between two accounts; the total held by the bank does not change. */
  lemma TransferKeepsTotal(s: Store, req: TransferRequest, updatedAt: Time, debitAt: Time, creditAt: Time,
                           debitGuid: string, creditGuid: string)
    ensures var st := ApplyTransfer(s, req, updatedAt, debitAt, creditAt, debitGuid, creditGuid);
      st.result.Ok? ==> TotalBalance(st.store.accounts) == TotalBalance(s.accounts)
  {
    var st := ApplyTransfer(s, req, updatedAt, debitAt, creditAt, debitGuid, creditGuid);
    if st.result.Ok? {
      var src, dst := req.source, req.destination;
      var mid := s.accounts[src := st.store.accounts[src]];
      TotalBalanceUpdate(s.accounts, src, st.store.accounts[src]);
      TotalBalanceUpdate(mid, dst, st.store.accounts[dst]);
      assert st.store.accounts == mid[dst := st.store.accounts[dst]];
    }
  }

  /** Status updates never touch money. */
  lemma StatusUpdateKeepsTotal(s: Store, id: int, status: string, now: Time)
    ensures TotalBalance(ApplyStatusUpdate(s, id, status, now).store.accounts) == TotalBalance(s.accounts)
  {
  }

  /** Lookup by id depends only on the ids of the rows. */
  lemma {:induction false} FindEntrySameIds(a: seq<Entry>, b: seq<Entry>, id: int)
    requires |a| == |b| && forall j :: 0 <= j < |a| ==> a[j].id == b[j].id
    ensures FindEntry(a, id) == FindEntry(b, id)
  {
    if a != [] && a[0].id != id {
      FindEntrySameIds(a[1..], b[1..], id);
    }
  }

  /** Cancelling twice leaves the same state as cancelling once at the later time. */
  lemma SoftDeleteIdempotent(s: Store, id: int, first: Time, second: Time)
    ensures ApplySoftDelete(ApplySoftDelete(s, id, first).store, id, second) == ApplySoftDelete(s, id, second)
  {
    match FindEntry(s.ledger, id)
    case None =>
    case Some(k) =>
      var e1 := s.ledger[k].(status := Cancelled, lastUpdated := first);
      var e2 := s.ledger[k].(status := Cancelled, lastUpdated := second);
      if EntryFits(e1) {
        var l1 := s.ledger[k := e1];
        FindEntrySameIds(l1, s.ledger, id);
        assert e1.(status := Cancelled, lastUpdated := second) == e2;
        assert l1[k := e2] == s.ledger[k := e2];
      }
  }

  /** The reference numbers in use after a transfer are the old ones and the two legs'. */
  lemma TransferAddsReferences(s: Store, req: TransferRequest, updatedAt: Time, debitAt: Time, creditAt: Time,
                               debitGuid: string, creditGuid: string)
    ensures var st := ApplyTransfer(s, req, updatedAt, debitAt, creditAt, debitGuid, creditGuid);
      st.result.Ok? ==> References(st.store.ledger) == References(s.ledger) + {debitGuid, creditGuid}
  {
    var st := ApplyTransfer(s, req, updatedAt, debitAt, creditAt, debitGuid, creditGuid);
    if st.result.Ok? {
      var l, n := st.store.ledger, |s.ledger|;
      var legs := TransferLegs(s, req, debitAt, creditAt, debitGuid, creditGuid);
      assert l == s.ledger + legs;
      forall r | r in References(l) ensures r in References(s.ledger) + {debitGuid, creditGuid} {
        var i :| 0 <= i < |l| && l[i].reference == r;
        if i >= n { assert l[i] == legs[i - n]; }
      }
      forall r | r in References(s.ledger) + {debitGuid, creditGuid} ensures r in References(l) {
        if r == debitGuid { assert l[n].reference == debitGuid; }
        else if r == creditGuid { assert l[n + 1].reference == creditGuid; }
        else {
          var i :| 0 <= i < n && s.ledger[i].reference == r;
          assert l[i] == s.ledger[i];
        }
      }
    }
  }

  /** After a transfer from A to B, moving the same amount back is allowed
      when B's balance was not negative, the return description fits and the
      new reference numbers are fresh. Every clock read is independent. */
  lemma TransferBackSucceeds(s: Store, a: AccountNumber, b: AccountNumber, amount: Cents,
                             desc1: string, desc2: string, u1: Time, d1: Time, c1: Time, u2: Time, d2: Time, c2: Time,
                             g1: string, g2: string, g3: string, g4: string)
    requires Valid(s)
    requires |desc2| <= DescriptionWidth
    requires |g3| <= ReferenceWidth && |g4| <= ReferenceWidth
    requires g3 != g4 && g3 !in {g1, g2} && g4 !in {g1, g2}
    requires g3 !in References(s.ledger) && g4 !in References(s.ledger)
    requires b in s.accounts ==> s.accounts[b].balance >= 0
    ensures var there := ApplyTransfer(s, TransferRequest(a, b, amount, desc1), u1, d1, c1, g1, g2);
      there.result.Ok? ==> ApplyTransfer(there.store, TransferRequest(b, a, amount, desc2), u2, d2, c2, g3, g4).result.Ok?
  {
    var out, home := TransferRequest(a, b, amount, desc1), TransferRequest(b, a, amount, desc2);
    var there := ApplyTransfer(s, out, u1, d1, c1, g1, g2);
    if there.result.Ok? {
      var s1 := there.store;
      TransferAddsReferences(s, out, u1, d1, c1, g1, g2);
      TransferKeepsValid(s, out, u1, d1, c1, g1, g2);
      assert FitsMoney(s1.accounts[a].balance + amount) by { assert FitsMoney(s.accounts[a].balance); }
      assert ValidTransferRequest(home) by { assert ValidTransferRequest(out); }
      TransferSucceedsExactlyWhen(s1, home, u2, d2, c2, g3, g4);
    }
  }

  /** Two successful transfers of the same amount in opposite directions
      restore every balance and leave four new ledger rows, whatever their
      descriptions and clock reads. */
  lemma TransferThereAndBack(s: Store, a: AccountNumber, b: AccountNumber, amount: Cents,
                             desc1: string, desc2: string, u1: Time, d1: Time, c1: Time, u2: Time, d2: Time, c2: Time,
                             g1: string, g2: string, g3: string, g4: string)
    ensures var there := ApplyTransfer(s, TransferRequest(a, b, amount, desc1), u1, d1, c1, g1, g2);
      var back := ApplyTransfer(there.store, TransferRequest(b, a, amount, desc2), u2, d2, c2, g3, g4);
      there.result.Ok? && back.result.Ok? ==>
        && back.store.accounts.Keys == s.accounts.Keys
        && (forall n :: n in s.accounts ==> back.store.accounts[n].balance == s.accounts[n].balance)
        && |back.store.ledger| == |s.ledger| + 4
  {
    var there := ApplyTransfer(s, TransferRequest(a, b, amount, desc1), u1, d1, c1, g1, g2);
    var back := ApplyTransfer(there.store, TransferRequest(b, a, amount, desc2), u2, d2, c2, g3, g4);
    if there.result.Ok? && back.result.Ok? {
      forall n | n in s.accounts ensures back.store.accounts[n].balance == s.accounts[n].balance {
        if n != a && n != b {
          assert there.store.accounts[n] == s.accounts[n];
        }
      }
    }
  }

  // ---------------------------------------------------------------------------
  // What the handlers do not check

  /** The withdrawal check compares the balance with the amount only: an
      overdraft limit does not allow the balance to go below zero. */
  lemma OverdraftLimitIgnored(s: Store, n: AccountNumber, amount: Cents, now: Time, guid: string)
    requires n in s.accounts && s.accounts[n].balance < amount <= s.accounts[n].balance + s.accounts[n].overdraftLimit
    ensures ApplyTransaction(s, TransactionRequest(n, Withdrawal, amount, Completed), now, guid) == Step(Err(InsufficientBalance), s)
  {
  }

  /** The account status is never read: a closed account takes deposits. */
  lemma ClosedAccountAccepted(s: Store, n: AccountNumber, amount: Cents, now: Time, guid: string)
    requires Valid(s) && n in s.accounts && s.accounts[n].status == "Closed"
    requires 0 <= amount && FitsMoney(s.accounts[n].balance + amount) && FitsMoney(amount)
    requires |guid| <= ReferenceWidth && guid !in References(s.ledger)
    ensures ApplyTransaction(s, TransactionRequest(n, Deposit, amount, Completed), now, guid).result.Ok?
  {
  }

  /** No amount is validated on a deposit: a negative deposit lowers the balance. */
  lemma NegativeDepositLowersBalance(s: Store, n: AccountNumber, amount: Cents, now: Time, guid: string)
    requires amount < 0
    ensures var st := ApplyTransaction(s, TransactionRequest(n, Deposit, amount, Completed), now, guid);
      st.result.Ok? ==> st.store.accounts[n].balance < s.accounts[n].balance
  {
  }
}
