/** The per-account history query: the ledger rows of one account, joined
    with that account's type and ordered newest first. */
module History {
  import opened Models

  /** One row of the history: a ledger entry with the joined account details. */
  datatype HistoryRow = HistoryRow(
    transactionId: int,
    referenceNumber: string,
    amount: Cents,
    transactionType: string,
    transactionTimestamp: Time,
    status: string,
    accountNumber: AccountNumber,
    accountType: string)

  function View(e: Entry, accountType: string): HistoryRow {
    HistoryRow(e.id, e.reference, e.amount, e.txType, e.timestamp, e.status, e.account, accountType)
  }

  function Views(s: seq<Entry>, accountType: string): seq<HistoryRow> {
    seq(|s|, i requires 0 <= i < |s| => View(s[i], accountType))
  }

  /** The entries of `ledger` booked on account `n`, in ledger order. */
  function Matching(ledger: seq<Entry>, n: AccountNumber): (r: seq<Entry>)
    ensures forall e :: multiset(r)[e] == if e.account == n then multiset(ledger)[e] else 0
    ensures forall e :: e in r <==> e in ledger && e.account == n
  {
    if ledger == [] then []
    else
      var rest := Matching(ledger[1..], n);
      assert ledger == [ledger[0]] + ledger[1..];
      if ledger[0].account == n then [ledger[0]] + rest else rest
  }

  /** Timestamps never increase along the rows. */
  predicate NewestFirst(rows: seq<HistoryRow>) {
    forall i, j :: 0 <= i < j < |rows| ==> rows[i].transactionTimestamp >= rows[j].transactionTimestamp
  }

  /** Put `row` in front of the first row that is not newer than it. */
  function InsertNewestFirst(row: HistoryRow, rows: seq<HistoryRow>): (r: seq<HistoryRow>)
    ensures multiset(r) == multiset(rows) + multiset{row}
    ensures r[0] == row || (rows != [] && r[0] == rows[0])
  {
    if rows == [] || row.transactionTimestamp >= rows[0].transactionTimestamp then [row] + rows
    else
      assert rows == [rows[0]] + rows[1..];
      [rows[0]] + InsertNewestFirst(row, rows[1..])
  }

  /** Inserting into rows ordered newest first keeps them ordered. */
  lemma {:induction false} InsertKeepsNewestFirst(row: HistoryRow, rows: seq<HistoryRow>)
    requires NewestFirst(rows)
    ensures NewestFirst(InsertNewestFirst(row, rows))
  {
    var r := InsertNewestFirst(row, rows);
    if rows == [] || row.transactionTimestamp >= rows[0].transactionTimestamp {
      assert forall j :: 0 < j < |r| ==> r[j] == rows[j - 1];
    } else {
      var rest := InsertNewestFirst(row, rows[1..]);
      InsertKeepsNewestFirst(row, rows[1..]);
      assert r == [rows[0]] + rest;
      assert forall j :: 0 < j < |r| ==> r[j] == rest[j - 1];
      assert rows[0].transactionTimestamp >= rest[0].transactionTimestamp;
    }
  }

  /** A stable insertion sort on the timestamp, newest first. */
  function SortNewestFirst(rows: seq<HistoryRow>): (r: seq<HistoryRow>)
    ensures NewestFirst(r)
    ensures multiset(r) == multiset(rows)
  {
    if rows == [] then []
    else
      assert rows == [rows[0]] + rows[1..];
      var sorted := SortNewestFirst(rows[1..]);
      InsertKeepsNewestFirst(rows[0], sorted);
      InsertNewestFirst(rows[0], sorted)
  }

  /** GetTransactionsByAccount: the rows of every entry booked on `n` whose
      account row exists, newest first; an empty answer is NotFound. */
  function GetTransactionsByAccount(accounts: map<AccountNumber, Account>, ledger: seq<Entry>, n: AccountNumber)
    : (r: Result<seq<HistoryRow>>)
    ensures r.Err? ==> r.error == NoTransactions
    ensures r.Err? <==> n !in accounts || forall i :: 0 <= i < |ledger| ==> ledger[i].account != n
    ensures r.Ok? ==>
      && NewestFirst(r.value)
      && multiset(r.value) == multiset(Views(Matching(ledger, n), accounts[n].accountType))
      && |r.value| == |Matching(ledger, n)|
  {
    if n !in accounts then Err(NoTransactions)
    else
      var m := Matching(ledger, n);
      var rows := SortNewestFirst(Views(m, accounts[n].accountType));
      assert |rows| == |m| by { assert |multiset(rows)| == |multiset(Views(m, accounts[n].accountType))|; }
      assert m == [] <==> forall i :: 0 <= i < |ledger| ==> ledger[i].account != n by {
        if m != [] { assert m[0] in m; }
        if exists i :: 0 <= i < |ledger| && ledger[i].account == n {
          var i :| 0 <= i < |ledger| && ledger[i].account == n;
          assert ledger[i] in m;
        }
      }
      if rows == [] then Err(NoTransactions) else Ok(rows)
  }

  /** The projected rows of the entries of `n` are exactly the views of those entries. */
  lemma MatchingViews(ledger: seq<Entry>, n: AccountNumber, t: string)
    ensures forall row :: row in Views(Matching(ledger, n), t) ==>
      && row.accountNumber == n && row.accountType == t
      && exists i :: 0 <= i < |ledger| && ledger[i].account == n && View(ledger[i], t) == row
    ensures forall i :: 0 <= i < |ledger| && ledger[i].account == n ==> View(ledger[i], t) in Views(Matching(ledger, n), t)
  {
    var m := Matching(ledger, n);
    var vs := Views(m, t);
    forall row | row in vs
      ensures row.accountNumber == n && row.accountType == t
      ensures exists i :: 0 <= i < |ledger| && ledger[i].account == n && View(ledger[i], t) == row
    {
      var k :| 0 <= k < |vs| && vs[k] == row;
      assert m[k] in m;
      var i :| 0 <= i < |ledger| && ledger[i] == m[k];
    }
    forall i | 0 <= i < |ledger| && ledger[i].account == n
      ensures View(ledger[i], t) in vs
    {
      assert ledger[i] in m;
      var k :| 0 <= k < |m| && m[k] == ledger[i];
      assert vs[k] == View(ledger[i], t);
    }
  }

  /** Every returned row belongs to `n`, and every entry booked on `n` is returned. */
  lemma HistoryIsExact(accounts: map<AccountNumber, Account>, ledger: seq<Entry>, n: AccountNumber)
    requires GetTransactionsByAccount(accounts, ledger, n).Ok?
    ensures var rows := GetTransactionsByAccount(accounts, ledger, n).value;
      && n in accounts
      && (forall row :: row in rows ==> row.accountNumber == n && row.accountType == accounts[n].accountType)
      && (forall row :: row in rows ==> exists i :: 0 <= i < |ledger| && ledger[i].account == n && View(ledger[i], accounts[n].accountType) == row)
      && (forall i :: 0 <= i < |ledger| && ledger[i].account == n ==> View(ledger[i], accounts[n].accountType) in rows)
  {
    var rows := GetTransactionsByAccount(accounts, ledger, n).value;
    var vs := Views(Matching(ledger, n), accounts[n].accountType);
    assert multiset(rows) == multiset(vs);
    assert forall row :: row in rows <==> row in vs by {
      forall row ensures row in rows <==> row in vs {
        assert row in rows <==> row in multiset(rows);
        assert row in vs <==> row in multiset(vs);
      }
    }
    MatchingViews(ledger, n, accounts[n].accountType);
  }
}
