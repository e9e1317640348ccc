/** The primary-key lookup of `UpdateTransaction` and `SoftDelete` as the
    handlers call it. The key column of a ledger row is a 64-bit integer, but
    both handlers take their id from the route as a 32-bit integer and hand it
    to the lookup unconverted. The entity lookup compares the type of each key
    value with the type of its key property and throws before querying when
    they differ, so as written both handlers fail for every id and change
    nothing. The functions in `Ledger` model the evidently intended lookup,
    and the rest of the model uses them. */
module KeyLookup {
  import opened Models
  import opened Ledger

  /** A key value together with the integer type it is passed as. */
  datatype KeyValue = Int32Key(n: int) | Int64Key(n: int)

  /** The entity lookup by primary key over the ledger: a key value of the key
      column's own type finds the row with that id, any other is refused. */
  function FindByKey(ledger: seq<Entry>, key: KeyValue): (r: Result<Option<nat>>)
    ensures r.Err? <==> key.Int32Key?
    ensures r.Err? ==> r.error == KeyTypeMismatch
    ensures r.Ok? ==> (r.value.None? <==> forall j :: 0 <= j < |ledger| ==> ledger[j].id != key.n)
    ensures r.Ok? && r.value.Some? ==> r.value.value < |ledger| && ledger[r.value.value].id == key.n
  {
    if key.Int32Key? then Err(KeyTypeMismatch) else Ok(FindEntry(ledger, key.n))
  }

  /** UpdateTransaction as written: the route id reaches the lookup as a
      32-bit key. Past a successful lookup it would be the status update of
      `Ledger`, but the lookup refuses every such key, so every id fails and
      neither store changes. */
  function StatusUpdateAsWritten(s: Store, id: int, status: string, now: Time): (st: Step<()>)
    ensures st.result == Err(KeyTypeMismatch)
    ensures st.store == s
  {
    match FindByKey(s.ledger, Int32Key(id))
    case Err(e) => Step(Err(e), s)
    case Ok(_) => ApplyStatusUpdate(s, id, status, now)
  }

  /** SoftDelete as written: the same lookup, then the cancellation; every
      id fails and neither store changes. */
  function SoftDeleteAsWritten(s: Store, id: int, now: Time): (st: Step<()>)
    ensures st.result == Err(KeyTypeMismatch)
    ensures st.store == s
  {
    match FindByKey(s.ledger, Int32Key(id))
    case Err(e) => Step(Err(e), s)
    case Ok(_) => ApplySoftDelete(s, id, now)
  }

  /** The intended lookup, with the id widened to the key's type, finds
      exactly the row the model's handlers update. */
  lemma WidenedKeyFindsRow(ledger: seq<Entry>, id: int)
    ensures FindByKey(ledger, Int64Key(id)) == Ok(FindEntry(ledger, id))
  {
  }

  /** The discrepancy: on a consistent store, updating the status of an
      existing row to a status that fits its column succeeds as intended but
      fails as written. */
  lemma StatusUpdateOfExistingRowRefused(s: Store, k: int, status: string, now: Time)
    requires Valid(s) && 0 <= k < |s.ledger| && |status| <= StatusWidth
    ensures ApplyStatusUpdate(s, s.ledger[k].id, status, now).result == Ok(())
    ensures StatusUpdateAsWritten(s, s.ledger[k].id, status, now).result == Err(KeyTypeMismatch)
  {
  }

  /** The discrepancy for SoftDelete: cancelling an existing row succeeds as
      intended but fails as written. */
  lemma SoftDeleteOfExistingRowRefused(s: Store, k: int, now: Time)
    requires Valid(s) && 0 <= k < |s.ledger|
    ensures ApplySoftDelete(s, s.ledger[k].id, now).result == Ok(())
    ensures SoftDeleteAsWritten(s, s.ledger[k].id, now).result == Err(KeyTypeMismatch)
  {
  }
}
