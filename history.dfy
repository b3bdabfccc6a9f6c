/** The guarded history read of app/stores/passwords/history.ts. */
module History {
  import opened Wrappers
  import opened Schema
  import opened Tables

  /** The part of the hub store `getAsync` looks at: its `db` handle, when it has one, over
      the history table. */
  datatype HubStore = HubStore(db: Option<seq<HistoryRow>>)

  /** The hub store as app/stores/haexhub.ts builds it: it exposes `orm` and no `db`. */
  const HubStoreAsBuilt := HubStore(None)

  /** `select().from(history).where(eq(itemId, id))`. */
  function HistoryOf(rows: seq<HistoryRow>, id: Id): (r: seq<HistoryRow>)
    ensures forall h :: h in r <==> h in rows && h.itemId == Some(id)
  {
    if rows == [] then []
    else (if rows[0].itemId == Some(id) then [rows[0]] else []) + HistoryOf(rows[1..], id)
  }

  /** `getAsync(itemId)`: null for a falsy id, a rethrown "Database not initialized" without
      a `db` handle, otherwise the item's history rows. */
  function GetAsync(hub: HubStore, itemId: Option<string>): (r: Outcome<Option<seq<HistoryRow>>>)
    ensures !Truthy(itemId) ==> r == Returned(None)
    ensures Truthy(itemId) && hub.db.None? ==> r == Threw("Database not initialized")
    ensures Truthy(itemId) && hub.db.Some? ==>
      r.Returned? && r.value.Some? && forall h :: h in r.value.value <==> h in hub.db.value && h.itemId == itemId
  {
    if !Truthy(itemId) then Returned(None)
    else if hub.db.None? then Threw("Database not initialized")
    else Returned(Some(HistoryOf(hub.db.value, itemId.value)))
  }

  /** With the hub store as built, every read for a real id throws, and no read ever yields
      an empty history in place of a failure. */
  lemma AsBuiltAlwaysThrows(itemId: Option<string>)
    ensures GetAsync(HubStoreAsBuilt, itemId).Threw? <==> Truthy(itemId)
    ensures GetAsync(HubStoreAsBuilt, itemId).Returned? ==> GetAsync(HubStoreAsBuilt, itemId).value.None?
  {
  }
}
