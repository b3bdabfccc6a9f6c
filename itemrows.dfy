/** The pure part of app/stores/passwords/items.ts: the rows `addAsync` and `updateAsync`
    build before they write, the inner join behind `syncItemsAsync` and
    `readByGroupIdAsync`, and the four-table purge that a final `deleteAsync` performs. */
module ItemRows {
  import opened Wrappers
  import opened Schema
  import opened Tables
  import opened History

  /** The tables an item lives in. */
  datatype ItemTables = ItemTables(
    details: seq<ItemRow>, keyValues: seq<KeyValueRow>, history: seq<HistoryRow>,
    groupItems: seq<GroupItemRow>)

  /** A row of the inner join of item details with memberships on `details.id = itemId`. */
  datatype JoinedItem = JoinedItem(details: ItemRow, membership: GroupItemRow)

  // ---------------------------------------------------------------------------
  // Rows built by `addAsync`
  // ---------------------------------------------------------------------------

  /** `newDetails` of `addAsync`: a fresh id, the icon falling back to the group's icon and then
      to null, the other texts copied, and no OTP secret. */
  function NewDetails(details: ItemRow, group: Option<GroupRow>, newId: Id): (r: ItemRow)
    ensures r.id == newId && r.otpSecret.None?
    ensures Truthy(details.icon) ==> r.icon == details.icon
    ensures !Truthy(details.icon) && group.Some? && Truthy(group.value.icon) ==> r.icon == group.value.icon
    ensures !Truthy(details.icon) && !(group.Some? && Truthy(group.value.icon)) ==> r.icon.None?
    ensures r.title == details.title && r.username == details.username && r.password == details.password
    ensures r.note == details.note && r.tags == details.tags && r.url == details.url
  {
    var groupIcon := if group.Some? then group.value.icon else None;
    ItemRow(newId, details.title, details.username, details.password, details.note,
      Or(Or(details.icon, groupIcon), None), details.tags, details.url, None)
  }

  /** An empty icon is never stored: the fallback chain ends in null. */
  lemma NewDetailsIcon(details: ItemRow, group: Option<GroupRow>, newId: Id)
    ensures NewDetails(details, group, newId).icon != Some("")
  {
  }

  /** The one membership row of a new item: in the given group, or in none. */
  function NewMembership(newId: Id, group: Option<GroupRow>): (m: GroupItemRow)
    ensures m.itemId == Some(newId)
    ensures m.groupId == (if group.Some? then Some(group.value.id) else None)
  {
    GroupItemRow(Some(newId), if group.Some? then Some(group.value.id) else None)
  }

  /** `keyValues.map(...)` of `addAsync`: draw `start + i` for the i-th pair, all pointing at the
      new item. */
  function NewKeyValues(keyValues: seq<KeyValueRow>, newId: Id, uuid: nat -> Id, start: nat): (r: seq<KeyValueRow>)
    ensures |r| == |keyValues|
    ensures forall i :: 0 <= i < |r| ==>
      r[i] == KeyValueRow(uuid(start + i), Some(newId), keyValues[i].key, keyValues[i].value)
  {
    seq(|keyValues|, i requires 0 <= i < |keyValues| =>
      KeyValueRow(uuid(start + i), Some(newId), keyValues[i].key, keyValues[i].value))
  }

  // ---------------------------------------------------------------------------
  // Rows built by `updateAsync`
  // ---------------------------------------------------------------------------

  /** `newKeyValues` of `updateAsync`: the pairs re-pointed at the item, the ones without an id
      dropped. */
  function UpdatedKeyValues(keyValues: seq<KeyValueRow>, itemId: Id): (r: seq<KeyValueRow>)
    ensures |r| <= |keyValues|
    ensures forall u :: u in r ==> u.id != "" && u.itemId == Some(itemId)
    ensures forall u :: u in r <==>
      exists k :: k in keyValues && k.id != "" && u == KeyValueRow(k.id, Some(itemId), k.key, k.value)
  {
    if keyValues == [] then []
    else
      var k := keyValues[0];
      var rest := UpdatedKeyValues(keyValues[1..], itemId);
      assert forall x :: x in keyValues <==> x == k || x in keyValues[1..];
      if k.id != "" then [KeyValueRow(k.id, Some(itemId), k.key, k.value)] + rest else rest
  }

  /** How many of `keyValues` have no id: the number of uuids `updateAsync` draws. */
  function MissingIds(keyValues: seq<KeyValueRow>): (n: nat)
    ensures n <= |keyValues|
  {
    if keyValues == [] then 0
    else (if keyValues[0].id == "" then 1 else 0) + MissingIds(keyValues[1..])
  }

  /** `newKeyValuesAdd` of `updateAsync`: a given id is kept, a missing one is drawn in turn. */
  function AddedKeyValues(keyValues: seq<KeyValueRow>, itemId: Id, uuid: nat -> Id, start: nat): (r: seq<KeyValueRow>)
    ensures |r| == |keyValues|
  {
    if keyValues == [] then []
    else
      var k := keyValues[0];
      var next := if k.id == "" then start + 1 else start;
      [KeyValueRow(if k.id != "" then k.id else uuid(start), Some(itemId), k.key, k.value)]
      + AddedKeyValues(keyValues[1..], itemId, uuid, next)
  }

  /** Every added pair points at the item and keeps its key and value; a given id is kept, and
      the i-th pair without one gets the uuid drawn after the ones of the earlier pairs. */
  lemma AddedKeyValuesRows(keyValues: seq<KeyValueRow>, itemId: Id, uuid: nat -> Id, start: nat)
    ensures forall i :: 0 <= i < |keyValues| ==>
      var r := AddedKeyValues(keyValues, itemId, uuid, start)[i];
      r.itemId == Some(itemId) && r.key == keyValues[i].key && r.value == keyValues[i].value
      && r.id == (if keyValues[i].id != "" then keyValues[i].id else uuid(start + MissingIds(keyValues[..i])))
  {
    forall i | 0 <= i < |keyValues|
      ensures var r := AddedKeyValues(keyValues, itemId, uuid, start)[i];
        r.itemId == Some(itemId) && r.key == keyValues[i].key && r.value == keyValues[i].value
        && r.id == (if keyValues[i].id != "" then keyValues[i].id else uuid(start + MissingIds(keyValues[..i])))
    {
      AddedKeyValueAt(keyValues, itemId, uuid, start, i);
    }
  }

  /** The added pair at position `i`, by induction on `i`. */
  lemma {:induction false} AddedKeyValueAt(keyValues: seq<KeyValueRow>, itemId: Id, uuid: nat -> Id, start: nat, i: nat)
    requires i < |keyValues|
    ensures var r := AddedKeyValues(keyValues, itemId, uuid, start)[i];
      r.itemId == Some(itemId) && r.key == keyValues[i].key && r.value == keyValues[i].value
      && r.id == (if keyValues[i].id != "" then keyValues[i].id else uuid(start + MissingIds(keyValues[..i])))
    decreases i
  {
    if i == 0 {
      assert keyValues[..0] == [];
    } else {
      var next := if keyValues[0].id == "" then start + 1 else start;
      var r := AddedKeyValues(keyValues, itemId, uuid, start);
      var rest := AddedKeyValues(keyValues[1..], itemId, uuid, next);
      AddedKeyValueAt(keyValues[1..], itemId, uuid, next, i - 1);
      assert r[i] == rest[i - 1] && keyValues[i] == keyValues[1..][i - 1];
      assert keyValues[..i][1..] == keyValues[1..][..i - 1];
    }
  }

  /** `update(details).set(newDetails)`: the row with that id takes every text column of the
      input (the OTP secret is not among them and is kept). */
  function UpdateDetails(t: seq<ItemRow>, d: ItemRow): (r: seq<ItemRow>)
    ensures |r| == |t|
    ensures forall i :: 0 <= i < |t| && t[i].id != d.id ==> r[i] == t[i]
    ensures forall i :: 0 <= i < |t| && t[i].id == d.id ==>
      r[i] == d.(otpSecret := t[i].otpSecret)
  {
    seq(|t|, i requires 0 <= i < |t| =>
      if t[i].id == d.id then
        ItemRow(d.id, d.title, d.username, d.password, d.note, d.icon, d.tags, d.url, t[i].otpSecret)
      else t[i])
  }

  /** `update(keyValues).set(u).where(eq(id, u.id))`. */
  function SetKeyValue(t: seq<KeyValueRow>, u: KeyValueRow): (r: seq<KeyValueRow>)
    ensures |r| == |t|
    ensures forall i :: 0 <= i < |t| ==> r[i] == (if t[i].id == u.id then u else t[i])
  {
    seq(|t|, i requires 0 <= i < |t| => if t[i].id == u.id then u else t[i])
  }

  /** The updates one after the other. */
  function SetKeyValues(t: seq<KeyValueRow>, us: seq<KeyValueRow>): (r: seq<KeyValueRow>)
    ensures |r| == |t|
    decreases |us|
  {
    if us == [] then t else SetKeyValues(SetKeyValue(t, us[0]), us[1..])
  }

  /** After the updates, a row that no update names is as it was, a row that one names holds
      that update (when the updates name distinct ids), and the ids stay where they were. */
  lemma {:induction false} SetKeyValuesResult(t: seq<KeyValueRow>, us: seq<KeyValueRow>)
    ensures |SetKeyValues(t, us)| == |t|
    ensures forall i :: 0 <= i < |t| ==> SetKeyValues(t, us)[i].id == t[i].id
    ensures forall i :: 0 <= i < |t| && (forall u :: u in us ==> u.id != t[i].id) ==>
      SetKeyValues(t, us)[i] == t[i]
    ensures UniqueBy(us, KeyValueId) ==>
      forall i, u :: 0 <= i < |t| && u in us && u.id == t[i].id ==> SetKeyValues(t, us)[i] == u
    decreases |us|
  {
    if us != [] {
      var t1 := SetKeyValue(t, us[0]);
      SetKeyValuesResult(t1, us[1..]);
      assert forall u :: u in us <==> u == us[0] || u in us[1..];
      if UniqueBy(us, KeyValueId) {
        TailUnique(us, KeyValueId);
        forall i, u | 0 <= i < |t| && u in us && u.id == t[i].id
          ensures SetKeyValues(t, us)[i] == u
        {
          if u == us[0] {
            forall v | v in us[1..] ensures v.id != t1[i].id {
              var k :| 0 <= k < |us[1..]| && us[1..][k] == v;
              assert us[k + 1] == v;
            }
          }
        }
      }
    }
  }

  // ---------------------------------------------------------------------------
  // Joins and queries
  // ---------------------------------------------------------------------------

  /** The join of one details row with the memberships pointing at it. */
  function JoinOne(d: ItemRow, ms: seq<GroupItemRow>): (r: seq<JoinedItem>)
    ensures forall j :: j in r <==> j.details == d && j.membership in ms && j.membership.itemId == Some(d.id)
  {
    if ms == [] then []
    else
      (if ms[0].itemId == Some(d.id) then [JoinedItem(d, ms[0])] else []) + JoinOne(d, ms[1..])
  }

  /** `select().from(details).innerJoin(groupItems, eq(details.id, groupItems.itemId))`. */
  function InnerJoin(ds: seq<ItemRow>, ms: seq<GroupItemRow>): (r: seq<JoinedItem>)
    ensures forall j :: j in r <==> j.details in ds && j.membership in ms && j.membership.itemId == Some(j.details.id)
  {
    if ds == [] then [] else JoinOne(ds[0], ms) + InnerJoin(ds[1..], ms)
  }

  /** The argument of `readByGroupIdAsync` as a query argument: a falsy one becomes `isNull`. */
  function GroupQuery(groupId: Option<string>): string {
    if Truthy(groupId) then groupId.value else ""
  }

  /** The details of the joined rows whose membership `groupId` the query `p` selects. */
  function Filed(js: seq<JoinedItem>, p: string): (r: seq<ItemRow>)
    ensures forall d :: d in r <==> exists j :: j in js && j.details == d && Matches(j.membership.groupId, p)
  {
    if js == [] then []
    else
      assert forall j :: j in js <==> j == js[0] || j in js[1..];
      (if Matches(js[0].membership.groupId, p) then [js[0].details] else []) + Filed(js[1..], p)
  }

  /** `readByGroupIdAsync(groupId)`: the details of the items filed under `groupId` (under no
      group when it is falsy); `undefined` without a vault, which the callers read as `[]`. */
  function ReadByGroupId(present: bool, t: ItemTables, groupId: Option<string>): (r: Option<seq<ItemRow>>)
    ensures r.Some? <==> present
    ensures r.Some? ==> forall d :: d in r.value <==>
      d in t.details && exists m :: m in t.groupItems && m.itemId == Some(d.id) && Matches(m.groupId, GroupQuery(groupId))
  {
    if present then
      var js := InnerJoin(t.details, t.groupItems);
      var p := GroupQuery(groupId);
      assert forall d :: (d in t.details && (exists m :: m in t.groupItems && m.itemId == Some(d.id) && Matches(m.groupId, p))
        ==> JoinedItem(d, PickMembership(t, d, p)) in js);
      Some(Filed(js, p))
    else None
  }

  /** A membership that files `d` under `p`, when there is one. */
  ghost function PickMembership(t: ItemTables, d: ItemRow, p: string): (m: GroupItemRow)
    requires exists m :: m in t.groupItems && m.itemId == Some(d.id) && Matches(m.groupId, p)
    ensures m in t.groupItems && m.itemId == Some(d.id) && Matches(m.groupId, p)
  {
    var m :| m in t.groupItems && m.itemId == Some(d.id) && Matches(m.groupId, p); m
  }

  // ---------------------------------------------------------------------------
  // Final deletion of items
  // ---------------------------------------------------------------------------

  /** A membership `groupId` that a query for some id in `xs` selects. */
  predicate FiledIn(col: Option<Id>, xs: set<Id>) {
    if col.Some? then col.value != "" && col.value in xs else "" in xs
  }

  lemma FiledInOne(col: Option<Id>, p: string)
    ensures FiledIn(col, {p}) <==> Matches(col, p)
  {
  }

  /** The ids of the items filed under one of the groups `xs`. */
  function Doomed(t: ItemTables, xs: set<Id>): (r: set<Id>)
    ensures r <= DetailsIds(t.details)
  {
    set d, m | d in t.details && m in t.groupItems && m.itemId == Some(d.id) && FiledIn(m.groupId, xs) :: d.id
  }

  /** The final `deleteAsync` of every item in `ys`: its key/values, history and memberships
      (matched by their `itemId`) and its details row. */
  function Purge(t: ItemTables, ys: set<Id>): (r: ItemTables)
    ensures forall d :: d in r.details <==> d in t.details && d.id !in ys
    ensures forall k :: k in r.keyValues <==> k in t.keyValues && !Hit(k.itemId, ys)
    ensures forall h :: h in r.history <==> h in t.history && !Hit(h.itemId, ys)
    ensures forall m :: m in r.groupItems <==> m in t.groupItems && !Hit(m.itemId, ys)
  {
    ItemTables(Without(t.details, DetailsKey, ys), Without(t.keyValues, KeyValueItem, ys),
      Without(t.history, HistoryItem, ys), Without(t.groupItems, MembershipItem, ys))
  }

  /** Purging twice is purging the union. */
  lemma PurgeTwice(t: ItemTables, a: set<Id>, b: set<Id>)
    ensures Purge(Purge(t, a), b) == Purge(t, a + b)
  {
    WithoutTwice(t.details, DetailsKey, a, b);
    WithoutTwice(t.keyValues, KeyValueItem, a, b);
    WithoutTwice(t.history, HistoryItem, a, b);
    WithoutTwice(t.groupItems, MembershipItem, a, b);
  }

  /** Purging nothing changes nothing. */
  lemma PurgeNothing(t: ItemTables)
    ensures Purge(t, {}) == t
  {
    WithoutNothing(t.details, DetailsKey);
    WithoutNothing(t.keyValues, KeyValueItem);
    WithoutNothing(t.history, HistoryItem);
    WithoutNothing(t.groupItems, MembershipItem);
  }

  /** After a purge, the items filed under `xs` are the ones that were, less the purged. */
  lemma DoomedAfterPurge(t: ItemTables, ys: set<Id>, xs: set<Id>)
    ensures Doomed(Purge(t, ys), xs) == Doomed(t, xs) - ys
  {
    var u := Purge(t, ys);
    forall id | id in Doomed(t, xs) - ys ensures id in Doomed(u, xs) {
      var d, m :| d in t.details && m in t.groupItems && m.itemId == Some(d.id) && FiledIn(m.groupId, xs) && d.id == id;
      assert d in u.details && m in u.groupItems;
    }
  }

  lemma DoomedUnion(t: ItemTables, a: set<Id>, b: set<Id>)
    ensures Doomed(t, a + b) == Doomed(t, a) + Doomed(t, b)
  {
    forall id | id in Doomed(t, a + b) ensures id in Doomed(t, a) + Doomed(t, b) {
      var d, m :| d in t.details && m in t.groupItems && m.itemId == Some(d.id) && FiledIn(m.groupId, a + b) && d.id == id;
      assert FiledIn(m.groupId, a) || FiledIn(m.groupId, b);
    }
  }

  /** The ids `readByGroupIdAsync(g)` returns are exactly the items filed under `g`. */
  lemma ReadByGroupIdDoomed(t: ItemTables, g: Id)
    ensures DetailsIds(ReadByGroupId(true, t, Some(g)).value) == Doomed(t, {g})
  {
    var r := ReadByGroupId(true, t, Some(g)).value;
    assert GroupQuery(Some(g)) == g;
    forall id | id in Doomed(t, {g}) ensures id in DetailsIds(r) {
      var d, m :| d in t.details && m in t.groupItems && m.itemId == Some(d.id) && FiledIn(m.groupId, {g}) && d.id == id;
      FiledInOne(m.groupId, g);
      assert d in r;
    }
    forall id | id in DetailsIds(r) ensures id in Doomed(t, {g}) {
      var d :| d in r && d.id == id;
      var m :| m in t.groupItems && m.itemId == Some(d.id) && Matches(m.groupId, g);
      FiledInOne(m.groupId, g);
    }
  }

  /** One step of a cascade: purging the items now filed under `s` from the tables left by
      purging those filed under `done` is purging, from the original tables, the items filed
      under `done + s`. */
  lemma PurgeStep(t: ItemTables, done: set<Id>, s: set<Id>)
    ensures Purge(Purge(t, Doomed(t, done)), Doomed(Purge(t, Doomed(t, done)), s)) == Purge(t, Doomed(t, done + s))
  {
    var a := Doomed(t, done);
    DoomedAfterPurge(t, a, s);
    PurgeTwice(t, a, Doomed(t, s) - a);
    DoomedUnion(t, done, s);
    assert a + (Doomed(t, s) - a) == Doomed(t, done + s);
  }

  /** Purging the items filed under no group at all changes nothing. */
  lemma DoomedNothing(t: ItemTables)
    ensures Doomed(t, {}) == {} && Purge(t, Doomed(t, {})) == t
  {
    PurgeNothing(t);
  }

  /** No purged item is left filed anywhere, and nothing of it remains in the four tables. */
  lemma PurgeLeavesNothing(t: ItemTables, ys: set<Id>, xs: set<Id>)
    ensures Doomed(Purge(t, ys), xs) !! ys
    ensures forall d :: d in Purge(t, ys).details ==> d.id !in ys
    ensures forall k :: k in Purge(t, ys).keyValues ==> !Hit(k.itemId, ys)
  {
    DoomedAfterPurge(t, ys, xs);
  }

  // ---------------------------------------------------------------------------
  // Keys of the item tables
  // ---------------------------------------------------------------------------

  function DetailsIds(t: seq<ItemRow>): set<Id> {
    set d | d in t :: d.id
  }

  lemma DetailsIdsSnoc(ds: seq<ItemRow>, j: nat)
    requires j < |ds|
    ensures DetailsIds(ds[..j + 1]) == DetailsIds(ds[..j]) + {ds[j].id}
  {
    assert ds[..j + 1] == ds[..j] + [ds[j]];
  }

  function KeyValueIds(t: seq<KeyValueRow>): set<Id> {
    set k | k in t :: k.id
  }

  /** What the primary and composite keys guarantee of the item tables. */
  predicate TablesValid(t: ItemTables) {
    UniqueBy(t.details, DetailsId) && UniqueBy(t.keyValues, KeyValueId)
    && UniqueBy(t.history, HistoryId) && MembershipsKeyed(t.groupItems)
  }

  /** A final deletion keeps every key. */
  lemma PurgeKeepsValid(t: ItemTables, ys: set<Id>)
    requires TablesValid(t)
    ensures TablesValid(Purge(t, ys))
  {
    WithoutUnique(t.details, DetailsKey, ys, DetailsId);
    WithoutUnique(t.keyValues, KeyValueItem, ys, KeyValueId);
    WithoutUnique(t.history, HistoryItem, ys, HistoryId);
    WithoutKeyed(t.groupItems, ys);
  }

  /** A multi-row key/value insert succeeds: the new ids are distinct and not yet taken. */
  predicate Insertable(t: seq<KeyValueRow>, rows: seq<KeyValueRow>) {
    UniqueBy(rows, KeyValueId) && forall r :: r in rows ==> r.id !in KeyValueIds(t)
  }

  /** An insert that succeeds keeps the key unique. */
  lemma InsertUnique(t: seq<KeyValueRow>, rows: seq<KeyValueRow>)
    requires UniqueBy(t, KeyValueId) && Insertable(t, rows)
    ensures UniqueBy(t + rows, KeyValueId)
  {
    var r := t + rows;
    forall i, j | 0 <= i < j < |r| ensures r[i].id != r[j].id {
      if j >= |t| {
        assert r[j] == rows[j - |t|] && rows[j - |t|] in rows;
        if i < |t| {
          assert r[i] == t[i] && t[i] in t;
        } else {
          assert r[i] == rows[i - |t|];
        }
      } else {
        assert r[i] == t[i] && r[j] == t[j];
      }
    }
  }

  // ---------------------------------------------------------------------------
  // The transaction of `addAsync`
  // ---------------------------------------------------------------------------

  /** The three inserts of `addAsync`, all or nothing: `None` when one of them breaks a key
      (the details id is taken, the membership already exists, a key/value id is taken or
      repeated). The key/value insert is skipped when there are none. */
  function AddRows(t: ItemTables, d: ItemRow, m: GroupItemRow, kvs: seq<KeyValueRow>): (r: Option<ItemTables>)
    ensures r.Some? ==> d.id !in DetailsIds(t.details) && r.value.history == t.history
    ensures r.Some? ==> d.id in DetailsIds(r.value.details) && m in r.value.groupItems
  {
    if d.id in DetailsIds(t.details) || (m.itemId.Some? && m.groupId.Some? && m in t.groupItems)
      || (kvs != [] && !Insertable(t.keyValues, kvs))
    then None
    else Some(ItemTables(t.details + [d], t.keyValues + kvs, t.history, t.groupItems + [m]))
  }

  /** A committed add appends the three kinds of rows and nothing else, and keeps every key. */
  lemma AddRowsEffect(t: ItemTables, d: ItemRow, m: GroupItemRow, kvs: seq<KeyValueRow>)
    requires TablesValid(t)
    ensures AddRows(t, d, m, kvs).Some? <==>
      (d.id !in DetailsIds(t.details) && !(m.itemId.Some? && m.groupId.Some? && m in t.groupItems)
       && (kvs == [] || Insertable(t.keyValues, kvs)))
    ensures AddRows(t, d, m, kvs).Some? ==>
      var r := AddRows(t, d, m, kvs).value;
      TablesValid(r) && r.details == t.details + [d] && r.groupItems == t.groupItems + [m]
      && r.keyValues == t.keyValues + kvs && r.history == t.history
  {
    if AddRows(t, d, m, kvs).Some? {
      forall y | y in t.details ensures y.id != d.id {
        assert y.id in DetailsIds(t.details);
      }
      AppendUnique(t.details, DetailsId, d);
      AppendKeyed(t.groupItems, m);
      if kvs == [] {
        assert t.keyValues + kvs == t.keyValues;
      } else {
        InsertUnique(t.keyValues, kvs);
      }
    }
  }

  // ---------------------------------------------------------------------------
  // `addKeyValueAsync` and `addKeyValuesAsync`
  // ---------------------------------------------------------------------------

  /** `{ id: newId, itemId: item?.itemId || itemId, key: item?.key, value: item?.value }`: the
      input's item id wins when it is truthy; a missing input gives a row with no key or value. */
  function NewKeyValue(item: Option<KeyValueRow>, itemId: Option<Id>, newId: Id): (r: KeyValueRow)
    ensures r.id == newId
    ensures item.Some? && Truthy(item.value.itemId) ==> r.itemId == item.value.itemId
    ensures !(item.Some? && Truthy(item.value.itemId)) ==> r.itemId == itemId
    ensures item.Some? ==> r.key == item.value.key && r.value == item.value.value
    ensures item.None? ==> r.key.None? && r.value.None?
  {
    match item
    case None => KeyValueRow(newId, itemId, None, None)
    case Some(k) => KeyValueRow(newId, Or(k.itemId, itemId), k.key, k.value)
  }

  /** `items.map(...)` of `addKeyValuesAsync`: the i-th row takes the uuid drawn i-th. */
  function NewKeyValueRows(items: seq<KeyValueRow>, itemId: Option<Id>, uuid: nat -> Id, start: nat): (r: seq<KeyValueRow>)
    ensures |r| == |items|
    ensures forall i :: 0 <= i < |r| ==> r[i] == NewKeyValue(Some(items[i]), itemId, uuid(start + i))
  {
    seq(|items|, i requires 0 <= i < |items| => NewKeyValue(Some(items[i]), itemId, uuid(start + i)))
  }

  /** The multi-row insert of `addKeyValuesAsync`; an empty one is refused by the query builder
      and, like a key conflict, caught: the table stays as it was. */
  function InsertKeyValues(t: seq<KeyValueRow>, rows: seq<KeyValueRow>): (r: seq<KeyValueRow>)
    ensures rows != [] && Insertable(t, rows) ==> r == t + rows
    ensures !(rows != [] && Insertable(t, rows)) ==> r == t
  {
    if rows != [] && Insertable(t, rows) then t + rows else t
  }

  /** The insert keeps the key unique, whether it commits or not. */
  lemma InsertKeyValuesValid(t: seq<KeyValueRow>, rows: seq<KeyValueRow>)
    requires UniqueBy(t, KeyValueId)
    ensures UniqueBy(InsertKeyValues(t, rows), KeyValueId)
  {
    if rows != [] && Insertable(t, rows) {
      InsertUnique(t, rows);
    }
  }

  // ---------------------------------------------------------------------------
  // The transaction of `updateAsync`
  // ---------------------------------------------------------------------------

  /** The argument of `updateAsync`. */
  datatype ItemUpdate = ItemUpdate(
    details: ItemRow, keyValues: seq<KeyValueRow>, keyValuesAdd: seq<KeyValueRow>,
    keyValuesDelete: seq<KeyValueRow>, groupId: Option<Id>)

  /** The ids `keyValuesDelete` names. */
  function DeletedIds(u: ItemUpdate): set<Id> {
    set k | k in u.keyValuesDelete :: k.id
  }

  /** The statements of the transaction of `updateAsync`, in order: the details row, the
      memberships, the key/value updates, the insert of `adds` (only when there are some), the
      deletes. `None` when a statement fails and the transaction rolls back. */
  function UpdateTables(t: ItemTables, u: ItemUpdate, adds: seq<KeyValueRow>): (r: Option<ItemTables>)
    ensures r.Some? ==> r.value.history == t.history && |r.value.details| == |t.details|
    ensures r.Some? ==> forall k :: k in r.value.keyValues ==> k.id !in DeletedIds(u)
  {
    var id := u.details.id;
    match Regroup(t.groupItems, id, u.groupId)
    case None => None
    case Some(groupItems) =>
      var updated := SetKeyValues(t.keyValues, UpdatedKeyValues(u.keyValues, id));
      if adds != [] && !Insertable(updated, adds) then None
      else
        Some(ItemTables(UpdateDetails(t.details, u.details), Without(updated + adds, KeyValueKey, DeletedIds(u)),
          t.history, groupItems))
  }

  lemma SetKeyValuesIds(t: seq<KeyValueRow>, us: seq<KeyValueRow>)
    ensures KeyValueIds(SetKeyValues(t, us)) == KeyValueIds(t)
  {
    SetKeyValuesResult(t, us);
    var r := SetKeyValues(t, us);
    forall x | x in KeyValueIds(t) ensures x in KeyValueIds(r) {
      var k :| k in t && k.id == x;
      var i :| 0 <= i < |t| && t[i] == k;
      assert r[i] in r;
    }
    forall x | x in KeyValueIds(r) ensures x in KeyValueIds(t) {
      var k :| k in r && k.id == x;
      var i :| 0 <= i < |r| && r[i] == k;
      assert t[i] in t;
    }
  }

  /** When the transaction fails: exactly when the item has two memberships or more and is
      moved into a group, or an added pair's id is taken or repeated. */
  lemma UpdateTablesFails(t: ItemTables, u: ItemUpdate, adds: seq<KeyValueRow>)
    ensures UpdateTables(t, u, adds).None? <==>
      (u.groupId.Some? && MembershipCount(t.groupItems, u.details.id) >= 2)
      || (adds != [] && !Insertable(t.keyValues, adds))
  {
    SetKeyValuesIds(t.keyValues, UpdatedKeyValues(u.keyValues, u.details.id));
  }

  /** What a committed update leaves: the details row replaced (its OTP secret kept), every
      membership of the item in the new group and the others untouched, the key/value rows
      that carry an id updated to their new contents, the added ones inserted, the deleted ids
      gone, no key/value row from anywhere else, the history untouched. */
  lemma UpdateTablesEffect(t: ItemTables, u: ItemUpdate, adds: seq<KeyValueRow>)
    requires UpdateTables(t, u, adds).Some?
    ensures var r := UpdateTables(t, u, adds).value;
      && r.details == UpdateDetails(t.details, u.details)
      && r.history == t.history
      && |r.groupItems| == |t.groupItems|
      && (forall i :: 0 <= i < |t.groupItems| && t.groupItems[i].itemId == Some(u.details.id) ==>
            r.groupItems[i] == GroupItemRow(Some(u.details.id), u.groupId))
      && (forall i :: 0 <= i < |t.groupItems| && t.groupItems[i].itemId != Some(u.details.id) ==>
            r.groupItems[i] == t.groupItems[i])
      && (forall a :: a in adds && a.id !in DeletedIds(u) ==> a in r.keyValues)
      && (forall k :: k in r.keyValues ==> k.id !in DeletedIds(u))
      && (forall k :: (k in t.keyValues && k.id !in DeletedIds(u)
            && (forall v :: v in UpdatedKeyValues(u.keyValues, u.details.id) ==> v.id != k.id)) ==> k in r.keyValues)
      && (UniqueBy(UpdatedKeyValues(u.keyValues, u.details.id), KeyValueId) ==>
            forall k, v :: (k in t.keyValues && v in UpdatedKeyValues(u.keyValues, u.details.id)
              && v.id == k.id && k.id !in DeletedIds(u)) ==> v in r.keyValues)
      && (forall k :: k in r.keyValues ==>
            k in t.keyValues || k in UpdatedKeyValues(u.keyValues, u.details.id) || k in adds)
  {
    var us := UpdatedKeyValues(u.keyValues, u.details.id);
    KeyValuesEffect(t.keyValues, us, adds, DeletedIds(u));
  }

  /** The key/value part of a committed update: the updates applied, the additions appended,
      the deleted ids removed. */
  lemma KeyValuesEffect(kv: seq<KeyValueRow>, us: seq<KeyValueRow>, adds: seq<KeyValueRow>, deleted: set<Id>)
    ensures var r := Without(SetKeyValues(kv, us) + adds, KeyValueKey, deleted);
      && (forall a :: a in adds && a.id !in deleted ==> a in r)
      && (forall k :: k in r ==> k.id !in deleted)
      && (forall k :: (k in kv && k.id !in deleted && (forall v :: v in us ==> v.id != k.id)) ==> k in r)
      && (UniqueBy(us, KeyValueId) ==>
            forall k, v :: k in kv && v in us && v.id == k.id && k.id !in deleted ==> v in r)
      && (forall k :: k in r ==> k in kv || k in us || k in adds)
  {
    var updated := SetKeyValues(kv, us);
    SetKeyValuesResult(kv, us);
    SetKeyValuesFrom(kv, us);
    forall k | k in kv && k.id !in deleted && (forall v :: v in us ==> v.id != k.id)
      ensures k in updated
    {
      var i :| 0 <= i < |kv| && kv[i] == k;
      assert updated[i] in updated;
    }
    if UniqueBy(us, KeyValueId) {
      forall k, v | k in kv && v in us && v.id == k.id && k.id !in deleted
        ensures v in updated
      {
        var i :| 0 <= i < |kv| && kv[i] == k;
        assert updated[i] in updated;
      }
    }
  }

  /** Every row after the updates is an old row or one of the updates. */
  lemma {:induction false} SetKeyValuesFrom(t: seq<KeyValueRow>, us: seq<KeyValueRow>)
    ensures forall k :: k in SetKeyValues(t, us) ==> k in t || k in us
    decreases |us|
  {
    if us != [] {
      var t1 := SetKeyValue(t, us[0]);
      SetKeyValuesFrom(t1, us[1..]);
      forall k | k in t1 ensures k in t || k == us[0] {
        var i :| 0 <= i < |t1| && t1[i] == k;
        assert t[i] in t;
      }
      assert forall k :: k in us[1..] ==> k in us;
    }
  }

  /** A committed update keeps every key. */
  lemma UpdateTablesValid(t: ItemTables, u: ItemUpdate, adds: seq<KeyValueRow>)
    requires TablesValid(t) && UpdateTables(t, u, adds).Some?
    ensures TablesValid(UpdateTables(t, u, adds).value)
  {
    var id := u.details.id;
    var us := UpdatedKeyValues(u.keyValues, id);
    var updated := SetKeyValues(t.keyValues, us);
    RegroupKeyed(t.groupItems, id, u.groupId);
    SetKeyValuesResult(t.keyValues, us);
    assert UniqueBy(updated, KeyValueId);
    SetKeyValuesIds(t.keyValues, us);
    if adds != [] {
      InsertUnique(updated, adds);
    } else {
      assert updated + adds == updated;
    }
    WithoutUnique(updated + adds, KeyValueKey, DeletedIds(u), KeyValueId);
    var d := UpdateDetails(t.details, u.details);
    assert UniqueBy(d, DetailsId);
  }

  // ---------------------------------------------------------------------------
  // `readAsync`
  // ---------------------------------------------------------------------------

  /** What `readAsync` returns for an item. */
  datatype ItemRead = ItemRead(details: ItemRow, history: seq<HistoryRow>, keyValues: seq<KeyValueRow>)

  /** `findFirst({ where: eq(details.id, id) })`. */
  function FindDetails(t: seq<ItemRow>, id: Id): (r: Option<ItemRow>)
    ensures r.Some? <==> id in DetailsIds(t)
    ensures r.Some? ==> r.value in t && r.value.id == id
  {
    if t == [] then None
    else if t[0].id == id then Some(t[0])
    else FindDetails(t[1..], id)
  }

  /** `readAsync(itemId)`: null for a falsy id, without a vault or without a details row;
      otherwise the details with the history the hub store gives (rethrowing its failure)
      and the key/values `readKeyValues` gives, each defaulting to `[]`. */
  function ReadAsync(present: bool, t: ItemTables, hub: HubStore,
                     readKeyValues: Id -> Option<seq<KeyValueRow>>, itemId: Option<string>): (r: Outcome<Option<ItemRead>>)
    ensures !Truthy(itemId) || !present ==> r == Returned(None)
    ensures Truthy(itemId) && present && itemId.value !in DetailsIds(t.details) ==> r == Returned(None)
    ensures r.Returned? && r.value.Some? ==>
      r.value.value.details in t.details && Some(r.value.value.details.id) == itemId
  {
    if !Truthy(itemId) then Returned(None)
    else
      var found := if present then FindDetails(t.details, itemId.value) else None;
      match found
      case None => Returned(None)
      case Some(details) =>
        match GetAsync(hub, itemId)
        case Threw(e) => Threw(e)
        case Returned(history) =>
          Returned(Some(ItemRead(details, history.GetOr([]), readKeyValues(itemId.value).GetOr([]))))
  }

  /** With the hub store as built, reading an item that exists always fails. */
  lemma ReadAsyncAsBuilt(t: ItemTables, readKeyValues: Id -> Option<seq<KeyValueRow>>, id: Id)
    requires id != "" && id in DetailsIds(t.details)
    ensures ReadAsync(true, t, HubStoreAsBuilt, readKeyValues, Some(id)) == Threw("Database not initialized")
  {
  }

  /** With a `db` handle, a read returns the item's history rows. */
  lemma ReadAsyncHistory(t: ItemTables, rows: seq<HistoryRow>, readKeyValues: Id -> Option<seq<KeyValueRow>>, id: Id)
    requires id != "" && id in DetailsIds(t.details)
    ensures var r := ReadAsync(true, t, HubStore(Some(rows)), readKeyValues, Some(id));
      r.Returned? && r.value.Some? && forall h :: h in r.value.value.history <==> h in rows && h.itemId == Some(id)
  {
  }
}
