/** The stateful side of app/stores/passwords/groups.ts and app/stores/passwords/items.ts:
    the tables of the open vault, and the two stores with their cached lists, which call each
    other (`deleteGroupAsync` deletes items, `deleteAsync` creates the trash group) and so
    live in one module. Each method is specified by the pure definitions of GroupTree,
    GroupMoves and ItemRows. */
module PasswordStores {
  import opened Wrappers
  import opened Schema
  import opened Tables
  import opened GroupTree
  import opened GroupMoves
  import opened ItemRows

  /** The tables of the current vault. `present` is false when there is no current vault:
      every query through `currentVault?.drizzle` then yields `undefined` and every statement
      is skipped. */
  class Vault {
    const present: bool
    var groups: seq<GroupRow>
    var details: seq<ItemRow>
    var keyValues: seq<KeyValueRow>
    var history: seq<HistoryRow>
    var groupItems: seq<GroupItemRow>

    function Items(): ItemTables
      reads this
    {
      ItemTables(details, keyValues, history, groupItems)
    }

    /** What the keys of the tables guarantee. */
    ghost predicate Valid()
      reads this
    {
      UniqueBy(groups, GroupId) && TablesValid(Items())
    }

    constructor(present: bool, groups: seq<GroupRow>, items: ItemTables)
      ensures this.present == present && this.groups == groups && Items() == items
    {
      this.present := present;
      this.groups := groups;
      details, keyValues, history, groupItems := items.details, items.keyValues, items.history, items.groupItems;
    }

    /** Writes the item tables a committed statement or transaction leaves. */
    method Commit(t: ItemTables)
      modifies this
      ensures Items() == t && groups == old(groups)
    {
      details, keyValues, history, groupItems := t.details, t.keyValues, t.history, t.groupItems;
    }
  }

  /** The group store and the item store: their cached `groups` and `items` lists, the vault
      they write to, and `crypto.randomUUID` as the oracle `uuid` with the number of ids
      drawn so far. */
  class Stores {
    const vault: Vault
    const uuid: nat -> Id
    var draws: nat
    var groups: seq<GroupRow>
    var items: seq<JoinedItem>

    constructor(vault: Vault, uuid: nat -> Id)
      ensures this.vault == vault && this.uuid == uuid
      ensures draws == 0 && groups == [] && items == []
    {
      this.vault := vault;
      this.uuid := uuid;
      draws := 0;
      groups := [];
      items := [];
    }

    /** Both cached lists hold what the last sync read. */
    ghost predicate Synced()
      reads this, vault
    {
      groups == ReadGroups(vault.present, vault.groups, None).GetOr([])
      && items == (if vault.present then InnerJoin(vault.details, vault.groupItems) else [])
    }

    /** `crypto.randomUUID()`. */
    method RandomUuid() returns (id: Id)
      modifies this
      ensures id == uuid(old(draws)) && draws == old(draws) + 1
      ensures groups == old(groups) && items == old(items)
    {
      id := uuid(draws);
      draws := draws + 1;
    }

    /** `syncItemsAsync`: the cached items become the inner join of the details with the
        memberships, `[]` without a vault. */
    method SyncItems()
      modifies this
      ensures forall j :: j in items <==>
        vault.present && j.details in vault.details && j.membership in vault.groupItems
        && j.membership.itemId == Some(j.details.id)
      ensures items == (if vault.present then InnerJoin(vault.details, vault.groupItems) else [])
      ensures groups == old(groups) && draws == old(draws)
    {
      items := if vault.present then InnerJoin(vault.details, vault.groupItems) else [];
    }

    /** `syncGroupItemsAsync`: the cached groups become every group ordered by `order` with
        nulls last (`[]` without a vault), then the items are synced. */
    method SyncGroupItems()
      modifies this
      ensures Synced() && draws == old(draws)
      ensures vault.present ==> SortedByOrder(groups) && multiset(groups) == multiset(vault.groups)
      ensures !vault.present ==> groups == [] && items == []
    {
      groups := ReadGroups(vault.present, vault.groups, None).GetOr([]);
      SyncItems();
    }

    // -------------------------------------------------------------------------
    // groups.ts
    // -------------------------------------------------------------------------

    /** `addGroupAsync(group)`: the row `NewGroup` builds (an id is drawn only when the draft
        has none) is inserted, the caches are synced and the row is returned. An id already
        in the table makes the insert throw before the sync. */
    method AddGroup(draft: GroupDraft) returns (r: Outcome<GroupRow>)
      requires vault.Valid()
      modifies this, vault
      ensures vault.Valid() && vault.Items() == old(vault.Items())
      ensures draws == old(draws) + (if Truthy(draft.id) then 0 else 1)
      ensures var g := NewGroup(draft, uuid(old(draws)));
        if vault.present && g.id in Ids(old(vault.groups)) then
          r == Threw(UniqueFailed) && vault.groups == old(vault.groups)
          && groups == old(groups) && items == old(items)
        else
          r == Returned(g) && Synced()
          && vault.groups == old(vault.groups) + (if vault.present then [g] else [])
    {
      var newId: Id := "";
      if !Truthy(draft.id) {
        newId := RandomUuid();
      }
      assert Truthy(draft.id) ==> draws == old(draws);
      var g := NewGroup(draft, if Truthy(draft.id) then draft.id.value else newId);
      assert g == NewGroup(draft, uuid(old(draws)));
      if vault.present {
        if g.id in Ids(vault.groups) {
          return Threw(UniqueFailed);
        }
        forall y | y in vault.groups ensures y.id != g.id {
          assert y.id in Ids(vault.groups);
        }
        AppendUnique(vault.groups, GroupId, g);
        vault.groups := vault.groups + [g];
      }
      SyncGroupItems();
      r := Returned(g);
    }

    /** `updateAsync(group)`: nothing without an id; otherwise the row with that id takes
        every field the argument defines. */
    method UpdateGroup(p: GroupPatch)
      requires vault.Valid()
      modifies vault
      ensures vault.Valid() && vault.Items() == old(vault.Items())
      ensures vault.groups == if vault.present && p.id != "" then PatchRows(old(vault.groups), p) else old(vault.groups)
    {
      if p.id == "" {
        return;
      }
      if vault.present {
        PatchKeepsIds(vault.groups, p);
        vault.groups := PatchRows(vault.groups, p);
      }
    }

    /** `createTrashIfNotExistsAsync`: `None` (the source's `true`) when the trash group is
        there; otherwise it is added through `addGroupAsync`, which cannot fail then, and
        returned. Either way the vault then holds exactly one trash row. */
    method CreateTrashIfNotExists() returns (created: Option<GroupRow>)
      requires vault.Valid()
      modifies this, vault
      ensures vault.Valid() && vault.Items() == old(vault.Items()) && draws == old(draws)
      ensures vault.groups == WithTrash(vault.present, old(vault.groups))
      ensures vault.present ==> |WithId(vault.groups, TrashId)| == 1
      ensures created.None? <==> vault.present && TrashId in Ids(old(vault.groups))
      ensures created.Some? ==> created.value == NewGroup(TrashDraft, TrashId) && Synced()
      ensures created.None? ==> groups == old(groups) && items == old(items)
    {
      if vault.present {
        WithTrashOnce(vault.groups);
      }
      var found := ReadGroup(vault.present, vault.groups, TrashId);
      if found.Some? {
        assert found.value.id in Ids(vault.groups);
        return None;
      }
      var r := AddGroup(TrashDraft);
      created := Some(r.value);
    }

    /** `getChildGroupsRecursiveAsync(groupId)`: the accumulator only ever receives what the
        recursive calls return, so the result is empty. The recursion ends because the groups
        below `groupId` are ranked. */
    method GetChildGroupsRecursive(groupId: Id, ghost rank: map<Id, nat>, ghost h: nat) returns (acc: seq<GroupRow>)
      requires vault.present ==> Descending(vault.groups, rank) && Below(vault.groups, rank, groupId, h)
      decreases h
      ensures acc == []
    {
      acc := [];
      var childGroups := GetByParentId(vault.present, vault.groups, groupId);
      var i := 0;
      while i < |childGroups|
        invariant 0 <= i <= |childGroups|
        invariant acc == []
      {
        var child := childGroups[i];
        assert child in childGroups;
        var sub := GetChildGroupsRecursive(child.id, rank, rank[child.id]);
        acc := acc + sub;
        i := i + 1;
      }
    }

    /** The result `getChildGroupsRecursiveAsync` is evidently meant to have: each child
        followed by what the same walk finds below it, so that the group and the result
        together make up the group's whole subtree. */
    method GetDescendantGroups(groupId: Id, ghost rank: map<Id, nat>, ghost h: nat) returns (acc: seq<GroupRow>)
      requires vault.present ==> Descending(vault.groups, rank) && Below(vault.groups, rank, groupId, h)
      decreases h
      ensures forall g :: g in acc ==> g in vault.groups
      ensures !vault.present ==> acc == []
      ensures vault.present ==> {groupId} + Ids(acc) == SubtreeIds(vault.groups, rank, groupId, h)
    {
      acc := [];
      var childGroups := GetByParentId(vault.present, vault.groups, groupId);
      var i := 0;
      while i < |childGroups|
        invariant 0 <= i <= |childGroups|
        invariant forall g :: g in acc ==> g in vault.groups
        invariant !vault.present ==> acc == []
        invariant vault.present ==> Ids(acc) == SubtreesOf(vault.groups, rank, childGroups[..i])
      {
        var child := childGroups[i];
        assert child in childGroups;
        var sub := GetDescendantGroups(child.id, rank, rank[child.id]);
        if vault.present {
          SubtreesOfSnoc(vault.groups, rank, childGroups, i);
          IdsConcat(acc, child, sub);
        }
        acc := acc + [child] + sub;
        i := i + 1;
      }
      if vault.present {
        assert childGroups[..i] == childGroups;
        SubtreeSplit(vault.groups, rank, groupId, h, childGroups);
      }
    }

    /** What the loop of `insertGroupItemsAsync` reads and writes. */
    function MoveView(): MoveState
      reads this, vault
    {
      MoveState(groups, vault.groups, vault.groupItems)
    }

    /** One pass of the loop body of `insertGroupItemsAsync`: a group entry re-parents its
        cached row in place and writes the whole row back; an item entry moves every
        membership of the item into the target. */
    method MoveEntry(e: MenuItem, tgt: Option<Id>) returns (end: StepEnd)
      requires vault.Valid() && UniqueBy(groups, GroupId)
      modifies this, vault
      ensures end == Step(vault.present, old(MoveView()), e, tgt)
      ensures end.Continue? ==> MoveView() == end.next
      ensures !end.Continue? ==> MoveView() == old(MoveView())
      ensures vault.Valid() && UniqueBy(groups, GroupId) && draws == old(draws) && items == old(items)
      ensures vault.details == old(vault.details) && vault.keyValues == old(vault.keyValues)
      ensures vault.history == old(vault.history)
    {
      if e.kind.GroupEntry? {
        var k := FindIndex(groups, e.id);
        if k.None? {
          return if tgt.None? then Stop else Continue(MoveView());
        }
        var updateGroup := groups[k.value];
        if tgt.Some? && updateGroup.parentId == tgt {
          return Stop;
        }
        ghost var s := MoveView();
        var moved := updateGroup.(parentId := tgt);
        groups := groups[k.value := moved];
        if vault.present {
          PatchKeepsIds(vault.groups, FullPatch(moved));
          vault.groups := PatchRows(vault.groups, FullPatch(moved));
        }
        end := Continue(MoveView());
        StepKeeps(vault.present, s, e, tgt, e.id);
        SameIdsUnique(s, MoveView());
      } else if tgt.Some? && vault.present {
        var regrouped := Regroup(vault.groupItems, e.id, tgt);
        if regrouped.None? {
          return Fail(UniqueFailed);
        }
        RegroupKeyed(vault.groupItems, e.id, tgt);
        vault.groupItems := regrouped.value;
        end := Continue(MoveView());
      } else {
        end := Continue(MoveView());
      }
    }

    /** `insertGroupItemsAsync(entries, groupId)`: the loop `GroupMoves.Run` describes, over
        the cached groups, the groups table and the memberships. A batch that runs to its end
        resyncs the caches; one that returns early or throws leaves the cached rows it
        re-parented in place. */
    method InsertGroupItems(entries: seq<MenuItem>, groupId: Option<string>) returns (r: Outcome<()>)
      requires vault.Valid() && UniqueBy(groups, GroupId)
      modifies this, vault
      ensures vault.Valid() && draws == old(draws)
      ensures vault.details == old(vault.details) && vault.keyValues == old(vault.keyValues)
      ensures vault.history == old(vault.history)
      ensures var end := Run(vault.present, old(MoveView()), entries, TargetId(old(groups), groupId));
        vault.groups == end.state.groups && vault.groupItems == end.state.groupItems
        && (end.Finished? ==> r == Returned(()) && Synced())
        && (end.Stopped? ==> r == Returned(()) && groups == end.state.cache && items == old(items))
        && (end.Failed? ==> r == Threw(end.message) && groups == end.state.cache && items == old(items))
    {
      var tgt := TargetId(groups, groupId);
      ghost var s0 := MoveView();
      var i := 0;
      while i < |entries|
        invariant 0 <= i <= |entries|
        invariant vault.Valid() && UniqueBy(groups, GroupId) && draws == old(draws) && items == old(items)
        invariant vault.details == old(vault.details) && vault.keyValues == old(vault.keyValues)
        invariant vault.history == old(vault.history)
        invariant Run(vault.present, s0, entries, tgt) == Run(vault.present, MoveView(), entries[i..], tgt)
      {
        assert entries[i..][0] == entries[i] && entries[i..][1..] == entries[i + 1..];
        var end := MoveEntry(entries[i], tgt);
        if end.Stop? {
          return Returned(());
        }
        if end.Fail? {
          return Threw(end.message);
        }
        i := i + 1;
      }
      assert entries[i..] == [];
      SyncGroupItems();
      r := Returned(());
    }

    /** `deleteGroupAsync(groupId, final)`. The final form (also taken for the trash group)
        deletes the subtree of every child first, then every item filed under the group, then
        the group's own row: the groups of the subtree and the items filed under any of them
        are gone, and nothing else. The soft form creates the trash group when needed and
        moves the group into it. The recursion ends because the groups below `groupId` are
        ranked. */
    method DeleteGroup(groupId: Id, final: bool, ghost rank: map<Id, nat>, ghost h: nat)
      requires vault.Valid()
      requires vault.present && (final || groupId == TrashId) ==>
        Descending(vault.groups, rank) && Below(vault.groups, rank, groupId, h)
      modifies this, vault
      decreases h, 1
      ensures vault.Valid() && draws == old(draws)
      ensures final || groupId == TrashId ==> groups == old(groups) && items == old(items)
      ensures (final || groupId == TrashId) && !vault.present ==>
        vault.groups == old(vault.groups) && vault.Items() == old(vault.Items())
      ensures (final || groupId == TrashId) && vault.present ==>
        vault.groups == Without(old(vault.groups), GroupKey, SubtreeIds(old(vault.groups), rank, groupId, h))
        && vault.Items() == Purge(old(vault.Items()), Doomed(old(vault.Items()), SubtreeIds(old(vault.groups), rank, groupId, h)))
      ensures !(final || groupId == TrashId) ==>
        var withTrash := WithTrash(vault.present, old(vault.groups));
        vault.Items() == old(vault.Items())
        && vault.groups == (if vault.present && groupId != "" then PatchRows(withTrash, ToTrash(groupId)) else withTrash)
        && (if vault.present && TrashId in Ids(old(vault.groups)) then groups == old(groups) && items == old(items)
            else (groups == ReadGroups(vault.present, withTrash, None).GetOr([])
              && items == (if vault.present then InnerJoin(vault.details, vault.groupItems) else [])))
    {
      if !(final || groupId == TrashId) {
        var created := CreateTrashIfNotExists();
        UpdateGroup(ToTrash(groupId));
        return;
      }
      if !vault.present {
        // Every query yields nothing and every statement is skipped.
        return;
      }
      ghost var t0 := vault.groups;
      ghost var i0 := vault.Items();
      var childGroups := GetByParentId(vault.present, vault.groups, groupId);
      DeleteSubtrees(childGroups, groupId, rank, h);
      ghost var done := SubtreesOf(t0, rank, childGroups);
      SubtreeSplit(t0, rank, groupId, h, childGroups);
      assert vault.Items() == Purge(i0, Doomed(i0, done));
      DeleteFiledItems(groupId);
      PurgeStep(i0, done, {groupId});
      assert done + {groupId} == SubtreeIds(t0, rank, groupId, h);
      WithoutTwice(t0, GroupKey, done, {groupId});
      WithoutUnique(vault.groups, GroupKey, {groupId}, GroupId);
      vault.groups := Without(vault.groups, GroupKey, {groupId});
    }

    /** The first loop of the final `deleteGroupAsync`: `deleteGroupAsync(child.id, true)` for
        each child in turn. The subtrees of distinct children are disjoint, so each call
        deletes from the remaining tables exactly its own subtree and the items under it. */
    method DeleteSubtrees(childGroups: seq<GroupRow>, parent: Id, ghost rank: map<Id, nat>, ghost h: nat)
      requires vault.Valid() && vault.present && Descending(vault.groups, rank) && Below(vault.groups, rank, parent, h)
      requires UniqueBy(childGroups, GroupId)
      requires forall c :: c in childGroups ==> c in vault.groups && Matches(c.parentId, parent)
      modifies this, vault
      decreases h, 0
      ensures vault.Valid() && groups == old(groups) && items == old(items) && draws == old(draws)
      ensures vault.groups == Without(old(vault.groups), GroupKey, SubtreesOf(old(vault.groups), rank, childGroups))
      ensures vault.Items() == Purge(old(vault.Items()), Doomed(old(vault.Items()), SubtreesOf(old(vault.groups), rank, childGroups)))
    {
      ghost var t0 := vault.groups;
      ghost var i0 := vault.Items();
      ghost var done: set<Id> := {};
      WithoutNothing(t0, GroupKey);
      DoomedNothing(i0);
      var i := 0;
      while i < |childGroups|
        invariant 0 <= i <= |childGroups|
        invariant vault.Valid() && groups == old(groups) && items == old(items) && draws == old(draws)
        invariant done == SubtreesOf(t0, rank, childGroups[..i])
        invariant vault.groups == Without(t0, GroupKey, done)
        invariant vault.Items() == Purge(i0, Doomed(i0, done))
        invariant forall k :: i <= k < |childGroups| ==>
          SubtreeIds(t0, rank, childGroups[k].id, rank[childGroups[k].id]) !! done
      {
        var child := childGroups[i];
        assert child in childGroups;
        ghost var sub := SubtreeIds(t0, rank, child.id, rank[child.id]);
        CascadeStep(t0, rank, done, child);
        DeleteGroup(child.id, true, rank, rank[child.id]);
        PurgeStep(i0, done, sub);
        SubtreesOfSnoc(t0, rank, childGroups, i);
        forall k | i + 1 <= k < |childGroups|
          ensures SubtreeIds(t0, rank, childGroups[k].id, rank[childGroups[k].id]) !! sub
        {
          assert childGroups[k] in childGroups;
          SiblingsDisjoint(t0, rank, parent, childGroups[k], child);
        }
        done := done + sub;
        i := i + 1;
      }
      assert childGroups[..i] == childGroups;
    }

    /** The second loop of the final `deleteGroupAsync`: `deleteAsync(item.id, true)` for
        each item `readByGroupIdAsync(groupId)` returns, which are exactly the items filed
        under the group. */
    method DeleteFiledItems(groupId: Id)
      requires vault.Valid() && vault.present
      modifies this, vault
      ensures vault.Valid() && groups == old(groups) && items == old(items) && draws == old(draws)
      ensures vault.groups == old(vault.groups)
      ensures vault.Items() == Purge(old(vault.Items()), Doomed(old(vault.Items()), {groupId}))
    {
      ghost var i1 := vault.Items();
      var toDelete := ReadByGroupId(vault.present, vault.Items(), Some(groupId)).GetOr([]);
      ReadByGroupIdDoomed(i1, groupId);
      PurgeNothing(i1);
      ghost var gone: set<Id> := {};
      var j := 0;
      while j < |toDelete|
        invariant 0 <= j <= |toDelete|
        invariant vault.Valid() && groups == old(groups) && items == old(items) && draws == old(draws)
        invariant vault.groups == old(vault.groups)
        invariant gone == DetailsIds(toDelete[..j])
        invariant vault.Items() == Purge(i1, gone)
      {
        var r := DeleteItem(toDelete[j].id, true);
        PurgeTwice(i1, gone, {toDelete[j].id});
        DetailsIdsSnoc(toDelete, j);
        gone := gone + {toDelete[j].id};
        j := j + 1;
      }
      assert toDelete[..j] == toDelete;
    }

    // -------------------------------------------------------------------------
    // items.ts
    // -------------------------------------------------------------------------

    /** `addAsync(details, keyValues, group)`: draws the item id and then one id per pair,
        and runs the three inserts in one transaction; a failed transaction is caught and
        leaves the tables as they were. The id is returned either way. */
    method AddItem(details: ItemRow, keyValues: seq<KeyValueRow>, group: Option<GroupRow>) returns (id: Id)
      requires vault.Valid()
      modifies this, vault
      ensures vault.Valid() && vault.groups == old(vault.groups)
      ensures groups == old(groups) && items == old(items)
      ensures id == uuid(old(draws)) && draws == old(draws) + 1 + |keyValues|
      ensures var added := AddRows(old(vault.Items()), NewDetails(details, group, id), NewMembership(id, group),
                                   NewKeyValues(keyValues, id, uuid, old(draws) + 1));
        vault.Items() == if vault.present && added.Some? then added.value else old(vault.Items())
    {
      id := RandomUuid();
      var newDetails := NewDetails(details, group, id);
      var newKeyValues := NewKeyValues(keyValues, id, uuid, draws);
      draws := draws + |keyValues|;
      if vault.present {
        var committed := AddRows(vault.Items(), newDetails, NewMembership(id, group), newKeyValues);
        AddRowsEffect(vault.Items(), newDetails, NewMembership(id, group), newKeyValues);
        if committed.Some? {
          vault.Commit(committed.value);
        }
      }
    }

    /** `addKeyValueAsync(item, itemId)`: one row with a drawn id; a key conflict is caught. */
    method AddKeyValue(item: Option<KeyValueRow>, itemId: Option<Id>)
      requires vault.Valid()
      modifies this, vault
      ensures vault.Valid() && vault.groups == old(vault.groups)
      ensures groups == old(groups) && items == old(items) && draws == old(draws) + 1
      ensures vault.details == old(vault.details) && vault.history == old(vault.history)
      ensures vault.groupItems == old(vault.groupItems)
      ensures var row := NewKeyValue(item, itemId, uuid(old(draws)));
        vault.keyValues == if vault.present then InsertKeyValues(old(vault.keyValues), [row]) else old(vault.keyValues)
    {
      var newId := RandomUuid();
      var newKeyValue := NewKeyValue(item, itemId, newId);
      if vault.present {
        InsertKeyValuesValid(vault.keyValues, [newKeyValue]);
        vault.keyValues := InsertKeyValues(vault.keyValues, [newKeyValue]);
      }
    }

    /** `addKeyValuesAsync(items, itemId)`: one drawn id per row and one multi-row insert; an
        empty insert or a key conflict is caught and writes nothing. */
    method AddKeyValues(kvs: seq<KeyValueRow>, itemId: Option<Id>)
      requires vault.Valid()
      modifies this, vault
      ensures vault.Valid() && vault.groups == old(vault.groups)
      ensures groups == old(groups) && items == old(items) && draws == old(draws) + |kvs|
      ensures vault.details == old(vault.details) && vault.history == old(vault.history)
      ensures vault.groupItems == old(vault.groupItems)
      ensures var rows := NewKeyValueRows(kvs, itemId, uuid, old(draws));
        vault.keyValues == if vault.present then InsertKeyValues(old(vault.keyValues), rows) else old(vault.keyValues)
    {
      var newKeyValues := NewKeyValueRows(kvs, itemId, uuid, draws);
      draws := draws + |kvs|;
      if vault.present {
        InsertKeyValuesValid(vault.keyValues, newKeyValues);
        vault.keyValues := InsertKeyValues(vault.keyValues, newKeyValues);
      }
    }

    /** `updateAsync(...)`: nothing for an item without an id; otherwise ids are drawn for the
        added pairs that have none and the transaction `UpdateTables` describes runs,
        returning the item id, or throwing and rolling back. */
    method UpdateItem(u: ItemUpdate) returns (r: Outcome<Option<Id>>)
      requires vault.Valid()
      modifies this, vault
      ensures vault.Valid() && vault.groups == old(vault.groups)
      ensures groups == old(groups) && items == old(items)
      ensures u.details.id == "" ==> r == Returned(None) && draws == old(draws) && vault.Items() == old(vault.Items())
      ensures u.details.id != "" ==> draws == old(draws) + MissingIds(u.keyValuesAdd)
      ensures u.details.id != "" && !vault.present ==> r == Returned(None) && vault.Items() == old(vault.Items())
      ensures u.details.id != "" && vault.present ==>
        var result := UpdateTables(old(vault.Items()), u, AddedKeyValues(u.keyValuesAdd, u.details.id, uuid, old(draws)));
        (result.None? ==> r == Threw(UniqueFailed) && vault.Items() == old(vault.Items()))
        && (result.Some? ==> r == Returned(Some(u.details.id)) && vault.Items() == result.value)
    {
      if u.details.id == "" {
        return Returned(None);
      }
      var newKeyValuesAdd := AddedKeyValues(u.keyValuesAdd, u.details.id, uuid, draws);
      draws := draws + MissingIds(u.keyValuesAdd);
      if !vault.present {
        return Returned(None);
      }
      var result := UpdateTables(vault.Items(), u, newKeyValuesAdd);
      if result.None? {
        return Threw(UniqueFailed);
      }
      UpdateTablesValid(vault.Items(), u, newKeyValuesAdd);
      vault.Commit(result.value);
      r := Returned(Some(u.details.id));
    }

    /** `deleteAsync(itemId, final)`. The final form purges the item from the four tables in
        one transaction. The soft form creates the trash group when needed (re-reading both
        caches only then, before the move) and moves every membership of the item into it,
        which throws when the item has two memberships. */
    method DeleteItem(itemId: Id, final: bool) returns (r: Outcome<()>)
      requires vault.Valid()
      modifies this, vault
      ensures vault.Valid() && draws == old(draws)
      ensures final ==>
        r == Returned(()) && vault.groups == old(vault.groups) && groups == old(groups) && items == old(items)
        && vault.Items() == (if vault.present then Purge(old(vault.Items()), {itemId}) else old(vault.Items()))
      ensures !final ==>
        vault.groups == WithTrash(vault.present, old(vault.groups)) && vault.details == old(vault.details)
        && vault.keyValues == old(vault.keyValues) && vault.history == old(vault.history)
        && (if vault.present && TrashId in Ids(old(vault.groups)) then groups == old(groups) && items == old(items)
            else (groups == ReadGroups(vault.present, vault.groups, None).GetOr([])
              && items == (if vault.present then InnerJoin(old(vault.details), old(vault.groupItems)) else [])))
      ensures !final && !vault.present ==> r == Returned(()) && vault.groupItems == old(vault.groupItems)
      ensures !final && vault.present ==>
        (r.Threw? <==> MembershipCount(old(vault.groupItems), itemId) >= 2)
        && (r.Threw? ==> r.message == UniqueFailed && vault.groupItems == old(vault.groupItems))
        && (r.Returned? ==> vault.groupItems == Regroup(old(vault.groupItems), itemId, Some(TrashId)).value)
    {
      if final {
        if vault.present {
          PurgeKeepsValid(vault.Items(), {itemId});
          vault.Commit(Purge(vault.Items(), {itemId}));
        }
        return Returned(());
      }
      var created := CreateTrashIfNotExists();
      if vault.present {
        var regrouped := Regroup(vault.groupItems, itemId, Some(TrashId));
        if regrouped.None? {
          return Threw(UniqueFailed);
        }
        RegroupKeyed(vault.groupItems, itemId, Some(TrashId));
        vault.groupItems := regrouped.value;
      }
      r := Returned(());
    }

    /** `deleteKeyValueAsync(id)`: the key/value row with that id goes. */
    method DeleteKeyValue(id: Id)
      requires vault.Valid()
      modifies vault
      ensures vault.Valid() && vault.groups == old(vault.groups)
      ensures vault.details == old(vault.details) && vault.history == old(vault.history)
      ensures vault.groupItems == old(vault.groupItems)
      ensures vault.keyValues == if vault.present then Without(old(vault.keyValues), KeyValueKey, {id}) else old(vault.keyValues)
      ensures forall k :: k in vault.keyValues <==> k in old(vault.keyValues) && !(vault.present && k.id == id)
    {
      if vault.present {
        WithoutUnique(vault.keyValues, KeyValueKey, {id}, KeyValueId);
        vault.keyValues := Without(vault.keyValues, KeyValueKey, {id});
      }
    }
  }
}
