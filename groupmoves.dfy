/** What the loop of `insertGroupItemsAsync` (app/stores/passwords/groups.ts) does to the
    cached groups, the groups table and the memberships, entry by entry: a moved group has
    its cached row re-parented in place and written back whole, an item is regrouped only
    when the target group was found in the cache, and a group that already sits under the
    target ends the whole batch early. */
module GroupMoves {
  import opened Wrappers
  import opened Schema
  import opened Tables
  import opened GroupTree

  datatype EntryKind = GroupEntry | ItemEntry

  /** A selected menu entry: its id and whether it is a group or an item. */
  datatype MenuItem = MenuItem(id: Id, kind: EntryKind)

  /** What the loop reads and writes: the cached `groups` list of the store (whose rows it
      changes in place), the groups table and the membership table. */
  datatype MoveState = MoveState(cache: seq<GroupRow>, groups: seq<GroupRow>, groupItems: seq<GroupItemRow>)

  /** How one entry ends: go on with the next, return early, or throw from the store. */
  datatype StepEnd = Continue(next: MoveState) | Stop | Fail(message: string)

  /** How the whole loop ends, with the state it leaves. */
  datatype MoveEnd = Finished(state: MoveState) | Stopped(state: MoveState) | Failed(state: MoveState, message: string)

  /** `groups.find(group => group.id === id)`: the position of the first cached row with that id. */
  function FindIndex(cache: seq<GroupRow>, id: Id): (k: Option<nat>)
    ensures k.None? <==> id !in Ids(cache)
    ensures k.Some? ==> k.value < |cache| && cache[k.value].id == id
    ensures k.Some? ==> forall j :: 0 <= j < k.value ==> cache[j].id != id
  {
    if cache == [] then None
    else if cache[0].id == id then Some(0)
    else
      var k := FindIndex(cache[1..], id);
      assert Ids(cache) == {cache[0].id} + Ids(cache[1..]) by {
        assert forall g :: g in cache <==> g == cache[0] || g in cache[1..];
      }
      if k.None? then None else Some(k.value + 1)
  }

  /** `targetGroup?.id`: the requested target's id when the cache holds a group with it. */
  function TargetId(cache: seq<GroupRow>, groupId: Option<string>): (r: Option<Id>)
    ensures r.Some? <==> groupId.Some? && groupId.value in Ids(cache)
    ensures r.Some? ==> r == groupId
  {
    if groupId.Some? && groupId.value in Ids(cache) then groupId else None
  }

  /** One pass of the loop body for entry `e` under target `tgt`; `present` says whether there
      is a vault to write to. */
  function Step(present: bool, s: MoveState, e: MenuItem, tgt: Option<Id>): (r: StepEnd)
    ensures r.Continue? ==> |r.next.cache| == |s.cache| && |r.next.groups| == |s.groups|
    ensures r.Fail? ==> e.kind == ItemEntry
  {
    match e.kind
    case GroupEntry =>
      var k := FindIndex(s.cache, e.id);
      if k.None? then
        // `undefined === targetGroup?.id` holds only when there is no target.
        if tgt.None? then Stop else Continue(s)
      else if tgt.Some? && s.cache[k.value].parentId == tgt then Stop
      else
        var moved := s.cache[k.value].(parentId := tgt);
        Continue(MoveState(s.cache[k.value := moved],
          if present then PatchRows(s.groups, FullPatch(moved)) else s.groups,
          s.groupItems))
    case ItemEntry =>
      if tgt.None? || !present then Continue(s)
      else
        match Regroup(s.groupItems, e.id, tgt)
        case None => Fail(UniqueFailed)
        case Some(ms) => Continue(s.(groupItems := ms))
  }

  /** The loop over `entries`. */
  function Run(present: bool, s: MoveState, entries: seq<MenuItem>, tgt: Option<Id>): (r: MoveEnd)
    ensures |r.state.cache| == |s.cache| && |r.state.groups| == |s.groups|
    ensures r.Failed? ==> exists e :: e in entries && e.kind == ItemEntry
    decreases |entries|
  {
    if entries == [] then Finished(s)
    else
      match Step(present, s, entries[0], tgt)
      case Stop => Stopped(s)
      case Fail(msg) => Failed(s, msg)
      case Continue(next) => Run(present, next, entries[1..], tgt)
  }

  // ---------------------------------------------------------------------------
  // Properties
  // ---------------------------------------------------------------------------

  /** A group entry ends the batch exactly when the group is already under the target (with
      a target), or when it is missing from the cache (without one). */
  lemma GroupStepStops(present: bool, s: MoveState, x: Id, tgt: Option<Id>)
    requires UniqueBy(s.cache, GroupId)
    ensures Step(present, s, MenuItem(x, GroupEntry), tgt).Stop? <==>
      (tgt.None? && x !in Ids(s.cache))
      || (tgt.Some? && exists g :: g in s.cache && g.id == x && g.parentId == tgt)
  {
    var k := FindIndex(s.cache, x);
    if k.Some? {
      forall g | g in s.cache && g.id == x ensures g == s.cache[k.value] {
        UniqueRow(s.cache, GroupId, g, s.cache[k.value]);
      }
    }
  }

  /** A step never fails on a group entry, and never changes the memberships for one. */
  lemma GroupStepKeepsMemberships(present: bool, s: MoveState, x: Id, tgt: Option<Id>)
    ensures !Step(present, s, MenuItem(x, GroupEntry), tgt).Fail?
    ensures Step(present, s, MenuItem(x, GroupEntry), tgt).Continue? ==>
      Step(present, s, MenuItem(x, GroupEntry), tgt).next.groupItems == s.groupItems
  {
  }

  /** Two states agree on which ids sit where, in the cache and in the groups table. */
  predicate SameIds(s: MoveState, s': MoveState) {
    |s'.cache| == |s.cache| && (forall i :: 0 <= i < |s.cache| ==> s'.cache[i].id == s.cache[i].id)
    && Ids(s'.groups) == Ids(s.groups)
  }

  /** Cached group `x` sits under `tgt`. */
  predicate CachedUnder(s: MoveState, x: Id, tgt: Option<Id>) {
    forall i :: 0 <= i < |s.cache| && s.cache[i].id == x ==> s.cache[i].parentId == tgt
  }

  /** Stored group `x` sits under `tgt`. */
  predicate StoredUnder(s: MoveState, x: Id, tgt: Option<Id>) {
    forall g :: g in s.groups && g.id == x ==> g.parentId == tgt
  }

  /** Every membership of item `x` names `tgt`. */
  predicate FiledUnder(s: MoveState, x: Id, tgt: Option<Id>) {
    forall m :: m in s.groupItems && m.itemId == Some(x) ==> m.groupId == tgt
  }

  /** One step keeps the ids, and keeps every placement it finds. */
  lemma StepKeeps(present: bool, s: MoveState, e: MenuItem, tgt: Option<Id>, x: Id)
    requires Step(present, s, e, tgt).Continue?
    ensures SameIds(s, Step(present, s, e, tgt).next)
    ensures CachedUnder(s, x, tgt) ==> CachedUnder(Step(present, s, e, tgt).next, x, tgt)
    ensures StoredUnder(s, x, tgt) ==> StoredUnder(Step(present, s, e, tgt).next, x, tgt)
    ensures FiledUnder(s, x, tgt) ==> FiledUnder(Step(present, s, e, tgt).next, x, tgt)
  {
    var s' := Step(present, s, e, tgt).next;
    if e.kind.GroupEntry? {
      var k := FindIndex(s.cache, e.id);
      if k.Some? && present {
        PatchKeepsIds(s.groups, FullPatch(s'.cache[k.value]));
        if StoredUnder(s, x, tgt) {
          forall g | g in s'.groups && g.id == x ensures g.parentId == tgt {
            var i :| 0 <= i < |s'.groups| && s'.groups[i] == g;
            assert s.groups[i] in s.groups;
          }
        }
      }
    } else if tgt.Some? && present {
      if FiledUnder(s, x, tgt) {
        forall m | m in s'.groupItems && m.itemId == Some(x) ensures m.groupId == tgt {
          var i :| 0 <= i < |s'.groupItems| && s'.groupItems[i] == m;
          assert s.groupItems[i] in s.groupItems;
        }
      }
    }
  }

  /** The step for entry `e` places it: a moved group sits under the target in the cache (and
      in the table, when there is one), a regrouped item is filed under the target. */
  lemma StepPlaces(present: bool, s: MoveState, e: MenuItem, tgt: Option<Id>)
    requires UniqueBy(s.cache, GroupId) && Step(present, s, e, tgt).Continue?
    ensures e.kind.GroupEntry? ==> CachedUnder(Step(present, s, e, tgt).next, e.id, tgt)
    ensures e.kind.GroupEntry? && present && e.id in Ids(s.cache) ==>
      StoredUnder(Step(present, s, e, tgt).next, e.id, tgt)
    ensures e.kind.ItemEntry? && present && tgt.Some? ==> FiledUnder(Step(present, s, e, tgt).next, e.id, tgt)
  {
    var s' := Step(present, s, e, tgt).next;
    if e.kind.GroupEntry? {
      var k := FindIndex(s.cache, e.id);
      if k.Some? {
        assert CachedUnder(s', e.id, tgt);
        if present {
          forall g | g in s'.groups && g.id == e.id ensures g.parentId == tgt {
            var i :| 0 <= i < |s'.groups| && s'.groups[i] == g;
          }
        }
      }
    } else if present && tgt.Some? {
      forall m | m in s'.groupItems && m.itemId == Some(e.id) ensures m.groupId == tgt {
        var i :| 0 <= i < |s'.groupItems| && s'.groupItems[i] == m;
      }
    }
  }

  /** The same ids in the same places keep the cache's ids unique. */
  lemma SameIdsUnique(s: MoveState, s': MoveState)
    requires SameIds(s, s') && UniqueBy(s.cache, GroupId)
    ensures UniqueBy(s'.cache, GroupId)
  {
  }

  /** A batch that runs to its end has placed every entry: every moved group sits under the
      target in the cache and, with a vault, in the table; with a target and a vault, every
      membership of every moved item names the target. Without a target it can only end when
      every group entry was found in the cache. Ids are never added or dropped. */
  lemma {:induction false} RunFinished(present: bool, s: MoveState, entries: seq<MenuItem>, tgt: Option<Id>)
    requires UniqueBy(s.cache, GroupId) && Run(present, s, entries, tgt).Finished?
    ensures SameIds(s, Run(present, s, entries, tgt).state)
    ensures forall e :: e in entries && e.kind.GroupEntry? ==> CachedUnder(Run(present, s, entries, tgt).state, e.id, tgt)
    ensures present ==> forall e :: e in entries && e.kind.GroupEntry? && e.id in Ids(s.cache) ==>
      StoredUnder(Run(present, s, entries, tgt).state, e.id, tgt)
    ensures present && tgt.Some? ==> forall e :: e in entries && e.kind.ItemEntry? ==>
      FiledUnder(Run(present, s, entries, tgt).state, e.id, tgt)
    ensures tgt.None? ==> forall e :: e in entries && e.kind.GroupEntry? ==> e.id in Ids(s.cache)
    decreases |entries|
  {
    if entries != [] {
      var e := entries[0];
      var s1 := Step(present, s, e, tgt).next;
      var end := Run(present, s, entries, tgt).state;
      StepKeeps(present, s, e, tgt, e.id);
      SameIdsUnique(s, s1);
      StepPlaces(present, s, e, tgt);
      RunFinished(present, s1, entries[1..], tgt);
      assert Ids(s1.cache) == Ids(s.cache) by {
        forall id ensures id in Ids(s1.cache) <==> id in Ids(s.cache) {
          if id in Ids(s1.cache) { var i :| 0 <= i < |s1.cache| && s1.cache[i].id == id; assert s.cache[i] in s.cache; }
          if id in Ids(s.cache) { var i :| 0 <= i < |s.cache| && s.cache[i].id == id; assert s1.cache[i] in s1.cache; }
        }
      }
      RunKeeps(present, s1, entries[1..], tgt, e.id);
      assert forall x :: x in entries <==> x == e || x in entries[1..];
    }
  }

  /** The rest of a batch keeps what an earlier entry placed. */
  lemma {:induction false} RunKeeps(present: bool, s: MoveState, entries: seq<MenuItem>, tgt: Option<Id>, x: Id)
    requires Run(present, s, entries, tgt).Finished?
    ensures CachedUnder(s, x, tgt) ==> CachedUnder(Run(present, s, entries, tgt).state, x, tgt)
    ensures StoredUnder(s, x, tgt) ==> StoredUnder(Run(present, s, entries, tgt).state, x, tgt)
    ensures FiledUnder(s, x, tgt) ==> FiledUnder(Run(present, s, entries, tgt).state, x, tgt)
    decreases |entries|
  {
    if entries != [] {
      StepKeeps(present, s, entries[0], tgt, x);
      RunKeeps(present, Step(present, s, entries[0], tgt).next, entries[1..], tgt, x);
    }
  }

  /** Without a target in the cache no membership changes, however the batch ends. */
  lemma {:induction false} RunWithoutTarget(present: bool, s: MoveState, entries: seq<MenuItem>)
    ensures Run(present, s, entries, None).state.groupItems == s.groupItems
    decreases |entries|
  {
    if entries != [] {
      var st := Step(present, s, entries[0], None);
      if st.Continue? {
        RunWithoutTarget(present, st.next, entries[1..]);
      }
    }
  }

  /** Moving a group under itself is allowed: the batch then writes a row that is its own
      parent, which `Ranked` rules out. */
  lemma SelfMoveMakesCycle(g: GroupRow, rank: map<Id, nat>)
    requires g.id != "" && g.parentId != Some(g.id)
    ensures Run(true, MoveState([g], [g], []), [MenuItem(g.id, GroupEntry)], Some(g.id)).Finished?
    ensures Run(true, MoveState([g], [g], []), [MenuItem(g.id, GroupEntry)], Some(g.id)).state.groups
      == [g.(parentId := Some(g.id))]
    ensures !Ranked([g.(parentId := Some(g.id))], rank)
  {
    var moved := g.(parentId := Some(g.id));
    assert FindIndex([g], g.id) == Some(0);
    assert PatchRows([g], FullPatch(moved)) == [moved];
    if Ranked([moved], rank) {
      assert moved in [moved] && Matches(moved.parentId, g.id);
    }
  }
}
