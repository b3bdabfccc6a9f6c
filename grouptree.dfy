/** The pure part of app/stores/passwords/groups.ts: the ordered group queries, the
    parent/child forest the `parentId` column spans, the group patch that `updateAsync`
    applies, and the `areGroupsEqual` comparator. */
module GroupTree {
  import opened Wrappers
  import opened Schema
  import opened Tables
  import JsValues
  import Helper
  import GroupComposables

  /** The fixed id of the trash group. */
  const TrashId: Id := "trash"

  // ---------------------------------------------------------------------------
  // `orderBy(order nulls last)`
  // ---------------------------------------------------------------------------

  /** `a` may stand before `b`: ascending `order`, rows without an order last. */
  predicate OrderedBefore(a: GroupRow, b: GroupRow) {
    match (a.order, b.order)
    case (Some(x), Some(y)) => x <= y
    case (Some(_), None) => true
    case (None, None) => true
    case (None, Some(_)) => false
  }

  predicate SortedByOrder(s: seq<GroupRow>) {
    forall i, j :: 0 <= i < j < |s| ==> OrderedBefore(s[i], s[j])
  }

  lemma TailSorted(s: seq<GroupRow>)
    requires SortedByOrder(s) && s != []
    ensures SortedByOrder(s[1..])
  {
    forall i, j | 0 <= i < j < |s[1..]| ensures OrderedBefore(s[1..][i], s[1..][j]) {
      assert s[1..][i] == s[i + 1] && s[1..][j] == s[j + 1];
    }
  }

  lemma ConsSorted(a: GroupRow, t: seq<GroupRow>)
    requires SortedByOrder(t)
    requires forall y :: y in t ==> OrderedBefore(a, y)
    ensures SortedByOrder([a] + t)
  {
    var r := [a] + t;
    forall i, j | 0 <= i < j < |r| ensures OrderedBefore(r[i], r[j]) {
      assert r[j] == t[j - 1] && t[j - 1] in t;
      if i > 0 {
        assert r[i] == t[i - 1];
      }
    }
  }

  /** Inserts `x` before the first row of `s` it may precede. */
  function Insert(x: GroupRow, s: seq<GroupRow>): (r: seq<GroupRow>)
    ensures |r| == |s| + 1
  {
    if s == [] then [x]
    else if OrderedBefore(x, s[0]) then [x] + s
    else [s[0]] + Insert(x, s[1..])
  }

  lemma {:induction false} InsertRows(x: GroupRow, s: seq<GroupRow>)
    ensures multiset(Insert(x, s)) == multiset(s) + multiset{x}
    ensures forall y :: y in Insert(x, s) <==> y == x || y in s
  {
    if s != [] && !OrderedBefore(x, s[0]) {
      InsertRows(x, s[1..]);
      assert s == [s[0]] + s[1..];
    }
  }

  lemma {:induction false} InsertSorted(x: GroupRow, s: seq<GroupRow>)
    requires SortedByOrder(s)
    ensures SortedByOrder(Insert(x, s))
  {
    if s == [] {
    } else if OrderedBefore(x, s[0]) {
      forall y | y in s ensures OrderedBefore(x, y) {
        var j :| 0 <= j < |s| && s[j] == y;
        if j > 0 {
          assert OrderedBefore(s[0], s[j]);
        }
      }
      ConsSorted(x, s);
    } else {
      TailSorted(s);
      InsertSorted(x, s[1..]);
      InsertRows(x, s[1..]);
      forall y | y in Insert(x, s[1..]) ensures OrderedBefore(s[0], y) {
        if y != x {
          var j :| 0 <= j < |s[1..]| && s[1..][j] == y;
          assert s[j + 1] == y;
        }
      }
      ConsSorted(s[0], Insert(x, s[1..]));
    }
  }

  /** `orderBy(sql\`order nulls last\`)`, as a stable insertion sort. */
  function SortByOrder(s: seq<GroupRow>): (r: seq<GroupRow>)
    ensures |r| == |s|
  {
    if s == [] then [] else Insert(s[0], SortByOrder(s[1..]))
  }

  /** Sorting orders the rows by `order`, nulls last, and keeps every row as often as it
      occurs. */
  lemma {:induction false} SortSortsAndKeeps(s: seq<GroupRow>)
    ensures SortedByOrder(SortByOrder(s))
    ensures multiset(SortByOrder(s)) == multiset(s)
  {
    if s != [] {
      SortSortsAndKeeps(s[1..]);
      InsertSorted(s[0], SortByOrder(s[1..]));
      InsertRows(s[0], SortByOrder(s[1..]));
      assert s == [s[0]] + s[1..];
    }
  }

  /** Sorting keeps the rows: a row is in the sorted list iff it is in the input. */
  lemma SortKeepsRows(s: seq<GroupRow>)
    ensures SortedByOrder(SortByOrder(s))
    ensures |SortByOrder(s)| == |s|
    ensures forall g :: g in SortByOrder(s) <==> g in s
  {
    SortSortsAndKeeps(s);
    var r := SortByOrder(s);
    assert |r| == |multiset(r)| == |multiset(s)| == |s|;
    forall g ensures g in r <==> g in s {
      assert g in r <==> g in multiset(r);
      assert g in s <==> g in multiset(s);
    }
  }

  lemma {:induction false} InsertUnique(x: GroupRow, s: seq<GroupRow>)
    requires UniqueBy(s, GroupId)
    requires forall y :: y in s ==> y.id != x.id
    ensures UniqueBy(Insert(x, s), GroupId)
  {
    if s == [] {
    } else if OrderedBefore(x, s[0]) {
      ConsUnique(x, s, GroupId);
    } else {
      TailUnique(s, GroupId);
      InsertUnique(x, s[1..]);
      InsertRows(x, s[1..]);
      forall y | y in Insert(x, s[1..]) ensures y.id != s[0].id {
        if y != x {
          var j :| 0 <= j < |s[1..]| && s[1..][j] == y;
          assert s[j + 1] == y;
        }
      }
      ConsUnique(s[0], Insert(x, s[1..]), GroupId);
    }
  }

  /** Sorting keeps ids unique. */
  lemma {:induction false} SortUnique(s: seq<GroupRow>)
    requires UniqueBy(s, GroupId)
    ensures UniqueBy(SortByOrder(s), GroupId)
  {
    if s != [] {
      TailUnique(s, GroupId);
      SortUnique(s[1..]);
      SortKeepsRows(s[1..]);
      forall y | y in SortByOrder(s[1..]) ensures y.id != s[0].id {
        var j :| 0 <= j < |s[1..]| && s[1..][j] == y;
        assert s[j + 1] == y;
      }
      InsertUnique(s[0], SortByOrder(s[1..]));
    }
  }

  // ---------------------------------------------------------------------------
  // Queries
  // ---------------------------------------------------------------------------

  /** The rows the query for parent `p` selects, in storage order. */
  function ChildrenOf(t: seq<GroupRow>, p: string): (r: seq<GroupRow>)
    ensures forall g :: g in r <==> g in t && Matches(g.parentId, p)
  {
    if t == [] then []
    else (if Matches(t[0].parentId, p) then [t[0]] else []) + ChildrenOf(t[1..], p)
  }

  lemma {:induction false} ChildrenUnique(t: seq<GroupRow>, p: string)
    requires UniqueBy(t, GroupId)
    ensures UniqueBy(ChildrenOf(t, p), GroupId)
  {
    if t != [] {
      TailUnique(t, GroupId);
      ChildrenUnique(t[1..], p);
      if Matches(t[0].parentId, p) {
        forall y | y in ChildrenOf(t[1..], p) ensures y.id != t[0].id {
          var k :| 0 <= k < |t[1..]| && t[1..][k] == y;
          assert t[k + 1] == y;
        }
        ConsUnique(t[0], ChildrenOf(t[1..], p), GroupId);
      }
    }
  }

  lemma SortedChildrenUnique(t: seq<GroupRow>, p: string)
    ensures UniqueBy(t, GroupId) ==> UniqueBy(SortByOrder(ChildrenOf(t, p)), GroupId)
  {
    if UniqueBy(t, GroupId) {
      ChildrenUnique(t, p);
      SortUnique(ChildrenOf(t, p));
    }
  }

  /** `getByParentIdAsync(p)`: the groups under `p` (the roots when `p` is empty), ordered by
      `order` with nulls last; `[]` when there is no vault. */
  function GetByParentId(present: bool, t: seq<GroupRow>, p: string): (r: seq<GroupRow>)
    ensures SortedByOrder(r)
    ensures forall g :: g in r <==> present && g in t && Matches(g.parentId, p)
    ensures UniqueBy(t, GroupId) ==> UniqueBy(r, GroupId)
  {
    if present then
      SortKeepsRows(ChildrenOf(t, p));
      SortedChildrenUnique(t, p);
      SortByOrder(ChildrenOf(t, p))
    else []
  }

  /** `readGroupAsync(id)`: the first group whose id is `id`; nothing without a vault. */
  function ReadGroup(present: bool, t: seq<GroupRow>, id: Id): (r: Option<GroupRow>)
    ensures r.Some? ==> present && r.value in t && r.value.id == id
    ensures r.None? <==> !present || forall g :: g in t ==> g.id != id
  {
    if !present || t == [] then None
    else if t[0].id == id then Some(t[0])
    else
      var r := ReadGroup(present, t[1..], id);
      assert t == [t[0]] + t[1..];
      r
  }

  /** The rows whose own id is `id`. */
  function WithId(t: seq<GroupRow>, id: Id): (r: seq<GroupRow>)
    ensures forall g :: g in r <==> g in t && g.id == id
  {
    if t == [] then []
    else (if t[0].id == id then [t[0]] else []) + WithId(t[1..], id)
  }

  /** `readGroupsAsync(filter)`: with a truthy `filter.parentId` the query selects the group
      whose own id is that value (not its children); otherwise every group, ordered. `None`
      without a vault. */
  function ReadGroups(present: bool, t: seq<GroupRow>, parentId: Option<string>): (r: Option<seq<GroupRow>>)
    ensures r.Some? <==> present
    ensures r.Some? && parentId.Some? && parentId.value != "" ==>
      forall g :: g in r.value <==> g in t && g.id == parentId.value
    ensures r.Some? && !(parentId.Some? && parentId.value != "") ==>
      SortedByOrder(r.value) && multiset(r.value) == multiset(t)
  {
    if !present then None
    else if parentId.Some? && parentId.value != "" then Some(WithId(t, parentId.value))
    else
      SortSortsAndKeeps(t);
      Some(SortByOrder(t))
  }

  /** The quirk of the filtered read: under unique ids it returns at most the one group named
      by the filter, never that group's children. */
  lemma ReadGroupsByFilter(t: seq<GroupRow>, p: string)
    requires UniqueBy(t, GroupId) && p != ""
    ensures |ReadGroups(true, t, Some(p)).value| <= 1
    ensures forall g :: g in t && g.parentId == Some(p) && g.id != p ==> g !in ReadGroups(true, t, Some(p)).value
  {
    WithIdUnique(t, p);
  }

  lemma {:induction false} WithIdUnique(t: seq<GroupRow>, id: Id)
    requires UniqueBy(t, GroupId)
    ensures |WithId(t, id)| <= 1
  {
    if t != [] {
      TailUnique(t, GroupId);
      WithIdUnique(t[1..], id);
      if t[0].id == id && WithId(t[1..], id) != [] {
        assert WithId(t[1..], id)[0] in WithId(t[1..], id);
      }
    }
  }

  // ---------------------------------------------------------------------------
  // The forest spanned by `parentId`
  // ---------------------------------------------------------------------------

  /** Every child of a ranked group is ranked, and lower than its parent. With `Below(t,
      rank, x, h)` this says that the groups reachable from `x` through `parentId` form no
      cycle, which is exactly when the walks of `getChildGroupsRecursiveAsync(x)` and
      `deleteGroupAsync(x, true)` end: they keep no visited set, and a cycle elsewhere in
      the table is never reached from `x`. */
  ghost predicate Descending(t: seq<GroupRow>, rank: map<Id, nat>) {
    forall c, p :: c in t && p in rank && Matches(c.parentId, p) ==> c.id in rank && rank[c.id] < rank[p]
  }

  /** The parent links of the whole table are acyclic: some ranking puts every group below
      the group its `parentId` query names. */
  ghost predicate Ranked(t: seq<GroupRow>, rank: map<Id, nat>) {
    (forall g :: g in t ==> g.id in rank) && Descending(t, rank)
  }

  /** Every child of `x` has a rank below `h`. */
  ghost predicate Below(t: seq<GroupRow>, rank: map<Id, nat>, x: Id, h: nat) {
    forall c :: c in t && Matches(c.parentId, x) ==> c.id in rank && rank[c.id] < h
  }

  /** `w` is `x` or lies below one of the children of `x`. */
  ghost predicate InSubtree(t: seq<GroupRow>, rank: map<Id, nat>, x: Id, w: Id, h: nat)
    requires Descending(t, rank) && Below(t, rank, x, h)
    decreases h
  {
    w == x || exists c :: c in t && Matches(c.parentId, x) && InSubtree(t, rank, c.id, w, rank[c.id])
  }

  /** The ids of `x` and of every group below it. */
  ghost function SubtreeIds(t: seq<GroupRow>, rank: map<Id, nat>, x: Id, h: nat): set<Id>
    requires Descending(t, rank) && Below(t, rank, x, h)
  {
    {x} + set g | g in t && InSubtree(t, rank, x, g.id, h) :: g.id
  }

  /** Below `x`, ranks drop under the bound. */
  lemma {:induction false} SubtreeRanks(t: seq<GroupRow>, rank: map<Id, nat>, x: Id, w: Id, h: nat)
    requires Descending(t, rank) && Below(t, rank, x, h)
    requires InSubtree(t, rank, x, w, h) && w != x
    ensures w in rank && rank[w] < h
    decreases h
  {
    var c :| c in t && Matches(c.parentId, x) && InSubtree(t, rank, c.id, w, rank[c.id]);
    if w != c.id {
      SubtreeRanks(t, rank, c.id, w, rank[c.id]);
    }
  }

  /** A group below `x` has its parent in the subtree of `x` too. */
  lemma {:induction false} SubtreeParent(t: seq<GroupRow>, rank: map<Id, nat>, x: Id, w: Id, h: nat)
    returns (r: GroupRow, p: Id)
    requires Descending(t, rank) && Below(t, rank, x, h)
    requires InSubtree(t, rank, x, w, h) && w != x
    ensures r in t && r.id == w && Matches(r.parentId, p) && InSubtree(t, rank, x, p, h)
    decreases h
  {
    var c :| c in t && Matches(c.parentId, x) && InSubtree(t, rank, c.id, w, rank[c.id]);
    if w == c.id {
      r, p := c, x;
    } else {
      r, p := SubtreeParent(t, rank, c.id, w, rank[c.id]);
    }
  }

  /** Two subtrees that meet are nested. */
  lemma {:induction false} SubtreesNest(t: seq<GroupRow>, rank: map<Id, nat>, a: Id, b: Id, w: Id, ha: nat, hb: nat)
    requires Descending(t, rank) && UniqueBy(t, GroupId)
    requires Below(t, rank, a, ha) && Below(t, rank, b, hb)
    requires InSubtree(t, rank, a, w, ha) && InSubtree(t, rank, b, w, hb)
    ensures InSubtree(t, rank, b, a, hb) || InSubtree(t, rank, a, b, ha)
    decreases if w in rank && rank[w] < ha then ha - rank[w] else 0
  {
    if w != a && w != b {
      SubtreeRanks(t, rank, a, w, ha);
      var r1, p1 := SubtreeParent(t, rank, a, w, ha);
      var r2, p2 := SubtreeParent(t, rank, b, w, hb);
      UniqueRow(t, GroupId, r1, r2);
      MatchesOne(r1.parentId, p1, p2);
      if p1 != a && p1 != b {
        SubtreeRanks(t, rank, a, p1, ha);
        SubtreesNest(t, rank, a, b, p1, ha, hb);
      }
    }
  }

  /** The subtrees of two different children of one group are disjoint. */
  lemma SiblingsDisjoint(t: seq<GroupRow>, rank: map<Id, nat>, g: Id, c1: GroupRow, c2: GroupRow)
    requires Descending(t, rank) && UniqueBy(t, GroupId)
    requires c1 in t && c2 in t && c1.id != c2.id && c1.id in rank && c2.id in rank
    requires Matches(c1.parentId, g) && Matches(c2.parentId, g)
    ensures SubtreeIds(t, rank, c1.id, rank[c1.id]) !! SubtreeIds(t, rank, c2.id, rank[c2.id])
  {
    forall w | w in SubtreeIds(t, rank, c1.id, rank[c1.id]) && w in SubtreeIds(t, rank, c2.id, rank[c2.id])
      ensures false
    {
      assert InSubtree(t, rank, c1.id, w, rank[c1.id]) && InSubtree(t, rank, c2.id, w, rank[c2.id]);
      SubtreesNest(t, rank, c1.id, c2.id, w, rank[c1.id], rank[c2.id]);
      if InSubtree(t, rank, c2.id, c1.id, rank[c2.id]) {
        NotBelowSibling(t, rank, g, c1, c2);
      } else {
        NotBelowSibling(t, rank, g, c2, c1);
      }
    }
  }

  /** A child of `g` never lies below another child of `g`. */
  lemma NotBelowSibling(t: seq<GroupRow>, rank: map<Id, nat>, g: Id, c1: GroupRow, c2: GroupRow)
    requires Descending(t, rank) && UniqueBy(t, GroupId)
    requires c1 in t && c2 in t && c1.id != c2.id && c1.id in rank && c2.id in rank
    requires Matches(c1.parentId, g) && Matches(c2.parentId, g)
    ensures !InSubtree(t, rank, c2.id, c1.id, rank[c2.id])
  {
    if InSubtree(t, rank, c2.id, c1.id, rank[c2.id]) {
      var r, p := SubtreeParent(t, rank, c2.id, c1.id, rank[c2.id]);
      UniqueRow(t, GroupId, r, c1);
      MatchesOne(c1.parentId, p, g);
      if g != c2.id {
        SubtreeRanks(t, rank, c2.id, g, rank[c2.id]);
      }
    }
  }

  lemma ChildInSubtree(t: seq<GroupRow>, rank: map<Id, nat>, x: Id, h: nat, c: GroupRow, w: Id)
    requires Descending(t, rank) && Below(t, rank, x, h)
    requires c in t && Matches(c.parentId, x) && InSubtree(t, rank, c.id, w, rank[c.id])
    ensures InSubtree(t, rank, x, w, h)
  {
  }

  /** Removing groups that lie outside the subtree of `x` leaves that subtree as it was: the
      cascade may delete one child's subtree before it walks the next. */
  lemma {:induction false} SubtreeLocal(t: seq<GroupRow>, rank: map<Id, nat>, x: Id, w: Id, h: nat, s: set<Id>)
    requires Descending(t, rank) && Below(t, rank, x, h)
    requires forall g :: g in t && InSubtree(t, rank, x, g.id, h) ==> g.id !in s
    ensures Descending(Without(t, GroupKey, s), rank) && Below(Without(t, GroupKey, s), rank, x, h)
    ensures InSubtree(Without(t, GroupKey, s), rank, x, w, h) <==> InSubtree(t, rank, x, w, h)
    decreases h
  {
    var u := Without(t, GroupKey, s);
    if w != x {
      if InSubtree(u, rank, x, w, h) {
        var c :| c in u && Matches(c.parentId, x) && InSubtree(u, rank, c.id, w, rank[c.id]);
        forall g | g in t && InSubtree(t, rank, c.id, g.id, rank[c.id]) ensures g.id !in s {
          ChildInSubtree(t, rank, x, h, c, g.id);
        }
        SubtreeLocal(t, rank, c.id, w, rank[c.id], s);
        ChildInSubtree(t, rank, x, h, c, w);
      }
      if InSubtree(t, rank, x, w, h) {
        var c :| c in t && Matches(c.parentId, x) && InSubtree(t, rank, c.id, w, rank[c.id]);
        forall g | g in t && InSubtree(t, rank, c.id, g.id, rank[c.id]) ensures g.id !in s {
          ChildInSubtree(t, rank, x, h, c, g.id);
        }
        ChildInSubtree(t, rank, x, h, c, c.id);
        SubtreeLocal(t, rank, c.id, w, rank[c.id], s);
        ChildInSubtree(u, rank, x, h, c, w);
      }
    }
  }

  /** The same subtree, as a set of ids. */
  lemma SubtreeIdsLocal(t: seq<GroupRow>, rank: map<Id, nat>, x: Id, h: nat, s: set<Id>)
    requires Descending(t, rank) && Below(t, rank, x, h)
    requires SubtreeIds(t, rank, x, h) !! s
    ensures Descending(Without(t, GroupKey, s), rank) && Below(Without(t, GroupKey, s), rank, x, h)
    ensures SubtreeIds(Without(t, GroupKey, s), rank, x, h) == SubtreeIds(t, rank, x, h)
  {
    var u := Without(t, GroupKey, s);
    forall g | g in t && InSubtree(t, rank, x, g.id, h) ensures g.id !in s {
      assert g.id in SubtreeIds(t, rank, x, h);
    }
    SubtreeLocal(t, rank, x, x, h, s);
    forall w ensures w in SubtreeIds(u, rank, x, h) <==> w in SubtreeIds(t, rank, x, h) {
      SubtreeLocal(t, rank, x, w, h, s);
      if w in SubtreeIds(t, rank, x, h) && w != x {
        var g :| g in t && InSubtree(t, rank, x, g.id, h) && g.id == w;
        assert g in u;
      }
    }
  }

  /** The ids in the subtrees of the groups `cs`. */
  ghost function SubtreesOf(t: seq<GroupRow>, rank: map<Id, nat>, cs: seq<GroupRow>): set<Id>
    requires Descending(t, rank) && forall c :: c in cs ==> c in t && c.id in rank
  {
    if cs == [] then {}
    else
      var c := cs[|cs| - 1];
      SubtreesOf(t, rank, cs[..|cs| - 1]) + SubtreeIds(t, rank, c.id, rank[c.id])
  }

  lemma {:induction false} SubtreesOfMembers(t: seq<GroupRow>, rank: map<Id, nat>, cs: seq<GroupRow>, w: Id)
    requires Descending(t, rank) && forall c :: c in cs ==> c in t && c.id in rank
    ensures w in SubtreesOf(t, rank, cs) <==> exists c :: c in cs && w in SubtreeIds(t, rank, c.id, rank[c.id])
  {
    if cs != [] {
      var last := cs[|cs| - 1];
      var init := cs[..|cs| - 1];
      assert cs == init + [last];
      SubtreesOfMembers(t, rank, init, w);
    }
  }

  /** A group's subtree is the group itself and the subtrees of its children, listed in any
      order: so the cascade that walks the children of `g` and then deletes `g` reaches every
      descendant. */
  lemma SubtreeSplit(t: seq<GroupRow>, rank: map<Id, nat>, g: Id, h: nat, cs: seq<GroupRow>)
    requires Descending(t, rank) && Below(t, rank, g, h)
    requires forall c :: c in cs <==> c in t && Matches(c.parentId, g)
    ensures SubtreeIds(t, rank, g, h) == {g} + SubtreesOf(t, rank, cs)
  {
    forall w ensures w in SubtreeIds(t, rank, g, h) <==> w == g || w in SubtreesOf(t, rank, cs) {
      SubtreesOfMembers(t, rank, cs, w);
      if w in SubtreeIds(t, rank, g, h) && w != g {
        var r :| r in t && InSubtree(t, rank, g, r.id, h) && r.id == w;
        var c :| c in t && Matches(c.parentId, g) && InSubtree(t, rank, c.id, w, rank[c.id]);
        assert w in SubtreeIds(t, rank, c.id, rank[c.id]);
      }
      if w != g && w in SubtreesOf(t, rank, cs) {
        var c :| c in cs && w in SubtreeIds(t, rank, c.id, rank[c.id]);
        if w == c.id {
          ChildInSubtree(t, rank, g, h, c, c.id);
        } else {
          var r :| r in t && InSubtree(t, rank, c.id, r.id, rank[c.id]) && r.id == w;
          ChildInSubtree(t, rank, g, h, c, w);
        }
      }
    }
  }

  // ---------------------------------------------------------------------------
  // `update(groups).set(newGroup).where(eq(id, newGroup.id))`
  // ---------------------------------------------------------------------------

  /** A key of the object passed to `.set(...)`: `undefined` keys are not written. */
  datatype Field<T> = Unset | Set(value: T)

  function Apply<T>(f: Field<T>, current: T): T {
    match f
    case Unset => current
    case Set(v) => v
  }

  /** The columns `updateAsync` copies from its argument; the id selects the row. */
  datatype GroupPatch = GroupPatch(
    id: Id, name: Field<Option<string>>, description: Field<Option<string>>,
    icon: Field<Option<string>>, order: Field<Option<int>>, color: Field<Option<string>>,
    parentId: Field<Option<Id>>)

  function ApplyPatch(g: GroupRow, p: GroupPatch): GroupRow {
    GroupRow(g.id, Apply(p.name, g.name), Apply(p.description, g.description), Apply(p.icon, g.icon),
      Apply(p.order, g.order), Apply(p.color, g.color), Apply(p.parentId, g.parentId))
  }

  /** The table after the update: exactly the rows with the patch's id take every written
      column from the patch and keep every other column; all other rows are untouched. */
  function PatchRows(t: seq<GroupRow>, p: GroupPatch): (r: seq<GroupRow>)
    ensures |r| == |t|
    ensures forall i :: 0 <= i < |t| ==> r[i].id == t[i].id
    ensures forall i :: 0 <= i < |t| && t[i].id != p.id ==> r[i] == t[i]
    ensures forall i :: 0 <= i < |t| && t[i].id == p.id ==>
      (p.name.Set? ==> r[i].name == p.name.value)
      && (p.name.Unset? ==> r[i].name == t[i].name)
      && (p.description.Set? ==> r[i].description == p.description.value)
      && (p.description.Unset? ==> r[i].description == t[i].description)
      && (p.icon.Set? ==> r[i].icon == p.icon.value)
      && (p.icon.Unset? ==> r[i].icon == t[i].icon)
      && (p.order.Set? ==> r[i].order == p.order.value)
      && (p.order.Unset? ==> r[i].order == t[i].order)
      && (p.color.Set? ==> r[i].color == p.color.value)
      && (p.color.Unset? ==> r[i].color == t[i].color)
      && (p.parentId.Set? ==> r[i].parentId == p.parentId.value)
      && (p.parentId.Unset? ==> r[i].parentId == t[i].parentId)
  {
    seq(|t|, i requires 0 <= i < |t| => if t[i].id == p.id then ApplyPatch(t[i], p) else t[i])
  }

  /** A root group `r` with one child `c`: the subtree of `r` holds `c` as well. */
  lemma SubtreeOfRootWithChild()
    ensures var t := [GroupRow("r", None, None, None, None, None, None),
                      GroupRow("c", None, None, None, None, None, Some("r"))];
      var rank := map["r" := 1, "c" := 0];
      Ranked(t, rank) && Below(t, rank, "r", 1) && SubtreeIds(t, rank, "r", 1) == {"r", "c"}
  {
    var t := [GroupRow("r", None, None, None, None, None, None),
              GroupRow("c", None, None, None, None, None, Some("r"))];
    var rank := map["r" := 1, "c" := 0];
    assert InSubtree(t, rank, "c", "c", 0);
    assert InSubtree(t, rank, "r", "c", 1) by {
      assert t[1] in t && Matches(t[1].parentId, "r");
    }
  }

  /** A root `a` beside two groups `b` and `c` that are each other's parent: no ranking
      covers the whole table, yet the walk from `a` reaches neither `b` nor `c`, so it ends
      and the subtree of `a` is `a` alone. */
  lemma CycleElsewhere()
    ensures var t := [GroupRow("a", None, None, None, None, None, None),
                      GroupRow("b", None, None, None, None, None, Some("c")),
                      GroupRow("c", None, None, None, None, None, Some("b"))];
      (forall rank :: !Ranked(t, rank))
      && Descending(t, map[]) && Below(t, map[], "a", 0) && SubtreeIds(t, map[], "a", 0) == {"a"}
  {
    var t := [GroupRow("a", None, None, None, None, None, None),
              GroupRow("b", None, None, None, None, None, Some("c")),
              GroupRow("c", None, None, None, None, None, Some("b"))];
    forall g | g in t && InSubtree(t, map[], "a", g.id, 0) ensures g.id == "a" {
    }
  }

  /** The ids of the rows of `t`. */
  function Ids(t: seq<GroupRow>): set<Id> {
    set g | g in t :: g.id
  }

  /** The ids of a concatenation: a row, the rows before it and the rows after it. */
  lemma IdsConcat(a: seq<GroupRow>, c: GroupRow, b: seq<GroupRow>)
    ensures Ids(a + [c] + b) == Ids(a) + {c.id} + Ids(b)
  {
    assert forall g :: g in a + [c] + b <==> g in a || g == c || g in b;
  }

  /** Patching keeps the ids, so it keeps them unique and leaves the id set as it was. */
  lemma PatchKeepsIds(t: seq<GroupRow>, p: GroupPatch)
    ensures UniqueBy(t, GroupId) ==> UniqueBy(PatchRows(t, p), GroupId)
    ensures Ids(PatchRows(t, p)) == Ids(t)
  {
    var r := PatchRows(t, p);
    forall id | id in Ids(t) ensures id in Ids(r) {
      var i :| 0 <= i < |t| && t[i].id == id;
      assert r[i] in r;
    }
    forall id | id in Ids(r) ensures id in Ids(t) {
      var i :| 0 <= i < |r| && r[i].id == id;
      assert t[i] in t;
    }
  }

  /** A patch that writes nothing changes nothing. */
  lemma EmptyPatch(t: seq<GroupRow>, id: Id)
    ensures PatchRows(t, GroupPatch(id, Unset, Unset, Unset, Unset, Unset, Unset)) == t
  {
  }

  /** The patch that writes a whole row: `.set(updateGroup)` with a cached row. */
  function FullPatch(g: GroupRow): (p: GroupPatch)
    ensures p.id == g.id
    ensures forall h: GroupRow :: h.id == g.id ==> ApplyPatch(h, p) == g
  {
    GroupPatch(g.id, Set(g.name), Set(g.description), Set(g.icon), Set(g.order), Set(g.color), Set(g.parentId))
  }

  /** The patch of the soft delete, `updateAsync({ id, parentId: trashId })`. */
  function ToTrash(id: Id): (p: GroupPatch)
    ensures p.id == id && p.parentId == Set(Some(TrashId))
    ensures p.name.Unset? && p.description.Unset? && p.icon.Unset? && p.order.Unset? && p.color.Unset?
  {
    GroupPatch(id, Unset, Unset, Unset, Unset, Unset, Set(Some(TrashId)))
  }

  // ---------------------------------------------------------------------------
  // `areGroupsEqual`
  // ---------------------------------------------------------------------------

  /** `areGroupsEqual(a, b)`: two nulls, then two arrays (equal lengths are enough, otherwise
      `groupA.some(...)` compares each element of `a` with itself), then `areObjectsEqual`. */
  function AreGroupsEqual(a: JsValues.Value, b: JsValues.Value): (r: bool)
    ensures (a.Null? && b.Null?) || Helper.AreObjectsEqual(a, b) ==> r
  {
    if a.Null? && b.Null? then true
    else if a.Arr? && b.Arr? then
      if |a.elems| == |b.elems| then true
      else exists i :: 0 <= i < |a.elems| && Helper.AreObjectsEqual(a.elems[i], a.elems[i])
    else Helper.AreObjectsEqual(a, b)
  }

  /** `areGroupsEqual` starts from `null === null` where `areItemsEqual` starts from `a === b`;
      the two agree on every pair of values. */
  lemma GroupsEqualIsItemsEqual(a: JsValues.Value, b: JsValues.Value)
    ensures AreGroupsEqual(a, b) == GroupComposables.AreItemsEqual(a, b)
  {
  }

  /** Two arrays are "equal" exactly when their lengths agree or the first is non-empty:
      `[1]` equals `[2]` and `[1]` equals `[]`, but `[]` differs from `[1]`. */
  lemma GroupsEqualOnArrays(x: seq<JsValues.Value>, y: seq<JsValues.Value>)
    ensures AreGroupsEqual(JsValues.Arr(x), JsValues.Arr(y)) <==> |x| == |y| || |x| > 0
  {
    GroupsEqualIsItemsEqual(JsValues.Arr(x), JsValues.Arr(y));
    GroupComposables.ItemsEqualOnArrays(x, y);
  }

  // ---------------------------------------------------------------------------
  // The cascade of a final group deletion
  // ---------------------------------------------------------------------------

  /** Deleting groups keeps the ranking. */
  lemma RankedWithout(t: seq<GroupRow>, rank: map<Id, nat>, s: set<Id>)
    requires Ranked(t, rank)
    ensures Ranked(Without(t, GroupKey, s), rank)
  {
  }

  /** A child of a group in the subtree of `x` is in that subtree too. */
  lemma {:induction false} SubtreeClosed(t: seq<GroupRow>, rank: map<Id, nat>, x: Id, w: Id, h: nat, c: GroupRow)
    requires Descending(t, rank) && Below(t, rank, x, h)
    requires InSubtree(t, rank, x, w, h) && c in t && Matches(c.parentId, w)
    ensures InSubtree(t, rank, x, c.id, h)
    decreases h
  {
    if w == x {
      ChildInSubtree(t, rank, x, h, c, c.id);
    } else {
      var d :| d in t && Matches(d.parentId, x) && InSubtree(t, rank, d.id, w, rank[d.id]);
      SubtreeClosed(t, rank, d.id, w, rank[d.id], c);
      ChildInSubtree(t, rank, x, h, d, c.id);
    }
  }

  /** Re-parenting group `g` onto `np` keeps the links acyclic when `np` lies outside the
      subtree of `g`: the subtree keeps its ranks and every other group is lifted above it. */
  lemma MoveOutsideSubtreeRanked(t: seq<GroupRow>, rank: map<Id, nat>, p: GroupPatch, np: Option<Id>)
    requires Ranked(t, rank) && p.id in rank && Below(t, rank, p.id, rank[p.id]) && p.parentId == Set(np)
    requires forall q :: Matches(np, q) ==> q !in SubtreeIds(t, rank, p.id, rank[p.id])
    ensures exists rank2 :: Ranked(PatchRows(t, p), rank2)
  {
    var h := rank[p.id];
    var S := SubtreeIds(t, rank, p.id, h);
    var rank2 := Lifted(rank, S, h + 1);
    var r := PatchRows(t, p);
    forall c | c in r ensures c.id in rank2 {
      var i :| 0 <= i < |r| && r[i] == c;
      assert t[i] in t;
    }
    forall c, q | c in r && q in rank2 && Matches(c.parentId, q) ensures rank2[c.id] < rank2[q] {
      var i :| 0 <= i < |r| && r[i] == c;
      assert t[i] in t;
      if t[i].id == p.id {
        assert q !in S;
      } else if q in S {
        SubtreeClosedIds(t, rank, p.id, h, t[i], q);
      }
    }
    assert Ranked(r, rank2);
  }

  /** `rank` with every group outside `S` raised by `d`. */
  ghost function Lifted(rank: map<Id, nat>, S: set<Id>, d: nat): (r: map<Id, nat>)
    ensures r.Keys == rank.Keys
    ensures forall x :: x in rank ==> r[x] == if x in S then rank[x] else rank[x] + d
  {
    map x | x in rank :: if x in S then rank[x] else rank[x] + d
  }

  /** A child of a member of the subtree of `x` is in it too, stated on the id set. */
  lemma SubtreeClosedIds(t: seq<GroupRow>, rank: map<Id, nat>, x: Id, h: nat, c: GroupRow, q: Id)
    requires Descending(t, rank) && Below(t, rank, x, h)
    requires c in t && Matches(c.parentId, q) && q in SubtreeIds(t, rank, x, h)
    ensures c.id in SubtreeIds(t, rank, x, h)
  {
    if q != x {
      var w :| w in t && InSubtree(t, rank, x, w.id, h) && w.id == q;
    }
    SubtreeClosed(t, rank, x, q, h, c);
  }

  /** After removing a subtree, no remaining group has its parent among the removed ones:
      the deletion leaves no orphan behind. */
  lemma CascadeLeavesNoOrphans(t: seq<GroupRow>, rank: map<Id, nat>, g: Id, h: nat)
    requires Descending(t, rank) && Below(t, rank, g, h)
    ensures forall r, w :: (r in Without(t, GroupKey, SubtreeIds(t, rank, g, h)) && w in SubtreeIds(t, rank, g, h)
      ==> !Matches(r.parentId, w))
    ensures forall r :: r in Without(t, GroupKey, SubtreeIds(t, rank, g, h)) ==> r.id !in SubtreeIds(t, rank, g, h)
  {
    var sub := SubtreeIds(t, rank, g, h);
    forall r, w | r in Without(t, GroupKey, sub) && w in sub ensures !Matches(r.parentId, w) {
      if Matches(r.parentId, w) {
        if w != g {
          var q :| q in t && InSubtree(t, rank, g, q.id, h) && q.id == w;
        }
        SubtreeClosed(t, rank, g, w, h, r);
      }
    }
  }

  /** One child's share of the cascade: deleting the child's subtree from the table that is
      left after the earlier children is deleting it from the original table. */
  lemma CascadeStep(t: seq<GroupRow>, rank: map<Id, nat>, done: set<Id>, c: GroupRow)
    requires Descending(t, rank) && c in t && c.id in rank
    requires SubtreeIds(t, rank, c.id, rank[c.id]) !! done
    ensures Descending(Without(t, GroupKey, done), rank) && Below(Without(t, GroupKey, done), rank, c.id, rank[c.id])
    ensures SubtreeIds(Without(t, GroupKey, done), rank, c.id, rank[c.id]) == SubtreeIds(t, rank, c.id, rank[c.id])
    ensures Without(Without(t, GroupKey, done), GroupKey, SubtreeIds(Without(t, GroupKey, done), rank, c.id, rank[c.id]))
      == Without(t, GroupKey, done + SubtreeIds(t, rank, c.id, rank[c.id]))
  {
    SubtreeIdsLocal(t, rank, c.id, rank[c.id], done);
    WithoutTwice(t, GroupKey, done, SubtreeIds(t, rank, c.id, rank[c.id]));
  }

  /** The subtrees of the first `i + 1` children. */
  lemma SubtreesOfSnoc(t: seq<GroupRow>, rank: map<Id, nat>, cs: seq<GroupRow>, i: nat)
    requires Descending(t, rank) && i < |cs| && forall c :: c in cs ==> c in t && c.id in rank
    ensures SubtreesOf(t, rank, cs[..i + 1]) == SubtreesOf(t, rank, cs[..i]) + SubtreeIds(t, rank, cs[i].id, rank[cs[i].id])
  {
    assert cs[..i + 1][..i] == cs[..i];
  }

  // ---------------------------------------------------------------------------
  // New groups and the trash group
  // ---------------------------------------------------------------------------

  /** The argument of `addGroupAsync` (a partial insert row). */
  datatype GroupDraft = GroupDraft(
    id: Option<string>, name: Option<string>, description: Option<string>, icon: Option<string>,
    order: Option<int>, color: Option<string>, parentId: Option<Id>)

  /** `newGroup` of `addGroupAsync`: the given id when it is truthy, else `newId`; the
      description is not copied. */
  function NewGroup(draft: GroupDraft, newId: Id): (g: GroupRow)
    ensures Truthy(draft.id) ==> g.id == draft.id.value
    ensures !Truthy(draft.id) ==> g.id == newId
    ensures g.description.None?
    ensures g.name == draft.name && g.icon == draft.icon && g.order == draft.order
    ensures g.color == draft.color && g.parentId == draft.parentId
  {
    GroupRow(if Truthy(draft.id) then draft.id.value else newId, draft.name, None, draft.icon,
      draft.order, draft.color, draft.parentId)
  }

  /** The draft `createTrashIfNotExistsAsync` passes to `addGroupAsync`. */
  const TrashDraft := GroupDraft(Some(TrashId), Some("Trash"), None, Some("mdi:trash-outline"), None, None, None)

  /** The trash group as inserted: a root named "Trash" with id "trash". */
  lemma TrashGroupShape(newId: Id)
    ensures NewGroup(TrashDraft, newId) ==
      GroupRow(TrashId, Some("Trash"), None, Some("mdi:trash-outline"), None, None, None)
  {
  }

  /** The groups table after `createTrashIfNotExistsAsync`: the trash group appended when no
      row has its id. */
  function WithTrash(present: bool, t: seq<GroupRow>): (r: seq<GroupRow>)
    ensures t <= r
    ensures Ids(r) == Ids(t) + (if present then {TrashId} else {})
  {
    if present && TrashId !in Ids(t) then t + [NewGroup(TrashDraft, TrashId)] else t
  }

  /** With a vault, exactly one trash row afterwards; a second call changes nothing. */
  lemma WithTrashOnce(t: seq<GroupRow>)
    requires UniqueBy(t, GroupId)
    ensures UniqueBy(WithTrash(true, t), GroupId)
    ensures |WithId(WithTrash(true, t), TrashId)| == 1
    ensures WithTrash(true, WithTrash(true, t)) == WithTrash(true, t)
  {
    var r := WithTrash(true, t);
    if TrashId !in Ids(t) {
      AppendUnique(t, GroupId, NewGroup(TrashDraft, TrashId));
      assert r[|t|] in r;
      assert TrashId in Ids(r);
    } else {
      var g :| g in t && g.id == TrashId;
    }
    WithIdUnique(r, TrashId);
    var g :| g in r && g.id == TrashId;
    assert g in WithId(r, TrashId);
  }
}
