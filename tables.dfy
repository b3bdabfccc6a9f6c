/** Row-level vocabulary shared by the two stores: how a drizzle query for an id meets a
    nullable id column, deletion of the rows whose key lies in a set, and the uniqueness a
    primary key guarantees. Tables are sequences of rows in storage order. */
module Tables {
  import opened Wrappers
  import opened Schema

  /** The message of a statement that breaks a primary or composite key. */
  const UniqueFailed := "UNIQUE constraint failed"

  /** A string that JavaScript treats as true: present and non-empty. */
  predicate Truthy(s: Option<string>) {
    s.Some? && s.value != ""
  }

  /** `a || b` on two nullable strings. */
  function Or(a: Option<string>, b: Option<string>): (r: Option<string>)
    ensures Truthy(a) ==> r == a
    ensures !Truthy(a) ==> r == b
  {
    if Truthy(a) then a else b
  }

  /** A store query for `p` on a nullable id column: a non-empty (truthy) `p` becomes
      `eq(column, p)`, the empty string becomes `isNull(column)`. A stored `""` is matched by
      no query. */
  predicate Matches(col: Option<Id>, p: string): (r: bool)
    ensures r ==> (col.None? <==> p == "")
  {
    if p != "" then col == Some(p) else col.None?
  }

  /** A column value is matched by at most one query argument: a row has one parent. */
  lemma MatchesOne(col: Option<Id>, p: string, q: string)
    requires Matches(col, p) && Matches(col, q)
    ensures p == q
  {
  }

  /** `k` is a present key that lies in `ys` (`eq(column, y)` for some `y` in `ys`). */
  predicate Hit(k: Option<Id>, ys: set<Id>) {
    k.Some? && k.value in ys
  }

  /** `delete ... where eq(column, y)` for every `y` in `ys`: the rows whose `key` is one of
      `ys` go, the others stay in their order. */
  function Without<T(!new)>(xs: seq<T>, key: T -> Option<Id>, ys: set<Id>): (r: seq<T>)
    ensures |r| <= |xs|
    ensures forall x :: x in r <==> x in xs && !Hit(key(x), ys)
  {
    if xs == [] then []
    else (if Hit(key(xs[0]), ys) then [] else [xs[0]]) + Without(xs[1..], key, ys)
  }

  /** Deleting `a` and then `b` is deleting `a + b` at once. */
  lemma {:induction false} WithoutTwice<T(!new)>(xs: seq<T>, key: T -> Option<Id>, a: set<Id>, b: set<Id>)
    ensures Without(Without(xs, key, a), key, b) == Without(xs, key, a + b)
  {
    if xs != [] {
      WithoutTwice(xs[1..], key, a, b);
      var rest := Without(xs[1..], key, a);
      if Hit(key(xs[0]), a) {
        assert Without(xs, key, a) == rest;
      } else {
        assert Without(xs, key, a) == [xs[0]] + rest;
        assert ([xs[0]] + rest)[1..] == rest;
      }
    }
  }

  /** Deleting nothing keeps the table. */
  lemma {:induction false} WithoutNothing<T(!new)>(xs: seq<T>, key: T -> Option<Id>)
    ensures Without(xs, key, {}) == xs
  {
    if xs != [] {
      WithoutNothing(xs[1..], key);
      assert xs == [xs[0]] + xs[1..];
    }
  }

  /** Deleting a set no row's key lies in keeps the table. */
  lemma {:induction false} WithoutMissing<T(!new)>(xs: seq<T>, key: T -> Option<Id>, ys: set<Id>)
    requires forall x :: x in xs ==> !Hit(key(x), ys)
    ensures Without(xs, key, ys) == xs
  {
    if xs != [] {
      assert xs[0] in xs;
      assert forall x :: x in xs[1..] ==> x in xs;
      WithoutMissing(xs[1..], key, ys);
      assert xs == [xs[0]] + xs[1..];
    }
  }

  /** The key of every row differs from the key of every other row: what a primary key
      guarantees. */
  predicate UniqueBy<T(!new), K(==)>(xs: seq<T>, key: T -> K) {
    forall i, j :: 0 <= i < j < |xs| ==> key(xs[i]) != key(xs[j])
  }

  /** Deleting rows keeps a primary key unique. */
  lemma {:induction false} WithoutUnique<T(!new), K>(xs: seq<T>, key: T -> Option<Id>, ys: set<Id>, pk: T -> K)
    requires UniqueBy(xs, pk)
    ensures UniqueBy(Without(xs, key, ys), pk)
  {
    if xs != [] {
      assert UniqueBy(xs[1..], pk) by {
        forall i, j | 0 <= i < j < |xs[1..]| ensures pk(xs[1..][i]) != pk(xs[1..][j]) {
          assert xs[1..][i] == xs[i + 1] && xs[1..][j] == xs[j + 1];
        }
      }
      WithoutUnique(xs[1..], key, ys, pk);
      var rest := Without(xs[1..], key, ys);
      if !Hit(key(xs[0]), ys) {
        forall x | x in rest ensures pk(x) != pk(xs[0]) {
          var j :| 0 <= j < |xs[1..]| && xs[1..][j] == x;
          assert xs[j + 1] == x;
        }
        var r := [xs[0]] + rest;
        forall i, j | 0 <= i < j < |r| ensures pk(r[i]) != pk(r[j]) {
          assert r[j] == rest[j - 1] && rest[j - 1] in rest;
          if i > 0 {
            assert r[i] == rest[i - 1];
          }
        }
      }
    }
  }

  lemma TailUnique<T(!new), K>(xs: seq<T>, pk: T -> K)
    requires UniqueBy(xs, pk) && xs != []
    ensures UniqueBy(xs[1..], pk)
  {
    forall i, j | 0 <= i < j < |xs[1..]| ensures pk(xs[1..][i]) != pk(xs[1..][j]) {
      assert xs[1..][i] == xs[i + 1] && xs[1..][j] == xs[j + 1];
    }
  }

  lemma ConsUnique<T(!new), K>(x: T, xs: seq<T>, pk: T -> K)
    requires UniqueBy(xs, pk)
    requires forall y :: y in xs ==> pk(y) != pk(x)
    ensures UniqueBy([x] + xs, pk)
  {
    var r := [x] + xs;
    forall i, j | 0 <= i < j < |r| ensures pk(r[i]) != pk(r[j]) {
      assert r[j] == xs[j - 1] && xs[j - 1] in xs;
      if i > 0 {
        assert r[i] == xs[i - 1];
      }
    }
  }

  /** In a table with a unique key, two rows with the same key are the same row. */
  lemma UniqueRow<T(!new), K>(xs: seq<T>, pk: T -> K, x: T, y: T)
    requires UniqueBy(xs, pk) && x in xs && y in xs && pk(x) == pk(y)
    ensures x == y
  {
    var i :| 0 <= i < |xs| && xs[i] == x;
    var j :| 0 <= j < |xs| && xs[j] == y;
    UniqueAt(xs, pk, i, j);
    UniqueAt(xs, pk, j, i);
  }

  lemma UniqueAt<T(!new), K>(xs: seq<T>, pk: T -> K, i: int, j: int)
    ensures UniqueBy(xs, pk) && 0 <= i < j < |xs| ==> pk(xs[i]) != pk(xs[j])
  {
  }

  /** Appending a row whose key is new keeps the key unique. */
  lemma AppendUnique<T(!new), K>(xs: seq<T>, pk: T -> K, x: T)
    requires UniqueBy(xs, pk)
    requires forall y :: y in xs ==> pk(y) != pk(x)
    ensures UniqueBy(xs + [x], pk)
  {
    var r := xs + [x];
    forall i, j | 0 <= i < j < |r| ensures pk(r[i]) != pk(r[j]) {
      assert r[i] == xs[i];
      if j == |xs| {
        assert xs[i] in xs;
      } else {
        assert r[j] == xs[j];
      }
    }
  }

  // ---------------------------------------------------------------------------
  // The keys of the rows
  // ---------------------------------------------------------------------------

  function GroupId(g: GroupRow): Id { g.id }
  function GroupKey(g: GroupRow): Option<Id> { Some(g.id) }
  function DetailsId(d: ItemRow): Id { d.id }
  function DetailsKey(d: ItemRow): Option<Id> { Some(d.id) }
  function KeyValueId(r: KeyValueRow): Id { r.id }
  function KeyValueKey(r: KeyValueRow): Option<Id> { Some(r.id) }
  function KeyValueItem(r: KeyValueRow): Option<Id> { r.itemId }
  function HistoryId(r: HistoryRow): Id { r.id }
  function HistoryItem(r: HistoryRow): Option<Id> { r.itemId }
  function MembershipItem(m: GroupItemRow): Option<Id> { m.itemId }
  function BinaryHash(b: BinaryRow): string { b.hash }
  function ItemBinaryId(r: ItemBinaryRow): Id { r.id }
  function SnapshotBinaryId(r: SnapshotBinaryRow): Id { r.id }

  /** The composite key `(item_id, group_id)` of the membership table. SQLite lets a key with
      a NULL part repeat, so only memberships with both parts present are kept apart. */
  predicate MembershipsKeyed(ms: seq<GroupItemRow>): (r: bool)
    ensures |ms| <= 1 ==> r
    ensures (forall i :: 0 <= i < |ms| ==> ms[i].itemId.None?) ==> r
  {
    forall i, j :: 0 <= i < j < |ms| && ms[i].itemId.Some? && ms[i].groupId.Some? ==> ms[i] != ms[j]
  }

  /** Deleting memberships keeps the composite key. */
  lemma {:induction false} WithoutKeyed(ms: seq<GroupItemRow>, ys: set<Id>)
    requires MembershipsKeyed(ms)
    ensures MembershipsKeyed(Without(ms, MembershipItem, ys))
  {
    if ms != [] {
      assert MembershipsKeyed(ms[1..]) by {
        forall i, j | 0 <= i < j < |ms[1..]| && ms[1..][i].itemId.Some? && ms[1..][i].groupId.Some?
          ensures ms[1..][i] != ms[1..][j]
        {
          assert ms[1..][i] == ms[i + 1] && ms[1..][j] == ms[j + 1];
        }
      }
      WithoutKeyed(ms[1..], ys);
      var rest := Without(ms[1..], MembershipItem, ys);
      if !Hit(ms[0].itemId, ys) {
        var r := [ms[0]] + rest;
        forall i, j | 0 <= i < j < |r| && r[i].itemId.Some? && r[i].groupId.Some?
          ensures r[i] != r[j]
        {
          assert r[j] == rest[j - 1] && rest[j - 1] in rest;
          if i == 0 {
            var k :| 0 <= k < |ms[1..]| && ms[1..][k] == rest[j - 1];
            assert ms[k + 1] == r[j];
          } else {
            assert r[i] == rest[i - 1];
          }
        }
      }
    }
  }

  // ---------------------------------------------------------------------------
  // Moving an item's memberships
  // ---------------------------------------------------------------------------

  /** The number of memberships of item `x`. */
  function MembershipCount(ms: seq<GroupItemRow>, x: Id): (n: nat)
    ensures n <= |ms|
  {
    if ms == [] then 0
    else (if ms[0].itemId == Some(x) then 1 else 0) + MembershipCount(ms[1..], x)
  }

  /** Fewer than two memberships of `x` means no two rows of `x`. */
  lemma {:induction false} MembershipCountBelowTwo(ms: seq<GroupItemRow>, x: Id)
    requires MembershipCount(ms, x) < 2
    ensures forall i, j :: 0 <= i < j < |ms| ==> !(ms[i].itemId == Some(x) && ms[j].itemId == Some(x))
  {
    if ms != [] {
      MembershipCountBelowTwo(ms[1..], x);
      if ms[0].itemId == Some(x) {
        MembershipCountZero(ms[1..], x);
      }
      forall i, j | 0 < i < j < |ms| ensures !(ms[i].itemId == Some(x) && ms[j].itemId == Some(x)) {
        assert ms[i] == ms[1..][i - 1] && ms[j] == ms[1..][j - 1];
      }
    }
  }

  lemma {:induction false} MembershipCountZero(ms: seq<GroupItemRow>, x: Id)
    requires MembershipCount(ms, x) == 0
    ensures forall i :: 0 <= i < |ms| ==> ms[i].itemId != Some(x)
  {
    if ms != [] {
      MembershipCountZero(ms[1..], x);
      forall i | 0 < i < |ms| ensures ms[i].itemId != Some(x) {
        assert ms[i] == ms[1..][i - 1];
      }
    }
  }

  /** `update group_items set {itemId: x, groupId: g} where eq(itemId, x)`: every membership
      of `x` now points at `g`. The statement fails (`None`) exactly when it would make two
      rows equal under the composite key: `g` is present and `x` has two memberships or more. */
  function Regroup(ms: seq<GroupItemRow>, x: Id, g: Option<Id>): (r: Option<seq<GroupItemRow>>)
    ensures r.None? <==> g.Some? && MembershipCount(ms, x) >= 2
    ensures r.Some? ==> |r.value| == |ms|
    ensures r.Some? ==> forall i :: 0 <= i < |ms| ==>
      r.value[i] == if ms[i].itemId == Some(x) then GroupItemRow(Some(x), g) else ms[i]
  {
    if g.Some? && MembershipCount(ms, x) >= 2 then None
    else
      Some(seq(|ms|, i requires 0 <= i < |ms| =>
        if ms[i].itemId == Some(x) then GroupItemRow(Some(x), g) else ms[i]))
  }

  /** A successful regroup keeps the composite key. */
  lemma RegroupKeyed(ms: seq<GroupItemRow>, x: Id, g: Option<Id>)
    requires MembershipsKeyed(ms) && Regroup(ms, x, g).Some?
    ensures MembershipsKeyed(Regroup(ms, x, g).value)
  {
    var r := Regroup(ms, x, g).value;
    if g.Some? {
      MembershipCountBelowTwo(ms, x);
    }
    forall i, j | 0 <= i < j < |r| && r[i].itemId.Some? && r[i].groupId.Some?
      ensures r[i] != r[j]
    {
    }
  }

  /** Inserting a membership that is not already there keeps the composite key. */
  lemma AppendKeyed(ms: seq<GroupItemRow>, m: GroupItemRow)
    requires MembershipsKeyed(ms)
    requires !(m.itemId.Some? && m.groupId.Some? && m in ms)
    ensures MembershipsKeyed(ms + [m])
  {
    var r := ms + [m];
    forall i, j | 0 <= i < j < |r| && r[i].itemId.Some? && r[i].groupId.Some?
      ensures r[i] != r[j]
    {
      if j == |ms| {
        assert r[i] == ms[i];
      }
    }
  }
}
