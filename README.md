# haex-pass vault engine in Dafny

haex-pass is a password manager that runs as an extension of a host application and keeps
its vault in SQLite tables reached through drizzle. This project models the engine behind
that vault and proves properties of the model:

- the table schema;
- the `CREATE TABLE` builder;
- the group hierarchy store: trash group, moves, soft and permanent delete, ordered child queries;
- the item store: add, update, read, soft and permanent delete, key/value rows;
- the content-addressed binary store with its orphan cleanup and its hash rendering;
- the history read;
- the two families of deep-equality comparators;
- the hex string codec;
- the KeePass icon table;
- the `Map`-backed `localStorage` facade.

The vault is modelled as values in memory:

- Each table is a sequence of rows (`Schema`, `ItemRows.ItemTables`).
- A drizzle `transaction` is all-or-nothing: a statement that would break a primary key makes
  the whole transaction fail and leaves the tables as they were (`Tables.Without`,
  `Tables.Regroup`, `ItemRows.UpdateTables`).
- The open vault is `PasswordStores.Vault`, with a `present` flag. When no vault is open,
  every read of the source yields `undefined` or `[]` and every write is skipped; the model
  does the same.
- The Pinia stores of groups and items are one class, `PasswordStores.Stores`. Its cached
  `groups` and `items` are fields that the sync methods reassign.
- `crypto.randomUUID()` is a function from a draw counter to ids.
- SHA-256 and `atob` are function parameters.

Modules:

- `Wrappers`: `Option` and `Outcome` (a value or a thrown message).
- `Strings`, `Hex`: `join`, `padStart`, `toString(16)`.
- `JsValues`: a closed type of JavaScript values (primitives, arrays, plain objects, dates,
  regexps) with `===` and `Object.keys`.
- `Helper`: app/utils/helper.ts.
- `GroupComposables`: app/components/pass/group/composables.ts.
- `Schema`: app/database/schemas/index.ts.
- `CreateTables`: app/database/createTables.ts.
- `Tables`: the SQL semantics both stores share: delete-where-in, unique keys, regrouping.
- `GroupTree`: the queries and row builders of app/stores/passwords/groups.ts.
- `GroupMoves`: the loop of `insertGroupItemsAsync`.
- `ItemRows`: the queries and row builders of app/stores/passwords/items.ts.
- `History`: app/stores/passwords/history.ts.
- `PasswordStores`: the state-changing operations of both stores. The two source files call
  each other, so they share one module.
- `Cleanup`: app/utils/cleanup.ts.
- `KeePassIcons`: app/utils/keepassIconMapping.ts.
- `Storage`: app/plugins/storage.ts.

Acyclic parent links are stated as the existence of a ranking of the groups. The
recursive walks of `deleteGroupAsync` and `getChildGroupsRecursiveAsync` keep no visited
set, so they end exactly when the groups reachable from their starting group form no
cycle. Their models ask only for that: a ranking of the groups below the start in which
every child sits below its parent (`GroupTree.Descending` with `GroupTree.Below`). A cycle
elsewhere in the table does not matter. The whole-table form, `GroupTree.Ranked`, is used
only for the lemmas about moves.

## Model

| member | source | states |
|---|---|---|
| JsValues.Keys | app/utils/helper.ts:182-188 | `Object.keys`: the index keys `0..n-1` of an array, the own keys of an object in the listed order, none for a date or a regexp. JavaScript lists integer-like keys first, in ascending order; the comparators do not depend on the order |
| JsValues.Lookup | app/utils/helper.ts:191-204 | when some entry has the key, the lookup returns the value of such an entry |
| JsValues.Get | app/utils/helper.ts:191-204 | the value under an own key of `v` is a smaller value than `v`, so the comparators' recursion ends |
| JsValues.WellFormedGet | app/utils/helper.ts:191-204 | in an object JavaScript can build, reading an own key gives the value listed with it |
| Helper.IsObject | app/utils/helper.ts:145-147 | `isObject` holds exactly for non-null objects: arrays, plain objects, dates and regexps |
| Helper.AreObjectsEqual | app/utils/helper.ts:157-211 | identical values and the null/"" pair always compare equal (the full characterisation is ObjectsEqualIff) |
| Helper.KeysMatchMeaning | app/utils/helper.ts:191-211 | the key loop succeeds iff every remaining key of the first object is a key of the second with a recursively equal value |
| Helper.ObjectsEqualIff | app/utils/helper.ts:182-211 | two objects are `areObjectsEqual` iff they have the same number of keys and every key of the first maps to equal values in both |
| Helper.WellFormedObjectsEqual | app/utils/helper.ts:182-211 | for objects JavaScript can build, equal exactly when they have as many properties and each property of the first has a same-named one in the second holding an equal value |
| Helper.FieldMatchedIff | app/utils/helper.ts:191-204 | in such objects, a property has an equal same-named partner exactly when its key is a key of the other object and the two reads are equal |
| Helper.ObjectsEqualReflexive | app/utils/helper.ts:159-162 | `areObjectsEqual(a, a)` for every value, nested objects included |
| Helper.NullEqualsEmptyString | app/utils/helper.ts:164-170 | null and `""` compare equal in both orders, also as values of the same key inside objects |
| Helper.NonObjectsEqualOnlyIfStrict | app/utils/helper.ts:174-177 | when one side is not an object and the pair is not null/`""`, equality is `===`; `undefined` vs `null` is false |
| Helper.ArraysOfDifferentLengthDiffer | app/utils/helper.ts:182-188 | arrays of different lengths are unequal, e.g. `[1,2]` vs `[1,2,3]` |
| Helper.ArrayEqualsIndexedObject | app/utils/helper.ts:182-211 | an array equals the plain object with the same index keys and values: only keys are compared |
| Helper.DatesAndRegExpsAllEqual | app/utils/helper.ts:182-211 | dates and regexps have no own keys, so any two of them compare equal |
| Helper.Pairs | app/utils/helper.ts:96 | `match(/.{1,2}/g)` yields pieces of one or two characters |
| Helper.TrimStart | app/utils/helper.ts:97 | `parseInt`'s skipping of leading white space leaves a string no longer than its input |
| Helper.HexPrefix | app/utils/helper.ts:97 | `parseInt(_, 16)` reads a prefix made only of hex digits |
| Helper.ParseIntHex | app/utils/helper.ts:97 | on at most two characters, `parseInt(_, 16)` is NaN or a value strictly between -256 and 256 |
| Helper.PairsOfTwo | app/utils/helper.ts:96 | two leading lowercase hex digits are split off as one piece |
| Helper.HexPieces | app/utils/helper.ts:87-91 | the i-th piece is the i-th char code rendered by `toString(16).padStart(2, "0")` |
| Helper.StringToHex | app/utils/helper.ts:87-91 | at least two hex digits per character (exactly two when every code is below 256, StringToHexShape) |
| Helper.StringToHexShape | app/utils/helper.ts:87-91 | for char codes below 256, `stringToHex(s)` has length `2·|s|` and only lowercase hex digits |
| Helper.StringToHexPairs | app/utils/helper.ts:87-96 | for char codes below 256, the two-character pieces of `stringToHex(s)` are the per-character encodings |
| Helper.HexPrefixOfHex | app/utils/helper.ts:97 | a string of hex digits is read whole |
| Helper.ParseIntHexOfDigits | app/utils/helper.ts:97 | `parseInt(_, 16)` of a non-empty hex digit string is its value |
| Helper.CharOfDigits | app/utils/helper.ts:97-98 | two hex digits decode to the character whose code is their value, which is below 256 |
| Helper.ChunkOfByte | app/utils/helper.ts:87-98 | a character below 256 encodes to two digits that decode back to it |
| Helper.HexToString | app/utils/helper.ts:93-101 | never longer than its input, since each regex piece of one or two characters gives one character; it inverts StringToHex below code 256 (HexRoundTrip) |
| Helper.HexRoundTrip | app/utils/helper.ts:87-101 | `hexToString(stringToHex(s)) == s` when every char code is below 256 |
| Helper.HexToStringOfEmpty | app/utils/helper.ts:94 | `hexToString("")` is `""` |
| Helper.Doubled | app/utils/helper.ts:114-119 | expanding 3-digit shorthand doubles the length |
| Helper.ContrastingTextColor | app/utils/helper.ts:103-123 | the luminance is only ever computed on a six-digit colour, the input with its '#' removed and a 3-digit shorthand doubled |
| Helper.ContrastFallback | app/utils/helper.ts:106-123 | "black" iff the colour is missing or empty, or has neither 3 nor 6 characters after dropping `#`; otherwise the luminance gets 6 digits |
| GroupComposables.ElementsMatchMeaning | app/components/pass/group/composables.ts:34-42 | the element loop succeeds iff every remaining pair of elements is `deepEqual` |
| GroupComposables.ArraysEqualIff | app/components/pass/group/composables.ts:34-42 | an array never equals a non-array; two arrays are equal iff same length and element-wise `deepEqual` |
| GroupComposables.KeysMatchMeaning | app/components/pass/group/composables.ts:55-65 | the key loop succeeds iff every remaining key is in the other object with a `deepEqual` value |
| GroupComposables.ObjectsEqualIff | app/components/pass/group/composables.ts:55-65 | plain objects are equal iff same key count and every key of the first maps to `deepEqual` values |
| GroupComposables.DatesAndRegExps | app/components/pass/group/composables.ts:45-52 | dates are equal iff their timestamps match, regexps iff their string forms match |
| GroupComposables.DateEqualsRegExp | app/components/pass/group/composables.ts:44-65 | a date and a regexp are both key-less objects and compare equal |
| GroupComposables.DeepEqual | app/components/pass/group/composables.ts:20-66 | identical primitives are equal; an equal pair always shares its `typeof` and is either two arrays or no array |
| GroupComposables.DeepEqualReflexive | app/components/pass/group/composables.ts:20-66 | `deepEqual(a, a)` for every value |
| GroupComposables.NullishEqualOnlyIfIdentical | app/components/pass/group/composables.ts:25 | with a null or undefined side, equal only if identical: null vs `""` and null vs undefined are false |
| GroupComposables.TypesAndPrimitives | app/components/pass/group/composables.ts:28-31 | operands of different `typeof` differ; primitives are equal iff `===` |
| GroupComposables.AreItemsEqual | app/components/pass/group/composables.ts:2-18 | never stricter than `===` or `areObjectsEqual` |
| GroupComposables.ItemsEqualOnArrays | app/components/pass/group/composables.ts:9-15 | on two arrays `areItemsEqual` holds iff equal lengths or a non-empty first array: `[1]` equals `[2]` and `[]` |
| GroupComposables.ItemsEqualElsewhere | app/components/pass/group/composables.ts:7-17 | outside two arrays, `areItemsEqual` is `areObjectsEqual` |
| GroupComposables.ItemsEqualElementwise | app/components/pass/group/composables.ts:9-15 | the corrected comparison never equates arrays of different lengths |
| GroupComposables.ElementwiseSeparates | app/components/pass/group/composables.ts:9-15 | the element-wise comparison is reflexive and tells `[1]` from `[2]` and arrays of different length apart |
| GroupComposables.ElementwiseImpliesItemsEqual | app/components/pass/group/composables.ts:7-17 | the element-wise comparison accepts only pairs `areItemsEqual` accepts |
| Schema.GetTableName | app/database/schemas/index.ts:12 | the name is the prefix `public_key__name__` followed by the table name |
| Schema.TableNamesDistinct | app/database/schemas/index.ts:12 | different table names give different prefixed names |
| Schema.BinariesKey | app/database/schemas/index.ts:119-127 | binaries are keyed by `hash` alone |
| Schema.GroupItemsKey | app/database/schemas/index.ts:99-112 | memberships are keyed by the pair (itemId, groupId) |
| Schema.ItemDetailsCascades | app/database/schemas/index.ts:37-165 | deleting details cascades to key/values, history, memberships, item-binaries and snapshots |
| Schema.GroupCascades | app/database/schemas/index.ts:86-105 | deleting a group cascades to child groups and to memberships |
| Schema.SnapshotCascades | app/database/schemas/index.ts:183-187 | deleting a snapshot cascades to its snapshot-binaries |
| Schema.BinaryCascades | app/database/schemas/index.ts:143-192 | deleting a binary cascades to item-binaries and snapshot-binaries |
| Schema.BinariesMandatory | app/database/schemas/index.ts:122-124 | the NOT NULL binary columns are `hash`, `data` and `size` |
| Schema.ItemBinariesMandatory | app/database/schemas/index.ts:137-148 | the NOT NULL item-binary columns are `id`, `item_id`, `binary_hash` and `file_name` |
| Schema.SnapshotsMandatory | app/database/schemas/index.ts:160-167 | the NOT NULL snapshot columns are `id`, `item_id` and `snapshot_data` |
| Schema.SnapshotBinariesMandatory | app/database/schemas/index.ts:179-193 | the NOT NULL snapshot-binary columns are `id`, `snapshot_id`, `binary_hash` and `file_name` |
| Strings.Join | app/database/createTables.ts:55 | `join(", ")` of no pieces is `""`, of one piece is the piece |
| Strings.JoinSnoc | app/database/createTables.ts:55 | joining one more piece appends the separator and the piece |
| Strings.Repeat | app/utils/helper.ts:90 | the fill of `padStart` is the pad character repeated |
| Strings.PadStart | app/utils/helper.ts:90 | `padStart(n, "0")` keeps a long string and left-fills a short one to exactly `n` |
| Hex.DigitValue | app/utils/helper.ts:97 | the value `parseInt` gives a hex digit, in either case, is below 16 |
| Hex.HexDigit | app/utils/helper.ts:90 | the lowercase digit of a value below 16 reads back as that value |
| Hex.ToHexString | app/utils/helper.ts:90 | `n.toString(16)`: lowercase digits reading back as `n`; one digit iff `n < 16`, at most two below 256 |
| Hex.LeadingZero | app/utils/cleanup.ts:84 | a leading `0` from `padStart` keeps the value |
| Hex.ByteToHex | app/utils/cleanup.ts:84 | a value of 256 or more keeps all its `toString(16)` digits, so the result is longer than two characters (the byte case is ByteToHexExact) |
| Hex.ByteToHexExact | app/utils/cleanup.ts:84 | a byte padded with `padStart(2, "0")` is exactly two lowercase digits with its value |
| CreateTables.ColumnDefinition | app/database/createTables.ts:33-44 | the `colDef +=` steps build `"name" type` then ` PRIMARY KEY`, ` NOT NULL`, ` DEFAULT x` in that order, each iff its flag holds |
| CreateTables.DefaultPart | app/database/createTables.ts:40-42 | the ` DEFAULT` part determines the default |
| CreateTables.NotNullPart | app/database/createTables.ts:38-39 | the flag part after the primary key determines not-null and the default |
| CreateTables.FlagsReadBack | app/database/createTables.ts:34-44 | two columns with the same name and type and the same definition have the same flags |
| CreateTables.QuotedNames | app/database/createTables.ts:51 | each composite-key column name is double-quoted, in order |
| CreateTables.Definitions | app/database/createTables.ts:31-53 | one definition per column in column order, plus the `PRIMARY KEY (...)` clause iff a composite key exists |
| CreateTables.TableStatement | app/database/createTables.ts:30-55 | the statement is `CREATE TABLE IF NOT EXISTS "<table>" (<defs joined by ", ">)` |
| CreateTables.RejectedSnoc | app/database/createTables.ts:57-64 | one more statement adds its table to the failures iff the host rejects it |
| CreateTables.CreateTablesAsync | app/database/createTables.ts:12-65 | one statement per table, in the fixed eight-table order; the failures are exactly the rejected tables, and none stops the loop |
| CreateTables.CreatedTablesDistinct | app/database/createTables.ts:12-21 | the eight tables are distinct, and the history table is not among them |
| CreateTables.GroupItemsKeyClause | app/database/createTables.ts:50-53 | the membership table gets `PRIMARY KEY ("item_id", "group_id")` |
| CreateTables.GroupItemsDefinitions | app/database/createTables.ts:33-53 | the membership definitions are its two text columns followed by the key clause |
| CreateTables.IdColumnDefinition | app/database/createTables.ts:34-41 | the id column reads `"id" text PRIMARY KEY NOT NULL` |
| Tables.Or | app/stores/passwords/items.ts:75 | `a \|\| b` on optional strings: `a` when truthy, else `b` |
| Tables.Matches | app/stores/passwords/groups.ts:188-216 | a query for "" matches only a NULL column, a truthy query only a present one |
| Tables.MatchesOne | app/stores/passwords/groups.ts:188-216 | a column value is matched by at most one query argument |
| Tables.Without | app/stores/passwords/items.ts:323-337 | a delete keeps exactly the rows whose key is not selected, and never adds rows |
| Tables.WithoutTwice | app/stores/passwords/items.ts:323-337 | deleting twice is deleting the union once |
| Tables.WithoutNothing | app/stores/passwords/items.ts:323-337 | deleting with no keys changes nothing |
| Tables.WithoutMissing | app/stores/passwords/items.ts:347-353 | deleting keys no row has changes nothing |
| Tables.WithoutUnique | app/stores/passwords/items.ts:323-337 | a delete keeps keys unique |
| Tables.TailUnique | app/stores/passwords/items.ts:93-103 | the rows after the first keep unique keys |
| Tables.ConsUnique | app/stores/passwords/items.ts:93-103 | a row whose key is new keeps keys unique |
| Tables.UniqueRow | app/stores/passwords/items.ts:93-103 | with unique keys, a key names at most one row |
| Tables.AppendUnique | app/stores/passwords/items.ts:93-103 | appending a row whose key is new keeps keys unique |
| Tables.MembershipsKeyed | app/database/schemas/index.ts:99-111 | no membership table of at most one row, or of rows without an item, breaks the composite key |
| Tables.WithoutKeyed | app/stores/passwords/items.ts:331-336 | a delete keeps the composite membership key unique |
| Tables.MembershipCountBelowTwo | app/stores/passwords/items.ts:338-344 | fewer than two counted memberships means no two membership rows of the item |
| Tables.MembershipCount | app/stores/passwords/items.ts:338-344 | the count of an item's memberships is at most the number of rows |
| Tables.MembershipCountZero | app/stores/passwords/items.ts:290-293 | no counted membership means no membership row of the item |
| Tables.Regroup | app/stores/passwords/items.ts:290-293 | every membership of the item becomes (item, target), others stay; it fails iff the target is non-null and the item has two or more memberships |
| Tables.RegroupKeyed | app/stores/passwords/items.ts:290-293 | a successful regroup keeps the composite membership key |
| Tables.AppendKeyed | app/stores/passwords/items.ts:93-103 | a membership insert keeps the composite key when the pair is not already there |
| GroupTree.TailSorted | app/stores/passwords/groups.ts:200 | the tail of a sorted list is sorted |
| GroupTree.ConsSorted | app/stores/passwords/groups.ts:200 | a row ordered before every row of a sorted list can go in front |
| GroupTree.InsertRows | app/stores/passwords/groups.ts:200 | inserting into the order adds exactly the new row to the multiset |
| GroupTree.InsertSorted | app/stores/passwords/groups.ts:200 | insertion keeps the list ordered by `order` with nulls last |
| GroupTree.SortByOrder | app/stores/passwords/groups.ts:150-208 | the sorted list has as many rows as the input (and is a sorted permutation of it, SortSortsAndKeeps) |
| GroupTree.SortSortsAndKeeps | app/stores/passwords/groups.ts:150-208 | `orderBy(order)` with nulls last yields a sorted permutation of its input |
| GroupTree.SortKeepsRows | app/stores/passwords/groups.ts:150-208 | sorting keeps the length and exactly the same rows |
| GroupTree.InsertUnique | app/stores/passwords/groups.ts:200 | insertion keeps ids unique when the new id is absent |
| GroupTree.SortUnique | app/stores/passwords/groups.ts:150-208 | sorting keeps ids unique |
| GroupTree.ChildrenOf | app/stores/passwords/groups.ts:188-216 | the rows whose `parentId` equals the argument, or the roots for an empty argument, in table order |
| GroupTree.ChildrenUnique | app/stores/passwords/groups.ts:188-216 | unique ids stay unique among the children |
| GroupTree.SortedChildrenUnique | app/stores/passwords/groups.ts:188-216 | the sorted children keep unique ids |
| GroupTree.GetByParentId | app/stores/passwords/groups.ts:188-216 | `getByParentIdAsync`: sorted by `order`, nulls last; exactly the matching groups; `[]` without a vault |
| GroupTree.ReadGroup | app/stores/passwords/groups.ts:128-137 | a row of the table with the id, or nothing iff there is no vault or no such row |
| GroupTree.WithId | app/stores/passwords/groups.ts:128-137 | the rows with a given id, in table order |
| GroupTree.ReadGroups | app/stores/passwords/groups.ts:139-152 | without a filter, all groups sorted by `order`, nulls last; with a filter, the rows whose `id` equals the filter's `parentId` |
| GroupTree.ReadGroupsByFilter | app/stores/passwords/groups.ts:139-152 | the filtered read returns at most one group and never the children of the filter's group |
| GroupTree.WithIdUnique | app/stores/passwords/groups.ts:128-137 | with unique ids, at most one row has a given id |
| GroupTree.SubtreeRanks | app/stores/passwords/groups.ts:314-335 | every group below a group ranks below the walk's bound |
| GroupTree.SubtreeParent | app/stores/passwords/groups.ts:314-335 | a group below `x` is a row whose parent lies in the subtree of `x` |
| GroupTree.SubtreesNest | app/stores/passwords/groups.ts:314-335 | two subtrees that share a group are nested |
| GroupTree.SiblingsDisjoint | app/stores/passwords/groups.ts:320-325 | the subtrees of two sibling groups share no id |
| GroupTree.NotBelowSibling | app/stores/passwords/groups.ts:320-325 | a group does not lie below its sibling |
| GroupTree.ChildInSubtree | app/stores/passwords/groups.ts:320-325 | what lies below a child lies below the parent |
| GroupTree.SubtreeLocal | app/stores/passwords/groups.ts:320-325 | deleting groups outside a subtree keeps the links ranked and the subtree unchanged |
| GroupTree.SubtreeIdsLocal | app/stores/passwords/groups.ts:320-325 | deleting ids outside a subtree keeps its id set unchanged |
| GroupTree.SubtreesOfMembers | app/stores/passwords/groups.ts:320-325 | an id is in the subtrees of a list of groups iff it is in one of their subtrees |
| GroupTree.SubtreeSplit | app/stores/passwords/groups.ts:320-335 | a group's subtree is the group plus its children's subtrees, so the post-order cascade reaches every descendant |
| GroupTree.CycleElsewhere | app/stores/passwords/groups.ts:176-186 | a cycle the walk from a group never reaches leaves the walk finite: the table has no whole-table ranking, yet the walk's precondition holds and the group's subtree is the group alone |
| GroupTree.SubtreeOfRootWithChild | app/stores/passwords/groups.ts:176-186 | a root with one child: the child lies in the root's subtree |
| GroupTree.IdsConcat | app/stores/passwords/groups.ts:182 | pushing rows adds exactly their ids |
| GroupTree.PatchRows | app/stores/passwords/groups.ts:232-251 | same length and ids; rows with another id unchanged; the row with the id takes each set field and keeps each unset one |
| GroupTree.PatchKeepsIds | app/stores/passwords/groups.ts:232-251 | patching keeps the id set, so unique ids stay unique |
| GroupTree.EmptyPatch | app/stores/passwords/groups.ts:240-250 | a patch that sets no field changes nothing |
| GroupTree.FullPatch | app/stores/passwords/groups.ts:287 | writing the whole row back turns the row with that id into the written row |
| GroupTree.ToTrash | app/stores/passwords/groups.ts:338 | the soft delete sets `parentId` to "trash" and writes no other column |
| GroupTree.GroupsEqualIsItemsEqual | app/stores/passwords/groups.ts:342-357 | `areGroupsEqual` agrees with `areItemsEqual` on every input |
| GroupTree.AreGroupsEqual | app/stores/passwords/groups.ts:342-357 | two nulls, or two values `areObjectsEqual` accepts, are equal groups |
| GroupTree.GroupsEqualOnArrays | app/stores/passwords/groups.ts:342-357 | on two arrays, equal lengths or a non-empty first array make them "equal" whatever their contents |
| GroupTree.RankedWithout | app/stores/passwords/groups.ts:320-335 | deleting groups keeps the parent links ranked |
| GroupTree.SubtreeClosed | app/stores/passwords/groups.ts:320-335 | a subtree contains the children of each of its groups |
| GroupTree.MoveOutsideSubtreeRanked | app/stores/passwords/groups.ts:277-289 | re-parenting a group onto a parent outside its own subtree keeps the parent links rankable (acyclic) |
| GroupTree.SubtreeClosedIds | app/stores/passwords/groups.ts:320-325 | a group whose parent is in a subtree is in that subtree |
| GroupTree.CascadeLeavesNoOrphans | app/stores/passwords/groups.ts:320-335 | after deleting a subtree, no remaining row has an id in it or a parent in it |
| GroupTree.CascadeStep | app/stores/passwords/groups.ts:321-325 | deleting one more child's subtree after earlier ones equals deleting the union at once |
| GroupTree.SubtreesOfSnoc | app/stores/passwords/groups.ts:321-325 | the subtrees of one more child add that child's subtree |
| GroupTree.NewGroup | app/stores/passwords/groups.ts:111-122 | a truthy supplied id is kept, a drawn one used otherwise; name, icon, order, colour and parent are copied |
| GroupTree.TrashGroupShape | app/stores/passwords/groups.ts:306-311 | the trash row has id "trash", name "Trash", the trash icon and no parent |
| GroupTree.WithTrash | app/stores/passwords/groups.ts:301-312 | the table only grows at its end, and its ids gain exactly "trash" when a vault is open |
| GroupTree.WithTrashOnce | app/stores/passwords/groups.ts:301-312 | the trash row is added only when absent: exactly one afterwards, and a second call changes nothing |
| GroupMoves.FindIndex | app/stores/passwords/groups.ts:279 | `findIndex`: the first position with the id, nothing iff no row has it |
| GroupMoves.TargetId | app/stores/passwords/groups.ts:275 | the target is the given id iff a cached group has it |
| GroupMoves.GroupStepStops | app/stores/passwords/groups.ts:279-282 | a group entry stops the loop iff it is not cached and there is no target, or its cached row already has the target as parent |
| GroupMoves.GroupStepKeepsMemberships | app/stores/passwords/groups.ts:277-290 | a group entry never fails and never changes memberships |
| GroupMoves.StepKeeps | app/stores/passwords/groups.ts:277-297 | a pass keeps the ids and never takes a group or item away from under the target |
| GroupMoves.Step | app/stores/passwords/groups.ts:277-296 | one pass keeps the number of cached and stored groups, and only an item entry can throw |
| GroupMoves.StepPlaces | app/stores/passwords/groups.ts:281-295 | a group entry ends under the target in the cache and the table; an item entry ends filed in the target |
| GroupMoves.SameIdsUnique | app/stores/passwords/groups.ts:277-297 | the loop keeps cached ids unique |
| GroupMoves.Run | app/stores/passwords/groups.ts:277-298 | the loop keeps the number of cached and stored groups however it ends, and throws only when the batch holds an item |
| GroupMoves.RunFinished | app/stores/passwords/groups.ts:277-298 | a run that ends normally keeps the ids and has placed every group entry, and every item entry when there is a target, under the target |
| GroupMoves.RunKeeps | app/stores/passwords/groups.ts:277-297 | the loop never takes a group or item away from under the target |
| GroupMoves.RunWithoutTarget | app/stores/passwords/groups.ts:291 | without a target, no membership changes |
| GroupMoves.SelfMoveMakesCycle | app/stores/passwords/groups.ts:284 | moving a group into itself is accepted and leaves a parent link no ranking admits |
| History.HistoryOf | app/stores/passwords/history.ts:18-21 | exactly the history rows whose `itemId` is the argument |
| History.GetAsync | app/stores/passwords/history.ts:11-28 | null for a null or empty id; a throw without a `db` handle; otherwise exactly the item's history |
| History.AsBuiltAlwaysThrows | app/stores/passwords/history.ts:15-16 | with the hub store as shown (it has `orm`, not `db`), every non-empty id throws |
| ItemRows.NewDetails | app/stores/passwords/items.ts:73-82 | the drawn id, no OTP secret, the given fields; icon from the details, else the group, else null, empty strings skipped |
| ItemRows.NewDetailsIcon | app/stores/passwords/items.ts:75 | the new row's icon is never `""` |
| ItemRows.NewMembership | app/stores/passwords/items.ts:99 | exactly one membership `{itemId: newId, groupId: group?.id ?? null}` |
| ItemRows.NewKeyValues | app/stores/passwords/items.ts:84-91 | one row per input with the i-th drawn id, `itemId` the new id, key and value copied |
| ItemRows.UpdatedKeyValues | app/stores/passwords/items.ts:258-265 | exactly the key/values with an id, each under this item |
| ItemRows.MissingIds | app/stores/passwords/items.ts:267-274 | at most one draw per added key/value |
| ItemRows.AddedKeyValues | app/stores/passwords/items.ts:267-274 | one row per added key/value |
| ItemRows.AddedKeyValuesRows | app/stores/passwords/items.ts:267-274 | each row keeps its key, value and a given id, draws an id in order otherwise, and points at this item |
| ItemRows.UpdateDetails | app/stores/passwords/items.ts:247-256 | the rows with the item's id take the new details (keeping the OTP secret); others are kept |
| ItemRows.SetKeyValue | app/stores/passwords/items.ts:295-302 | an update by id touches only the row with that id |
| ItemRows.SetKeyValues | app/stores/passwords/items.ts:295-302 | the key/value updates keep the number of rows |
| ItemRows.SetKeyValuesResult | app/stores/passwords/items.ts:295-302 | the updates keep every id, leave rows no update names, and give a named row its update |
| ItemRows.JoinOne | app/stores/passwords/items.ts:36-46 | exactly the pairs of the details row with its memberships |
| ItemRows.InnerJoin | app/stores/passwords/items.ts:36-46 | `syncItemsAsync`: exactly the (details, membership) pairs whose membership points at the details |
| ItemRows.Filed | app/stores/passwords/items.ts:156-191 | the details of the joined rows whose membership the group query selects |
| ItemRows.ReadByGroupId | app/stores/passwords/items.ts:156-191 | with a vault, exactly the details having a membership filed under the group (or under none for an empty argument); nothing without one |
| ItemRows.PickMembership | app/stores/passwords/items.ts:170-182 | a membership that files the details row under the group |
| ItemRows.FiledInOne | app/stores/passwords/items.ts:170-182 | being filed under the one group `p` is matching `p` |
| ItemRows.Purge | app/stores/passwords/items.ts:323-337 | the final delete removes the item's key/values, history, memberships and details, and nothing else |
| ItemRows.PurgeTwice | app/stores/passwords/items.ts:323-337 | purging twice is purging the union |
| ItemRows.PurgeNothing | app/stores/passwords/items.ts:323-337 | purging no id changes nothing |
| ItemRows.DoomedAfterPurge | app/stores/passwords/groups.ts:327-331 | after purging some items, the items filed under the groups are the former ones minus those |
| ItemRows.DoomedUnion | app/stores/passwords/groups.ts:327-331 | the items filed under a set of groups are the union over the groups |
| ItemRows.Doomed | app/stores/passwords/items.ts:156-186 | the items filed under the groups are all existing item ids |
| ItemRows.ReadByGroupIdDoomed | app/stores/passwords/groups.ts:327-331 | the ids `readByGroupIdAsync` returns are exactly the items filed under the group |
| ItemRows.PurgeStep | app/stores/passwords/groups.ts:327-331 | purging the items of more groups after earlier ones equals purging the union once |
| ItemRows.DoomedNothing | app/stores/passwords/groups.ts:327-331 | no group dooms no item, and purging nothing changes nothing |
| ItemRows.PurgeLeavesNothing | app/stores/passwords/items.ts:323-337 | after the purge no details or key/value row of the purged items remains |
| ItemRows.DetailsIdsSnoc | app/stores/passwords/groups.ts:327-331 | the loop over items sees one more id per step |
| ItemRows.PurgeKeepsValid | app/stores/passwords/items.ts:323-337 | purging keeps the tables' keys unique |
| ItemRows.InsertUnique | app/stores/passwords/items.ts:93-103 | an insertable batch keeps key/value ids unique |
| ItemRows.AddRows | app/stores/passwords/items.ts:93-103 | a committed add had a new item id, now holds the item and its membership, and leaves the history alone |
| ItemRows.AddRowsEffect | app/stores/passwords/items.ts:93-103 | the add succeeds iff the keys are new; then exactly the details, membership and key/value rows are appended, keeping every key |
| ItemRows.NewKeyValue | app/stores/passwords/items.ts:115-120 | the drawn id; the row's own truthy `itemId`, else the argument; key and value copied |
| ItemRows.NewKeyValueRows | app/stores/passwords/items.ts:138-145 | one row per input, the i-th with the i-th drawn id |
| ItemRows.InsertKeyValues | app/stores/passwords/items.ts:147-153 | a non-empty insertable batch is appended; otherwise nothing changes |
| ItemRows.InsertKeyValuesValid | app/stores/passwords/items.ts:147-153 | the insert keeps key/value ids unique |
| ItemRows.SetKeyValuesIds | app/stores/passwords/items.ts:295-302 | updating key/values keeps their ids |
| ItemRows.UpdateTables | app/stores/passwords/items.ts:284-315 | a committed update keeps the history and the number of item rows, and leaves no key/value with a deleted id |
| ItemRows.UpdateTablesFails | app/stores/passwords/items.ts:284-315 | the update fails iff the regroup meets two memberships or the insert meets a taken id |
| ItemRows.UpdateTablesEffect | app/stores/passwords/items.ts:284-315 | details replaced, memberships moved to the group, a key/value named by the update holds its new contents, added rows present, deleted ids gone, untouched rows kept, and no key/value row other than an old, updated or added one |
| ItemRows.UpdateTablesValid | app/stores/passwords/items.ts:284-315 | a successful update keeps every key unique |
| ItemRows.FindDetails | app/stores/passwords/items.ts:199-202 | a details row with the id, present iff one exists |
| ItemRows.ReadAsync | app/stores/passwords/items.ts:193-217 | nothing for an empty id, no vault or no such item; otherwise that item's details row |
| ItemRows.ReadAsyncAsBuilt | app/stores/passwords/items.ts:193-217 | with the hub store as shown, reading an existing item throws "Database not initialized" |
| ItemRows.ReadAsyncHistory | app/stores/passwords/items.ts:193-217 | with a `db` handle, the read carries exactly the item's history |
| PasswordStores.Stores.RandomUuid | app/stores/passwords/groups.ts:116 | `crypto.randomUUID()`: the next id of the oracle; the caches are untouched |
| PasswordStores.Stores.SyncItems | app/stores/passwords/items.ts:36-46 | the cached items become the inner join of details and memberships |
| PasswordStores.Stores.SyncGroupItems | app/stores/passwords/groups.ts:54-58 | the cached groups become all groups ordered by `order`, nulls last; nothing without a vault |
| PasswordStores.Stores.AddGroup | app/stores/passwords/groups.ts:111-126 | inserts and returns `NewGroup`, drawing an id only when none is given; throws on a duplicate id |
| PasswordStores.Stores.UpdateGroup | app/stores/passwords/groups.ts:232-251 | no-op for an empty id; otherwise only the row with that id takes the patch |
| PasswordStores.Stores.CreateTrashIfNotExists | app/stores/passwords/groups.ts:301-312 | inserts the trash row only when absent; afterwards exactly one trash row exists |
| PasswordStores.Stores.GetChildGroupsRecursive | app/stores/passwords/groups.ts:176-186 | as written the accumulator receives only what recursive calls return, so the result is always `[]` |
| PasswordStores.Stores.GetDescendantGroups | app/stores/passwords/groups.ts:176-186 | the group together with the result is exactly the group's subtree; every result row is a table row |
| PasswordStores.Stores.MoveEntry | app/stores/passwords/groups.ts:277-296 | one pass of the move loop equals `GroupMoves.Step`; item tables other than memberships are untouched |
| PasswordStores.Stores.InsertGroupItems | app/stores/passwords/groups.ts:267-299 | the whole batch equals `GroupMoves.Run`: resync only on a normal end, a throw reported |
| PasswordStores.Stores.DeleteGroup | app/stores/passwords/groups.ts:314-340 | final (or the trash): the subtree's groups and their filed items go; otherwise the row moves under "trash" |
| PasswordStores.Stores.DeleteSubtrees | app/stores/passwords/groups.ts:321-325 | the children's loop removes exactly their subtrees and the items filed there |
| PasswordStores.Stores.DeleteFiledItems | app/stores/passwords/groups.ts:327-331 | the items loop purges exactly the items filed under the group |
| PasswordStores.Stores.AddItem | app/stores/passwords/items.ts:65-109 | returns the drawn id; the rows are added all-or-nothing; no write without a vault |
| PasswordStores.Stores.AddKeyValue | app/stores/passwords/items.ts:111-129 | one row with a drawn id is inserted; other tables untouched |
| PasswordStores.Stores.AddKeyValues | app/stores/passwords/items.ts:131-154 | one drawn id per row, one all-or-nothing insert |
| PasswordStores.Stores.UpdateItem | app/stores/passwords/items.ts:230-316 | nothing for an empty id; otherwise the update transaction's result, or a throw with nothing changed |
| PasswordStores.Stores.DeleteItem | app/stores/passwords/items.ts:318-345 | final: purge from four tables; soft: trash ensured and memberships moved into it, details and key/values kept, both caches kept when the trash existed and otherwise re-read before the move |
| PasswordStores.Stores.DeleteKeyValue | app/stores/passwords/items.ts:347-353 | exactly the key/value row with that id goes |
| Storage.SetKey | app/plugins/storage.ts:36-39 | `Map.set` key order: a new key goes last, a present key keeps its place |
| Storage.RemoveKey | app/plugins/storage.ts:40-43 | `Map.delete` key order: the key goes, the others keep their order |
| Storage.RemoveAbsent | app/plugins/storage.ts:40-43 | removing an absent key changes nothing |
| Storage.DistinctCount | app/plugins/storage.ts:48-50 | distinct keys are as many as the set of keys |
| Storage.LoadedKeys | app/plugins/storage.ts:24-30 | the initial load keeps exactly the host keys whose stored value is non-null |
| Storage.LocalStorage.Load | app/plugins/storage.ts:21-30 | the cache holds exactly the non-null host values |
| Storage.LocalStorage.GetItem | app/plugins/storage.ts:35 | the cached value, or null iff the key is absent |
| Storage.LocalStorage.Length | app/plugins/storage.ts:48-50 | the number of distinct cached keys |
| Storage.LocalStorage.Key | app/plugins/storage.ts:51-53 | the i-th key in insertion order for an integral index in range; null for any other index, a fractional one included |
| Storage.LocalStorage.SetItem | app/plugins/storage.ts:36-39 | the key then reads as the value, others unchanged; `length` grows only for a new key |
| Storage.LocalStorage.RemoveItem | app/plugins/storage.ts:40-43 | the key then reads as null, others unchanged |
| Storage.LocalStorage.Clear | app/plugins/storage.ts:44-47 | `length` is 0 and every key reads as null |
| Cleanup.CharCodes | app/utils/cleanup.ts:72-76 | one byte per character, the char code modulo 256, same length |
| Cleanup.Decoded | app/utils/cleanup.ts:70-79 | bytes pass through; a string decodes to as many bytes as `atob` gives characters; a throw iff `atob` fails |
| Cleanup.HexOf | app/utils/cleanup.ts:83-84 | two digits per byte |
| Cleanup.HexOfShape | app/utils/cleanup.ts:83-84 | the rendering has length twice the byte count, all lowercase hex digits |
| Cleanup.PairValueOf | app/utils/cleanup.ts:84 | two hex digits read back as a pair denote the number the two-digit string denotes |
| Cleanup.ParseHex | app/utils/cleanup.ts:83-84 | the inverse reading: half as many bytes as digits |
| Cleanup.ParseHexOf | app/utils/cleanup.ts:83-84 | reading the rendering back gives the digest bytes |
| Cleanup.HexOfInjective | app/utils/cleanup.ts:83-84 | different byte strings render differently |
| Cleanup.HashHex | app/utils/cleanup.ts:65-87 | rejects exactly when the base64 decode (`atob`) fails, and resolves otherwise (the digest's hex shape is HashShape) |
| Cleanup.HashShape | app/utils/cleanup.ts:82-86 | a 32-byte digest renders as 64 lowercase hex digits that read back as the digest |
| Cleanup.CalculateBinaryHash | app/utils/cleanup.ts:65-87 | the index loop fills the byte array with the char codes; the result is the hex of their digest |
| Cleanup.ReferencedHashes | app/utils/cleanup.ts:26-41 | every hash an item attachment or a snapshot attachment names is referenced |
| Cleanup.KeepReferenced | app/utils/cleanup.ts:51-54 | the kept binaries are exactly those whose hash is referenced |
| Cleanup.KeepReferencedUnique | app/utils/cleanup.ts:51-54 | the cleanup keeps hashes unique |
| Cleanup.DeleteAllIsCleanup | app/utils/cleanup.ts:44-48 | with no reference at all, every binary goes |
| Cleanup.KeepReferencedIdempotent | app/utils/cleanup.ts:22-57 | a second cleanup removes nothing |
| Cleanup.AddedBinary | app/utils/cleanup.ts:105-118 | inserts the row only when no row has the hash; afterwards one row has it |
| Cleanup.AddedBinaryTwice | app/utils/cleanup.ts:102-120 | a second add of the same hash leaves the table unchanged |
| Cleanup.CleanupOrphanedBinaries | app/utils/cleanup.ts:22-57 | no orphan remains, no referenced binary goes, the count is the rows removed, the binding tables are untouched |
| Cleanup.AddBinary | app/utils/cleanup.ts:97-121 | returns the computed hash and inserts the row only when the hash is new; on a decode failure nothing changes |
| KeePassIcons.GetIconForKeePassIndex | app/utils/keepassIconMapping.ts:219-222 | null for a null index; otherwise null or the non-empty table entry of an integral index |
| KeePassIcons.KeePassIconMap | app/utils/keepassIconMapping.ts:7-214 | only the indices 0..68 have an entry |
| KeePassIcons.TableCoversStandardIcons | app/utils/keepassIconMapping.ts:7-214 | the table has an entry exactly for 0..68, each non-empty |
| KeePassIcons.LookupDefined | app/utils/keepassIconMapping.ts:221 | an integral index in 0..68 gives its entry; any other integral index gives null |
| KeePassIcons.NonIntegralIndex | app/utils/keepassIconMapping.ts:221 | an index with a fractional part (0.5, 35.5) gives null |
| KeePassIcons.SampleIcons | app/utils/keepassIconMapping.ts:7-214 | 0 gives 'mdi:key', 35 gives 'mdi:trash-can-outline', 69 and -1 give null |
| KeePassIcons.NotInjective | app/utils/keepassIconMapping.ts:55-123 | 15 and 16 share 'mdi:console'; 35 and 38 share 'mdi:trash-can-outline' |

## Left out

- Timestamps (`createdAt`, `updateAt`, `$onUpdate`) are left out: they come from the clock.
- `readableFileSize` and the luminance threshold of `getContrastingTextColor` are left out: they compute with floating point. Only the colour normalisation and its "black" fallback are modelled.
- `Promise.all` in the item `updateAsync`, in `filterAsync` and in the initial load of `storage.ts` runs its statements concurrently; the model runs them one after the other. For the load, this fixes the cache's key order to the host's key order, while the source inserts the keys in the order their reads settle, so `key(i)` right after the load is not determined by the source.
- The order in which SQLite returns joined rows, and ties in `orderBy`, are not fixed by the source. The model fixes one order: table order, with ties kept stable.
- The declared foreign-key cascades are stated as schema facts only. Whether SQLite enforces them is not modelled: the stores delete rows explicitly.
- Snapshot and attachment rows are never written by the modelled operations, so the stores do not hold them. The cleanup keeps its own view of binaries and the two binding tables.
- The `where` of `readKeyValuesAsync`, which filters key/values on a membership column, is an oracle parameter of `ItemRows.ReadAsync`.
- The history table is not among the tables `createTablesAsync` creates; the model builds what the source builds.
- The writes `storage.ts` forwards to the host in the background, and its host reads, are outside the model. The host reads are a function parameter of the load.
- UI and routing are left out, as are the SDK and host plumbing and the search debounce. This covers navigation, `getParentChain`, `breadCrumbs`, `inTrashGroup`, `isRouteActive`, `blobToImageAsync`, `getSingleRouteParam`, `isKey`, `filterAsync` and the photo viewer.
- Logging (`console.*`) is left out.
- SHA-256, `atob` and `crypto.randomUUID` are oracles: function parameters, and a draw counter for ids. A drawn id is not assumed fresh: a colliding id breaks a key and is modelled as that failure.
- `readGroupItemsAsync` is not part of this model.
- JavaScript object identity is not modelled: `===` between two objects is false in the model. The reflexivity lemmas show that the comparators' results do not depend on it.
- Cleanup.HashShape: assumes the digest returns 32 bytes, as SHA-256 does.
- KeePassIcons.GetIconForKeePassIndex: the index is a real number, so NaN and the infinities are not modelled; they have no table entry in the source either.
- Storage.LocalStorage.Key: the index is a real number, so NaN and the infinities are not modelled; the source reads no array element for them and returns null.
- PasswordStores.Stores.DeleteItem: the soft delete regroups whenever the vault is open. `createTrashIfNotExistsAsync` returns `true` or the new group object that `addGroupAsync` returns, and both are truthy.
- PasswordStores.Stores.GetChildGroupsRecursive: it requires that the groups reachable from `groupId` be rankable, which excludes exactly the tables on which the source does not end. That happens when `groupId` lies on a cycle of parent links; the source then recurses forever and returns nothing, and that run is not modelled. A cycle that does not contain `groupId` is never reached and is admitted (GroupTree.CycleElsewhere).
- PasswordStores.Stores.DeleteGroup: the final form (and any delete of the trash group) requires that the groups reachable from `groupId` be rankable, as for GetChildGroupsRecursive. This excludes only the case where `groupId` lies on a cycle of parent links, which the source can itself create through a move into the group's own subtree or an `updateAsync` with such a `parentId` (see Findings). In that case the source never finishes. Before it starts to loop, it has already deleted the subtrees (with their filed items) of the children visited before the cyclic child, at every group along the cycle. That partial, non-terminating run is not modelled. DeleteSubtrees carries the same precondition.
- Helper.ObjectsEqualReflexive: numbers are integers, so NaN is not modelled. For NaN the source returns false, because `NaN === NaN` fails and NaN is neither null, "" nor an object.
- GroupComposables.DeepEqualReflexive: numbers are integers, so NaN is not modelled. For NaN `deepEqual` returns false at its `===` test.
- Helper.HexPieces: a string is a sequence of Unicode scalar values. The source's `split("")`, `charCodeAt` and `/.{1,2}/g` work on UTF-16 code units, so a character above U+FFFF becomes two code units (U+1F600 gives "d83dde00" in the source, "1f600" in the model), and the regex pieces may split surrogate halves differently. The round trip is stated for codes below 256, where the two views agree.

## Findings

| source | as written | input that shows it | evidently intended | confidence | as-written member | corrected member |
|---|---|---|---|---|---|---|
| app/stores/passwords/groups.ts:176-186 | the accumulator receives only what the recursive calls return and never a child, so the result is always `[]` | a root `r` with one child `c`: the result is `[]` while `c` lies below `r` | every group below `groupId`: each child, then what lies below it | high, not executed | PasswordStores.Stores.GetChildGroupsRecursive, GroupTree.SubtreeOfRootWithChild | PasswordStores.Stores.GetDescendantGroups |
| app/components/pass/group/composables.ts:9-15 | arrays of equal length are equal whatever they hold, and otherwise each element of the first array is compared with itself | `[1]` vs `[2]` is true, `[1]` vs `[]` is true | equal lengths and element-wise `areObjectsEqual` of the two arrays | high, not executed | GroupComposables.ItemsEqualOnArrays | GroupComposables.ItemsEqualElementwise, GroupComposables.ElementwiseSeparates |
| app/stores/passwords/groups.ts:342-357 | `areGroupsEqual` has the same array branch as `areItemsEqual` | `[1]` vs `[2]` is true | as for `areItemsEqual` | high, not executed | GroupTree.GroupsEqualOnArrays | GroupComposables.ItemsEqualElementwise, GroupComposables.ElementwiseSeparates |
| app/stores/passwords/groups.ts:277-325 | a group entry is moved under the target without checking that the target lies outside the group's own subtree; the final `deleteGroupAsync` then follows the resulting cycle through `getByParentIdAsync` without end (lines 320-325) | moving a group `g` onto `g`: the batch writes `g` as its own parent | refuse a target inside the moved group's subtree, which keeps the parent links acyclic and the delete terminating | high, not executed | GroupMoves.SelfMoveMakesCycle | GroupTree.MoveOutsideSubtreeRanked |
| app/stores/passwords/groups.ts:139-152 | with a `parentId` filter, the query matches the groups' `id` column against it | groups `p` and `c` with `c.parentId == p`: the filter `p` returns `p` and not `c` | the groups whose `parentId` is the filter, as `getByParentIdAsync` reads them | medium, not executed | GroupTree.ReadGroupsByFilter | GroupTree.GetByParentId |
