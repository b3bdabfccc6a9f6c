/** The tables of app/database/schemas/index.ts: the prefixed table names, one row type per
    table (timestamps left out), and the declared shape of every table: its columns with their
    SQL type, primary-key and not-null flags and defaults, its composite key, and its foreign
    keys with their `ON DELETE CASCADE`. */
module Schema {
  import opened Wrappers

  /** Row ids (`crypto.randomUUID()` values, or the fixed id `"trash"`). */
  type Id = string

  // ---------------------------------------------------------------------------
  // Table names
  // ---------------------------------------------------------------------------

  /** The two fields of the extension manifest that the table names use. */
  datatype Manifest = Manifest(publicKey: string, name: string)

  function TablePrefix(m: Manifest): string {
    m.publicKey + "__" + m.name + "__"
  }

  /** `getTableName(name)`: the public key, the extension name and the table name joined
      by `"__"`; the table name is what follows the manifest's prefix. */
  function GetTableName(m: Manifest, name: string): (r: string)
    ensures |r| == |TablePrefix(m)| + |name|
    ensures r[..|TablePrefix(m)|] == TablePrefix(m) && r[|TablePrefix(m)|..] == name
    ensures r[..|m.publicKey|] == m.publicKey
  {
    m.publicKey + "__" + m.name + "__" + name
  }

  /** Under one manifest, different table names stay different. */
  lemma TableNamesDistinct(m: Manifest, a: string, b: string)
    requires GetTableName(m, a) == GetTableName(m, b)
    ensures a == b
  {
    var p := |TablePrefix(m)|;
    assert a == GetTableName(m, a)[p..];
  }

  // ---------------------------------------------------------------------------
  // Rows (the created_at / updated_at timestamps are not modelled)
  // ---------------------------------------------------------------------------

  datatype ItemRow = ItemRow(
    id: Id, title: Option<string>, username: Option<string>, password: Option<string>,
    note: Option<string>, icon: Option<string>, tags: Option<string>, url: Option<string>,
    otpSecret: Option<string>)

  datatype KeyValueRow = KeyValueRow(id: Id, itemId: Option<Id>, key: Option<string>, value: Option<string>)

  datatype HistoryRow = HistoryRow(
    id: Id, itemId: Option<Id>, changedProperty: Option<string>,
    oldValue: Option<string>, newValue: Option<string>)

  datatype GroupRow = GroupRow(
    id: Id, name: Option<string>, description: Option<string>, icon: Option<string>,
    order: Option<int>, color: Option<string>, parentId: Option<Id>)

  /** A membership row; both columns may be null. */
  datatype GroupItemRow = GroupItemRow(itemId: Option<Id>, groupId: Option<Id>)

  /** A binary, keyed by its content hash; `data` and `size` are mandatory. */
  datatype BinaryRow = BinaryRow(hash: string, data: string, size: int)

  datatype ItemBinaryRow = ItemBinaryRow(id: Id, itemId: Id, binaryHash: string, fileName: string)

  datatype SnapshotRow = SnapshotRow(id: Id, itemId: Id, snapshotData: string, modifiedAt: Option<string>)

  datatype SnapshotBinaryRow = SnapshotBinaryRow(id: Id, snapshotId: Id, binaryHash: string, fileName: string)

  // ---------------------------------------------------------------------------
  // Declared table shapes
  // ---------------------------------------------------------------------------

  datatype TableId =
    | ItemDetails | ItemKeyValues | ItemHistory | Groups | GroupItems
    | Binaries | ItemBinaries | ItemSnapshots | SnapshotBinaries

  datatype SqlType = Text | Integer

  /** A column as the table configuration reports it. `default` holds the rendered default
      expression; `primaryKey()` also makes a column not-null. */
  datatype Column = Column(name: string, sqlType: SqlType, primary: bool, notNull: bool, default: Option<string>)

  /** A `references(...)` clause: this column points at `targetColumn` of `target`. */
  datatype ForeignKey = ForeignKey(column: string, target: TableId, targetColumn: string, onDeleteCascade: bool)

  /** What the table configuration reports of a table: its base name, its columns in
      declaration order and its composite key (empty when there is none). */
  datatype TableShape = TableShape(baseName: string, columns: seq<Column>, compositeKey: seq<string>)

  const CurrentTimestamp := "(CURRENT_TIMESTAMP)"

  function IdColumn(): Column { Column("id", Text, true, true, None) }
  function TextColumn(name: string): Column { Column(name, Text, false, false, None) }
  function MandatoryText(name: string): Column { Column(name, Text, false, true, None) }
  function CreatedAt(): Column { Column("created_at", Text, false, false, Some(CurrentTimestamp)) }
  function UpdatedAt(): Column { Column("updated_at", Integer, false, false, None) }
  function Cascade(column: string, target: TableId, targetColumn: string): ForeignKey {
    ForeignKey(column, target, targetColumn, true)
  }

  function Shape(t: TableId): TableShape {
    match t
    case ItemDetails =>
      TableShape("haex_passwords_item_details",
        [IdColumn(), TextColumn("title"), TextColumn("username"), TextColumn("password"),
         TextColumn("note"), TextColumn("icon"), TextColumn("tags"), TextColumn("url"),
         TextColumn("otp_secret"), CreatedAt(), UpdatedAt()], [])
    case ItemKeyValues =>
      TableShape("haex_passwords_item_key_values",
        [IdColumn(), TextColumn("item_id"), TextColumn("key"), TextColumn("value"), UpdatedAt()], [])
    case ItemHistory =>
      TableShape("haex_passwords_item_history",
        [IdColumn(), TextColumn("item_id"), TextColumn("changed_property"),
         TextColumn("old_value"), TextColumn("new_value"), CreatedAt()], [])
    case Groups =>
      TableShape("haex_passwords_groups",
        [IdColumn(), TextColumn("name"), TextColumn("description"), TextColumn("icon"),
         Column("order", Integer, false, false, None), TextColumn("color"),
         TextColumn("parent_id"), CreatedAt(), UpdatedAt()], [])
    case GroupItems =>
      TableShape("haex_passwords_group_items",
        [TextColumn("group_id"), TextColumn("item_id")],
        ["item_id", "group_id"])
    case Binaries =>
      TableShape("haex_passwords_binaries",
        [Column("hash", Text, true, true, None), MandatoryText("data"),
         Column("size", Integer, false, true, None), CreatedAt()], [])
    case ItemBinaries =>
      TableShape("haex_passwords_item_binaries",
        [IdColumn(), MandatoryText("item_id"), MandatoryText("binary_hash"), MandatoryText("file_name")], [])
    case ItemSnapshots =>
      TableShape("haex_passwords_item_snapshots",
        [IdColumn(), MandatoryText("item_id"), MandatoryText("snapshot_data"), CreatedAt(),
         TextColumn("modified_at")], [])
    case SnapshotBinaries =>
      TableShape("haex_passwords_snapshot_binaries",
        [IdColumn(), MandatoryText("snapshot_id"), MandatoryText("binary_hash"), MandatoryText("file_name")], [])
  }

  /** The declared `references(...)` clauses of each table, every one with `onDelete: "cascade"`. */
  function ForeignKeysOf(t: TableId): seq<ForeignKey> {
    match t
    case ItemKeyValues => [Cascade("item_id", ItemDetails, "id")]
    case ItemHistory => [Cascade("item_id", ItemDetails, "id")]
    case Groups => [Cascade("parent_id", Groups, "id")]
    case GroupItems => [Cascade("group_id", Groups, "id"), Cascade("item_id", ItemDetails, "id")]
    case ItemBinaries => [Cascade("item_id", ItemDetails, "id"), Cascade("binary_hash", Binaries, "hash")]
    case ItemSnapshots => [Cascade("item_id", ItemDetails, "id")]
    case SnapshotBinaries => [Cascade("snapshot_id", ItemSnapshots, "id"), Cascade("binary_hash", Binaries, "hash")]
    case _ => []
  }

  const AllTables: seq<TableId> :=
    [ItemDetails, ItemKeyValues, ItemHistory, Groups, GroupItems, Binaries, ItemBinaries,
     ItemSnapshots, SnapshotBinaries]

  /** The columns that make up a table's key: its primary column, or else its composite key. */
  function KeyColumns(s: TableShape): seq<string> {
    if PrimaryNames(s.columns) != [] then PrimaryNames(s.columns) else s.compositeKey
  }

  function PrimaryNames(cs: seq<Column>): seq<string> {
    if cs == [] then []
    else (if cs[0].primary then [cs[0].name] else []) + PrimaryNames(cs[1..])
  }

  function MandatoryNames(cs: seq<Column>): seq<string> {
    if cs == [] then []
    else (if cs[0].notNull then [cs[0].name] else []) + MandatoryNames(cs[1..])
  }

  /** The columns among `fks` (declared on table `t`) that cascade from `target`. */
  function CascadingColumns(t: TableId, fks: seq<ForeignKey>, target: TableId): seq<(TableId, string)> {
    if fks == [] then []
    else
      (if fks[0].target == target && fks[0].onDeleteCascade then [(t, fks[0].column)] else [])
      + CascadingColumns(t, fks[1..], target)
  }

  /** The `(table, column)` pairs whose rows are declared to be deleted with a row of `target`. */
  function CascadeSources(target: TableId): seq<(TableId, string)> {
    CascadesOf(ItemDetails, target) + CascadesOf(ItemKeyValues, target) + CascadesOf(ItemHistory, target)
    + CascadesOf(Groups, target) + CascadesOf(GroupItems, target) + CascadesOf(Binaries, target)
    + CascadesOf(ItemBinaries, target) + CascadesOf(ItemSnapshots, target)
    + CascadesOf(SnapshotBinaries, target)
  }

  function CascadesOf(t: TableId, target: TableId): seq<(TableId, string)> {
    CascadingColumns(t, ForeignKeysOf(t), target)
  }

  /** The binaries are keyed by their hash alone. */
  lemma BinariesKey()
    ensures KeyColumns(Shape(Binaries)) == ["hash"]
  {
  }

  /** The memberships have no primary column; they are keyed by the pair `(item_id, group_id)`. */
  lemma GroupItemsKey()
    ensures PrimaryNames(Shape(GroupItems).columns) == []
    ensures KeyColumns(Shape(GroupItems)) == ["item_id", "group_id"]
  {
  }

  /** Deleting item details is declared to reach key/values, history, memberships, item
      binaries and snapshots, and nothing else. */
  lemma ItemDetailsCascades()
    ensures CascadeSources(ItemDetails) ==
      [(ItemKeyValues, "item_id"), (ItemHistory, "item_id"), (GroupItems, "item_id"),
       (ItemBinaries, "item_id"), (ItemSnapshots, "item_id")]
  {
  }

  /** Deleting a group is declared to reach its child groups and its memberships. */
  lemma GroupCascades()
    ensures CascadeSources(Groups) == [(Groups, "parent_id"), (GroupItems, "group_id")]
  {
  }

  /** Deleting a snapshot is declared to reach its snapshot binaries. */
  lemma SnapshotCascades()
    ensures CascadeSources(ItemSnapshots) == [(SnapshotBinaries, "snapshot_id")]
  {
  }

  /** Deleting a binary is declared to reach both binding tables. */
  lemma BinaryCascades()
    ensures CascadeSources(Binaries) == [(ItemBinaries, "binary_hash"), (SnapshotBinaries, "binary_hash")]
  {
  }

  /** One step of `MandatoryNames` from position `k` of `cs`. */
  lemma MandatoryNamesStep(cs: seq<Column>, k: nat)
    requires k < |cs|
    ensures MandatoryNames(cs[k..])
      == (if cs[k].notNull then [cs[k].name] else []) + MandatoryNames(cs[k + 1..])
  {
    assert cs[k..][1..] == cs[k + 1..];
  }

  /** Binary data and size are mandatory. */
  lemma BinariesMandatory()
    ensures MandatoryNames(Shape(Binaries).columns) == ["hash", "data", "size"]
  {
    var cs := Shape(Binaries).columns;
    MandatoryNamesStep(cs, 3);
    MandatoryNamesStep(cs, 2);
    MandatoryNamesStep(cs, 1);
    MandatoryNamesStep(cs, 0);
    assert cs[4..] == [] && cs[0..] == cs;
  }

  /** An item binary needs its item, its hash and its file name. */
  lemma ItemBinariesMandatory()
    ensures MandatoryNames(Shape(ItemBinaries).columns) == ["id", "item_id", "binary_hash", "file_name"]
  {
    var cs := Shape(ItemBinaries).columns;
    MandatoryNamesStep(cs, 3);
    MandatoryNamesStep(cs, 2);
    MandatoryNamesStep(cs, 1);
    MandatoryNamesStep(cs, 0);
    assert cs[4..] == [] && cs[0..] == cs;
  }

  /** A snapshot needs its item and its data. */
  lemma SnapshotsMandatory()
    ensures MandatoryNames(Shape(ItemSnapshots).columns) == ["id", "item_id", "snapshot_data"]
  {
    var cs := Shape(ItemSnapshots).columns;
    MandatoryNamesStep(cs, 4);
    MandatoryNamesStep(cs, 3);
    MandatoryNamesStep(cs, 2);
    MandatoryNamesStep(cs, 1);
    MandatoryNamesStep(cs, 0);
    assert cs[5..] == [] && cs[0..] == cs;
  }

  /** A snapshot binary needs its snapshot, its hash and its file name. */
  lemma SnapshotBinariesMandatory()
    ensures MandatoryNames(Shape(SnapshotBinaries).columns) == ["id", "snapshot_id", "binary_hash", "file_name"]
  {
    var cs := Shape(SnapshotBinaries).columns;
    MandatoryNamesStep(cs, 3);
    MandatoryNamesStep(cs, 2);
    MandatoryNamesStep(cs, 1);
    MandatoryNamesStep(cs, 0);
    assert cs[4..] == [] && cs[0..] == cs;
  }
}
