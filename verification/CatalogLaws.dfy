/** Every catalog reachable from the empty one keeps the catalog invariant. */
module CatalogLaws {
  import opened Common
  import opened Catalogs

  // ---- looking up columns --------------------------------------------------

  lemma ColumnAtPosition(t: Table, i: nat)
    requires ValidTable(t) && i < |t.columns|
    ensures Position(t.columns, t.columns[i].id) == Some(i)
    ensures ColumnAt(t, t.columns[i].id) == Some(t.columns[i])
  {
  }

  /** Two tables that hold the same column under an id look it up alike. */
  lemma SameLookup(t: Table, u: Table, id: ColumnId)
    requires ValidTable(t) && ValidTable(u)
    requires forall c: Column :: c.id == id ==> (c in t.columns <==> c in u.columns)
    ensures ColumnAt(t, id) == ColumnAt(u, id)
  {
    match ColumnAt(t, id)
    case Some(c) =>
      var i :| 0 <= i < |u.columns| && u.columns[i] == c;
      ColumnAtPosition(u, i);
    case None =>
      assert forall c :: c in t.columns ==> c.id != id;
  }

  // ---- replacing one table -------------------------------------------------

  predicate KeepsConstrained(c: Catalog, t: Table) {
    && t.id in c.tables
    && ValidTable(t)
    && (forall u :: u in c.tables && u != t.id ==> c.tables[u].name != t.name)
    && (forall id :: Constrained(c, t.id, id) ==> ColumnAt(t, id) == ColumnAt(c.tables[t.id], id))
  }

  lemma ReplacedPrimaryKey(c: Catalog, t: Table)
    requires Valid(c) && KeepsConstrained(c, t) && t.id in c.primaryKeys
    ensures ValidPrimaryKey(t, c.primaryKeys[t.id])
  {
    var key := c.primaryKeys[t.id];
    forall i | 0 <= i < |key| ensures ColumnAt(t, key[i]) == ColumnAt(c.tables[t.id], key[i]) {
      assert Constrained(c, t.id, key[i]);
    }
  }

  lemma ReplacedIndex(c: Catalog, t: Table, i: IndexId)
    requires Valid(c) && KeepsConstrained(c, t) && i in c.indexes
    ensures ValidIndex(WithTable(c, t), c.indexes[i])
  {
    var index := c.indexes[i];
    if index.table == t.id {
      forall id | Mentions(index, id) ensures ColumnAt(t, id) == ColumnAt(c.tables[t.id], id) {
        assert Constrained(c, t.id, id);
      }
      if index.filter.Some? {
        forall j | 0 <= j < |index.filter.value| ensures ValidTerm(t, index.filter.value[j]) {
          assert Mentions(index, index.filter.value[j].0);
          assert ValidTerm(c.tables[t.id], index.filter.value[j]);
        }
      }
      forall id | id in KeyColumns(index.parts) ensures ColumnAt(t, id).Some? {
        assert Mentions(index, id);
      }
    }
  }

  lemma ReplacedForeignKey(c: Catalog, t: Table, k: ConstraintId)
    requires Valid(c) && KeepsConstrained(c, t) && k in c.foreignKeys
    ensures ValidForeignKey(WithTable(c, t), c.foreignKeys[k])
  {
    hide ValidNames, ValidTable, ValidIndex, ColumnAt;
    var key, d := c.foreignKeys[k], WithTable(c, t);
    assert Supporting(d, key) == Supporting(c, key);
    forall i | 0 <= i < |key.columns|
      ensures ValidPair(d.tables[key.table], d.tables[key.referencedTable], key, i)
    {
      assert ValidPair(c.tables[key.table], c.tables[key.referencedTable], key, i);
      assert key.table == t.id ==> Constrained(c, t.id, key.columns[i]) by {
        assert KeyMentions(key, key.table, key.columns[i]);
      }
      assert key.referencedTable == t.id ==> Constrained(c, t.id, key.referencedColumns[i]) by {
        assert KeyMentions(key, key.referencedTable, key.referencedColumns[i]);
      }
    }
  }

  /** Replacing a table definition that keeps every constrained column keeps the invariant. */
  lemma ReplaceTable(c: Catalog, t: Table)
    requires Valid(c) && KeepsConstrained(c, t)
    ensures Valid(WithTable(c, t))
  {
    hide ValidIndex, ValidForeignKey, ValidPrimaryKey, Constrained, ColumnAt, ValidTables, ValidNames, ValidTable, KeepsConstrained;
    var d := WithTable(c, t);
    ReplacedTables(c, t);
    ReplacedNames(c, t);
    forall i | i in d.indexes ensures ValidIndex(d, d.indexes[i]) {
      ReplacedIndex(c, t, i);
    }
    forall k | k in d.foreignKeys ensures ValidForeignKey(d, d.foreignKeys[k]) {
      ReplacedForeignKey(c, t, k);
    }
  }

  lemma ReplacedTables(c: Catalog, t: Table)
    requires Valid(c) && KeepsConstrained(c, t)
    ensures ValidTables(WithTable(c, t))
  {
    hide ValidIndex, ValidForeignKey, ValidPrimaryKey, Constrained, ColumnAt, ValidNames, ValidTable;
    if t.id in c.primaryKeys {
      ReplacedPrimaryKey(c, t);
    }
  }

  lemma ReplacedNames(c: Catalog, t: Table)
    requires Valid(c)
    ensures ValidNames(WithTable(c, t))
  {
    hide ValidIndex, ValidForeignKey, ValidTables;
  }

  lemma ConstrainedExists(c: Catalog, table: TableId, id: ColumnId)
    requires Valid(c) && table in c.tables && Constrained(c, table, id)
    ensures ColumnAt(c.tables[table], id).Some?
  {
    hide ValidNames, ValidTable, ColumnAt, Supporting, ForeignKeyIndex;
    if table in c.primaryKeys && id in c.primaryKeys[table] {
    } else if i :| i in c.indexes && c.indexes[i].table == table && Mentions(c.indexes[i], id) {
      var index := c.indexes[i];
      if id !in KeyColumns(index.parts) {
        var j :| 0 <= j < |index.filter.value| && index.filter.value[j].0 == id;
        assert ValidTerm(c.tables[table], index.filter.value[j]);
      }
    } else {
      var k :| k in c.foreignKeys && KeyMentions(c.foreignKeys[k], table, id);
      var key := c.foreignKeys[k];
      if key.table == table && id in key.columns {
        var j :| 0 <= j < |key.columns| && key.columns[j] == id;
        assert ValidPair(c.tables[key.table], c.tables[key.referencedTable], key, j);
      } else {
        var j :| 0 <= j < |key.referencedColumns| && key.referencedColumns[j] == id;
        assert ValidPair(c.tables[key.table], c.tables[key.referencedTable], key, j);
      }
    }
  }

  // ---- one mutation at a time ----------------------------------------------

  lemma IndexFrame(c: Catalog, d: Catalog, index: Index)
    requires ValidIndex(c, index)
    requires index.table in d.tables && d.tables[index.table] == c.tables[index.table]
    ensures ValidIndex(d, index)
  {
  }

  lemma ForeignKeyFrame(c: Catalog, d: Catalog, key: ForeignKey)
    requires ValidForeignKey(c, key)
    requires key.table in d.tables && d.tables[key.table] == c.tables[key.table]
    requires key.referencedTable in d.tables && d.tables[key.referencedTable] == c.tables[key.referencedTable]
    requires Supporting(d, key) != {}
    ensures ValidForeignKey(d, key)
  {
  }

  lemma CreateTableTables(c: Catalog, t: Table, key: Option<seq<ColumnId>>)
    requires Valid(c) && ApplyCreateTable(c, t, key).Ok?
    ensures ValidTables(ApplyCreateTable(c, t, key).value)
  {
    hide ValidIndex, ValidForeignKey, ValidTable, ValidPrimaryKey, ValidNames;
  }

  /** Definitions that were valid stay so as long as their tables keep their definition
      and foreign keys keep a supporting index. */
  lemma FrameIsValid(c: Catalog, d: Catalog)
    requires ValidTables(d) && ValidNames(d)
    requires forall i :: i in d.indexes ==>
               d.indexes[i].id == i && ValidIndex(c, d.indexes[i]) && SameTable(c, d, d.indexes[i].table)
    requires forall k :: k in d.foreignKeys ==>
               && d.foreignKeys[k].id == k && ValidForeignKey(c, d.foreignKeys[k])
               && SameTable(c, d, d.foreignKeys[k].table) && SameTable(c, d, d.foreignKeys[k].referencedTable)
               && Supporting(d, d.foreignKeys[k]) != {}
    ensures Valid(d)
  {
    hide ValidIndex, ValidForeignKey, ValidTables, ValidNames, Supporting;
    forall i | i in d.indexes ensures ValidIndex(d, d.indexes[i]) {
      IndexFrame(c, d, d.indexes[i]);
    }
    forall k | k in d.foreignKeys ensures ValidForeignKey(d, d.foreignKeys[k]) {
      ForeignKeyFrame(c, d, d.foreignKeys[k]);
    }
  }

  predicate SameTable(c: Catalog, d: Catalog, t: TableId) {
    t in c.tables && t in d.tables && c.tables[t] == d.tables[t]
  }

  lemma SameTables(c: Catalog, d: Catalog)
    requires c.tables == d.tables
    ensures forall t :: t in c.tables ==> SameTable(c, d, t)
  {
  }

  lemma AllValid(c: Catalog)
    requires Valid(c)
    ensures ValidTables(c) && ValidNames(c)
    ensures forall i :: i in c.indexes ==>
              c.indexes[i].id == i && ValidIndex(c, c.indexes[i]) && c.indexes[i].table in c.tables
    ensures forall k :: k in c.foreignKeys ==>
              && c.foreignKeys[k].id == k && ValidForeignKey(c, c.foreignKeys[k])
              && c.foreignKeys[k].table in c.tables && c.foreignKeys[k].referencedTable in c.tables
              && Supporting(c, c.foreignKeys[k]) != {}
  {
    hide ValidTables, ValidNames, Supporting, ColumnAt;
  }

  /** A catalog that only gained definitions valid in the old one is valid. */
  lemma GrownIsValid(c: Catalog, d: Catalog)
    requires Valid(c) && ValidTables(d) && ValidNames(d)
    requires forall t :: t in c.tables ==> SameTable(c, d, t)
    requires forall i :: i in c.indexes ==> i in d.indexes && d.indexes[i] == c.indexes[i]
    requires forall i :: i in d.indexes ==> d.indexes[i].id == i && ValidIndex(c, d.indexes[i])
    requires forall k :: k in d.foreignKeys ==> d.foreignKeys[k].id == k && ValidForeignKey(c, d.foreignKeys[k])
    ensures Valid(d)
  {
    hide ValidIndex, ValidForeignKey, ValidTables, ValidNames, Supports;
    forall i | i in d.indexes ensures SameTable(c, d, d.indexes[i].table) {
      TableOfIndex(c, d.indexes[i]);
    }
    forall k | k in d.foreignKeys
      ensures SameTable(c, d, d.foreignKeys[k].table) && SameTable(c, d, d.foreignKeys[k].referencedTable)
      ensures Supporting(d, d.foreignKeys[k]) != {}
    {
      TablesOfKey(c, d.foreignKeys[k]);
      assert Supporting(c, d.foreignKeys[k]) <= Supporting(d, d.foreignKeys[k]);
    }
    FrameIsValid(c, d);
  }

  lemma CreateTableShape(c: Catalog, t: Table, key: Option<seq<ColumnId>>)
    requires ApplyCreateTable(c, t, key).Ok?
    ensures var d := ApplyCreateTable(c, t, key).value;
            && d.tables == c.tables[t.id := t] && t.id !in c.tables
            && (forall u :: u != t.id ==> (u in d.primaryKeys <==> u in c.primaryKeys))
            && (forall u :: u in c.primaryKeys && u != t.id ==> d.primaryKeys[u] == c.primaryKeys[u])
            && d.indexes == c.indexes && d.indexNames == c.indexNames
            && d.foreignKeys == c.foreignKeys && d.foreignKeyNames == c.foreignKeyNames
  {
  }

  lemma CreateTableKeeps(c: Catalog, t: Table, key: Option<seq<ColumnId>>)
    requires Valid(c) && ApplyCreateTable(c, t, key).Ok?
    ensures Valid(ApplyCreateTable(c, t, key).value)
  {
    hide *;
    CreateTableTables(c, t, key);
    CreateTableShape(c, t, key);
    AllValid(c);
    forall u | u in c.tables ensures SameTable(c, ApplyCreateTable(c, t, key).value, u) {
      TableFrame(c, ApplyCreateTable(c, t, key).value, u);
    }
    NamesFrame(c, ApplyCreateTable(c, t, key).value);
    GrownIsValid(c, ApplyCreateTable(c, t, key).value);
  }

  lemma InTables(c: Catalog, i: IndexId)
    requires Valid(c) && i in c.indexes
    ensures c.indexes[i].table in c.tables
  {
  }

  lemma KeyInTables(c: Catalog, k: ConstraintId)
    requires Valid(c) && k in c.foreignKeys
    ensures c.foreignKeys[k].table in c.tables && c.foreignKeys[k].referencedTable in c.tables
    ensures Supporting(c, c.foreignKeys[k]) != {}
  {
  }

  lemma AddNullableColumnKeeps(c: Catalog, table: TableId, column: Column)
    requires Valid(c) && ApplyAddNullableColumn(c, table, column).Ok?
    ensures Valid(ApplyAddNullableColumn(c, table, column).value)
  {
    hide ValidIndex, ValidForeignKey, ValidNames, ValidPrimaryKey, Constrained, ColumnAt;
    var t := c.tables[table];
    var u := t.(columns := t.columns + [column]);
    forall id | Constrained(c, table, id) ensures ColumnAt(u, id) == ColumnAt(t, id) {
      ConstrainedExists(c, table, id);
      SameLookup(t, u, id);
    }
    ReplaceTable(c, u);
  }

  lemma EditedColumn(c: Catalog, table: TableId, id: ColumnId, p: nat, column: Column)
    requires Valid(c) && table in c.tables && !Constrained(c, table, id)
    requires p < |c.tables[table].columns| && c.tables[table].columns[p].id == id == column.id
    requires forall i :: 0 <= i < |c.tables[table].columns| && i != p ==> c.tables[table].columns[i].name != column.name
    ensures var t := c.tables[table];
            Valid(WithTable(c, t.(columns := t.columns[p := column])))
  {
    var t := c.tables[table];
    var u := t.(columns := t.columns[p := column]);
    forall other | Constrained(c, table, other) ensures ColumnAt(u, other) == ColumnAt(t, other) {
      forall x: Column | x.id == other ensures x in t.columns <==> x in u.columns {
        assert forall i :: 0 <= i < |t.columns| && i != p ==> u.columns[i] == t.columns[i];
      }
      SameLookup(t, u, other);
    }
    ReplaceTable(c, u);
  }

  function Without(columns: seq<Column>, p: nat): seq<Column>
    requires p < |columns|
  {
    columns[..p] + columns[p + 1..]
  }

  lemma WithoutElements(columns: seq<Column>, p: nat)
    requires p < |columns|
    ensures |Without(columns, p)| == |columns| - 1
    ensures forall i :: 0 <= i < |columns| - 1 ==> Without(columns, p)[i] == columns[if i < p then i else i + 1]
    ensures forall x :: x in columns && x.id != columns[p].id ==> x in Without(columns, p)
  {
    forall x | x in columns && x.id != columns[p].id ensures x in Without(columns, p) {
      var i :| 0 <= i < |columns| && columns[i] == x;
      assert Without(columns, p)[if i < p then i else i - 1] == x;
    }
  }

  lemma WithoutColumn(t: Table, p: nat)
    requires ValidTable(t) && p < |t.columns| && |t.columns| > 1
    ensures var u := t.(columns := Without(t.columns, p));
            && ValidTable(u)
            && forall id :: id != t.columns[p].id ==> ColumnAt(u, id) == ColumnAt(t, id)
  {
    var u := t.(columns := Without(t.columns, p));
    WithoutElements(t.columns, p);
    forall id | id != t.columns[p].id ensures ColumnAt(u, id) == ColumnAt(t, id) {
      hide ColumnAt, Position;
      SameLookup(t, u, id);
    }
  }

  lemma DropColumnKeeps(c: Catalog, table: TableId, id: ColumnId)
    requires Valid(c) && ApplyDropColumn(c, table, id).Ok?
    ensures Valid(ApplyDropColumn(c, table, id).value)
  {
    hide Constrained, ValidIndex, ValidForeignKey, ColumnAt, ValidTable, ValidPrimaryKey;
    var t := c.tables[table];
    var p := Position(t.columns, id).value;
    WithoutColumn(t, p);
    ReplaceTable(c, t.(columns := Without(t.columns, p)));
  }

  lemma RenameTableKeeps(c: Catalog, table: TableId, newName: Name)
    requires Valid(c) && ApplyRenameTable(c, table, newName).Ok?
    ensures Valid(ApplyRenameTable(c, table, newName).value)
  {
    var t := c.tables[table].(name := newName);
    assert forall id :: ColumnAt(t, id) == ColumnAt(c.tables[table], id);
    ReplaceTable(c, t);
  }

  lemma AddIndexNames(c: Catalog, index: Index, name: Option<Name>)
    requires Valid(c) && ApplyAddIndex(c, index, name).Ok?
    ensures ValidNames(ApplyAddIndex(c, index, name).value)
  {
    hide ValidIndex, ValidForeignKey, ValidTables;
  }

  lemma AddIndexShape(c: Catalog, index: Index, name: Option<Name>)
    requires ApplyAddIndex(c, index, name).Ok?
    ensures var d := ApplyAddIndex(c, index, name).value;
            if index.id in c.indexes then d == c
            else && d.tables == c.tables && d.primaryKeys == c.primaryKeys && d.foreignKeys == c.foreignKeys
                 && d.indexes == c.indexes[index.id := index] && ValidIndex(c, index)
  {
    hide ValidIndex, NameFree;
  }

  lemma AddIndexKeeps(c: Catalog, index: Index, name: Option<Name>)
    requires Valid(c) && ApplyAddIndex(c, index, name).Ok?
    ensures Valid(ApplyAddIndex(c, index, name).value)
  {
    hide *;
    AddIndexShape(c, index, name);
    if index.id !in c.indexes {
      AddIndexNames(c, index, name);
      AllValid(c);
      SameTables(c, ApplyAddIndex(c, index, name).value);
      TablesFrame(c, ApplyAddIndex(c, index, name).value);
      GrownIsValid(c, ApplyAddIndex(c, index, name).value);
    }
  }

  lemma NamesFrame(c: Catalog, d: Catalog)
    requires ValidNames(c) && d.indexes == c.indexes && d.foreignKeys == c.foreignKeys
    requires d.indexNames == c.indexNames && d.foreignKeyNames == c.foreignKeyNames
    ensures ValidNames(d)
  {
  }

  lemma TablesFrame(c: Catalog, d: Catalog)
    requires ValidTables(c) && d.tables == c.tables && d.primaryKeys == c.primaryKeys
    ensures ValidTables(d)
  {
  }

  lemma TableOfIndex(c: Catalog, index: Index)
    requires ValidIndex(c, index)
    ensures index.table in c.tables
  {
  }

  lemma AddForeignKeyNames(c: Catalog, key: ForeignKey, name: Option<Name>)
    requires Valid(c) && ApplyAddForeignKey(c, key, name).Ok?
    ensures ValidNames(ApplyAddForeignKey(c, key, name).value)
  {
    hide ValidIndex, ValidForeignKey, ValidTables;
  }

  lemma AddForeignKeyShape(c: Catalog, key: ForeignKey, name: Option<Name>)
    requires ApplyAddForeignKey(c, key, name).Ok?
    ensures var d := ApplyAddForeignKey(c, key, name).value;
            && d.tables == c.tables && d.primaryKeys == c.primaryKeys && d.indexes == c.indexes
            && d.foreignKeys == c.foreignKeys[key.id := key] && key.id !in c.foreignKeys && ValidForeignKey(c, key)
  {
  }

  lemma AddForeignKeyKeeps(c: Catalog, key: ForeignKey, name: Option<Name>)
    requires Valid(c) && ApplyAddForeignKey(c, key, name).Ok?
    ensures Valid(ApplyAddForeignKey(c, key, name).value)
  {
    hide *;
    AddForeignKeyNames(c, key, name);
    AddForeignKeyShape(c, key, name);
    AllValid(c);
    TablesFrame(c, ApplyAddForeignKey(c, key, name).value);
    SameTables(c, ApplyAddForeignKey(c, key, name).value);
    GrownIsValid(c, ApplyAddForeignKey(c, key, name).value);
  }

  lemma TablesOfKey(c: Catalog, key: ForeignKey)
    requires ValidForeignKey(c, key)
    ensures key.table in c.tables && key.referencedTable in c.tables && Supporting(c, key) != {}
  {
  }

  lemma DropTableShape(c: Catalog, table: TableId)
    requires ApplyDropTable(c, table).Ok?
    ensures var d := ApplyDropTable(c, table).value;
            && d.tables == c.tables - {table} && d.primaryKeys == c.primaryKeys - {table}
            && (forall i :: i in d.indexes <==> i in c.indexes && c.indexes[i].table != table)
            && (forall i :: i in d.indexes ==> d.indexes[i] == c.indexes[i])
            && (forall k :: k in d.foreignKeys <==> k in c.foreignKeys && c.foreignKeys[k].table != table)
            && (forall k :: k in d.foreignKeys ==>
                  d.foreignKeys[k] == c.foreignKeys[k] && d.foreignKeys[k].referencedTable != table)
  {
  }

  lemma DropTableNames(c: Catalog, table: TableId)
    requires Valid(c) && ApplyDropTable(c, table).Ok?
    ensures ValidNames(ApplyDropTable(c, table).value) && ValidTables(ApplyDropTable(c, table).value)
  {
    hide ValidIndex, ValidForeignKey, ValidTable, ValidPrimaryKey, ValidNames, ValidTables, ApplyDropTable;
    DroppedNames(c, table);
    DroppedTables(c, table);
  }

  lemma DroppedNames(c: Catalog, table: TableId)
    requires Valid(c) && ApplyDropTable(c, table).Ok?
    ensures ValidNames(ApplyDropTable(c, table).value)
  {
    hide ValidIndex, ValidForeignKey, ValidTables;
  }

  lemma DroppedTables(c: Catalog, table: TableId)
    requires Valid(c) && ApplyDropTable(c, table).Ok?
    ensures ValidTables(ApplyDropTable(c, table).value)
  {
    hide ValidIndex, ValidForeignKey, ValidTable, ValidPrimaryKey, ValidNames;
  }

  lemma TableFrame(c: Catalog, d: Catalog, t: TableId)
    requires t in c.tables && t in d.tables && c.tables[t] == d.tables[t]
    ensures SameTable(c, d, t)
  {
  }

  lemma SupportFrame(c: Catalog, d: Catalog, key: ForeignKey)
    requires forall i :: i in c.indexes && c.indexes[i].table == key.referencedTable ==> i in d.indexes && d.indexes[i] == c.indexes[i]
    ensures Supporting(c, key) <= Supporting(d, key)
  {
  }

  lemma DropTableKeeps(c: Catalog, table: TableId)
    requires Valid(c) && ApplyDropTable(c, table).Ok?
    ensures Valid(ApplyDropTable(c, table).value)
  {
    hide *;
    DropTableNames(c, table);
    DropTableShape(c, table);
    AllValid(c);
    var d := ApplyDropTable(c, table).value;
    forall t | t in d.tables ensures SameTable(c, d, t) {
      TableFrame(c, d, t);
    }
    forall k | k in d.foreignKeys ensures Supporting(d, d.foreignKeys[k]) != {} {
      SupportFrame(c, d, d.foreignKeys[k]);
    }
    FrameIsValid(c, d);
  }

  lemma DropIndexKeeps(c: Catalog, index: IndexId)
    requires Valid(c) && ApplyDropIndex(c, index).Ok?
    ensures Valid(ApplyDropIndex(c, index).value)
  {
    hide ValidIndex, ValidForeignKey, ValidTable, ValidPrimaryKey;
    var d := ApplyDropIndex(c, index).value;
    forall i | i in d.indexes ensures ValidIndex(d, d.indexes[i]) {
      InTables(c, i);
      IndexFrame(c, d, d.indexes[i]);
    }
    forall k | k in d.foreignKeys ensures ValidForeignKey(d, d.foreignKeys[k]) {
      var key := c.foreignKeys[k];
      KeyInTables(c, k);
      assert Supporting(d, key) == Supporting(c, key) - {index};
      assert Supporting(d, key) != {} by {
        if key.referencedTable != c.indexes[index].table {
          assert index !in Supporting(c, key);
        }
      }
      ForeignKeyFrame(c, d, key);
    }
  }

  lemma DropForeignKeyKeeps(c: Catalog, key: ConstraintId)
    requires Valid(c) && ApplyDropForeignKey(c, key).Ok?
    ensures Valid(ApplyDropForeignKey(c, key).value)
  {
    hide ValidIndex, ValidForeignKey, ValidTable, ValidPrimaryKey;
    var d := ApplyDropForeignKey(c, key).value;
    forall i | i in d.indexes ensures ValidIndex(d, d.indexes[i]) {
      InTables(c, i);
      IndexFrame(c, d, d.indexes[i]);
    }
    forall k | k in d.foreignKeys ensures ValidForeignKey(d, d.foreignKeys[k]) {
      KeyInTables(c, k);
      assert Supporting(d, c.foreignKeys[k]) == Supporting(c, c.foreignKeys[k]);
      ForeignKeyFrame(c, d, c.foreignKeys[k]);
    }
  }

  // ---- reachable catalogs --------------------------------------------------

  /** An accepted mutation keeps the invariant. */
  lemma MutationKeepsValid(c: Catalog, m: Mutation)
    requires Valid(c) && Mutate(c, m).Ok?
    ensures Valid(Mutate(c, m).value)
  {
    match m
    case CreateTable(t, key) => CreateTableKeeps(c, t, key);
    case AddNullableColumn(table, column) => AddNullableColumnKeeps(c, table, column);
    case AddIndex(index, name) => AddIndexKeeps(c, index, name);
    case AddForeignKey(key, name) => AddForeignKeyKeeps(c, key, name);
    case RenameColumn(table, id, name) =>
      var p := Position(c.tables[table].columns, id).value;
      EditedColumn(c, table, id, p, c.tables[table].columns[p].(name := name));
    case AlterColumnType(table, id, kind, _) =>
      var p := Position(c.tables[table].columns, id).value;
      EditedColumn(c, table, id, p, c.tables[table].columns[p].(kind := kind, nullable := true));
    case DropColumn(table, id) => DropColumnKeeps(c, table, id);
    case RenameTable(table, name) => RenameTableKeeps(c, table, name);
    case DropTable(table) => DropTableKeeps(c, table);
    case DropIndex(index) => DropIndexKeeps(c, index);
    case DropForeignKey(key) => DropForeignKeyKeeps(c, key);
  }

  /** Run a list of mutations; a refused one leaves the catalog as it was. */
  function Run(c: Catalog, ms: seq<Mutation>): Catalog
    decreases |ms|
  {
    if ms == [] then c
    else Run(match Mutate(c, ms[0]) case Ok(d) => d case Err(_) => c, ms[1..])
  }

  lemma {:induction false} RunKeepsValid(c: Catalog, ms: seq<Mutation>)
    requires Valid(c)
    ensures Valid(Run(c, ms))
    decreases |ms|
  {
    hide Valid, Mutate;
    if ms != [] {
      if Mutate(c, ms[0]).Ok? {
        MutationKeepsValid(c, ms[0]);
        RunKeepsValid(Mutate(c, ms[0]).value, ms[1..]);
      } else {
        RunKeepsValid(c, ms[1..]);
      }
    }
  }

  /** Every reachable catalog is valid. */
  lemma ReachableIsValid(ms: seq<Mutation>)
    ensures Valid(Run(EMPTY, ms))
  {
    RunKeepsValid(EMPTY, ms);
  }

  // ---- consequences of the invariant ---------------------------------------

  /** The supporting index of a foreign key lists its referenced columns in some order:
      nothing else, nothing twice, nothing missing. */
  lemma SupportIsPermutation(c: Catalog, k: ConstraintId)
    requires Valid(c) && k in c.foreignKeys
    ensures var key := c.foreignKeys[k];
            var index := ForeignKeyIndex(c, key).value;
            multiset(KeyColumns(index.parts)) == multiset(key.referencedColumns)
  {
    var key := c.foreignKeys[k];
    assert ValidForeignKey(c, key);
    var index := ForeignKeyIndex(c, key).value;
    var columns := KeyColumns(index.parts);
    PlainKeyColumns(index.parts);
    DistinctSubsetIsPermutation(columns, key.referencedColumns);
  }

  lemma {:induction false} PlainKeyColumns(parts: seq<KeyPart>)
    requires forall i :: 0 <= i < |parts| ==> parts[i].Plain?
    ensures |KeyColumns(parts)| == |parts|
    ensures forall i :: 0 <= i < |parts| ==> KeyColumns(parts)[i] == parts[i].column
  {
    if parts != [] {
      PlainKeyColumns(parts[1..]);
    }
  }

  lemma {:induction false} DistinctSubsetIsPermutation(a: seq<ColumnId>, b: seq<ColumnId>)
    requires |a| == |b| && Distinct(a) && Distinct(b)
    requires forall i :: 0 <= i < |a| ==> a[i] in b
    ensures multiset(a) == multiset(b)
  {
    if a != [] {
      var j :| 0 <= j < |b| && b[j] == a[0];
      var rest := b[..j] + b[j + 1..];
      RemoveOne(b, j);
      assert a == [a[0]] + a[1..];
      assert forall i :: 0 <= i < |a| - 1 ==> a[1..][i] == a[i + 1];
      forall i | 0 <= i < |a| - 1 ensures a[1..][i] in rest {
        assert a[i + 1] in b && a[i + 1] != b[j];
      }
      DistinctSubsetIsPermutation(a[1..], rest);
    }
  }

  lemma RemoveOne(b: seq<ColumnId>, j: nat)
    requires j < |b| && Distinct(b)
    ensures var rest := b[..j] + b[j + 1..];
            && Distinct(rest)
            && multiset(b) == multiset([b[j]]) + multiset(rest)
            && (forall x :: x in b && x != b[j] ==> x in rest)
  {
    var rest := b[..j] + b[j + 1..];
    assert b == b[..j] + [b[j]] + b[j + 1..];
    assert forall i :: 0 <= i < |rest| ==> rest[i] == b[if i < j then i else i + 1];
    forall x | x in b && x != b[j] ensures x in rest {
      var m :| 0 <= m < |b| && b[m] == x;
      assert rest[if m < j then m else m - 1] == x;
    }
  }

  /** A column nulled by ON DELETE SET NULL is never part of its table's primary key. */
  lemma SetNullAvoidsPrimaryKey(c: Catalog, k: ConstraintId, id: ColumnId)
    requires Valid(c) && k in c.foreignKeys && c.foreignKeys[k].onDelete == SetNull
    requires id in c.foreignKeys[k].columns
    ensures c.foreignKeys[k].table in c.primaryKeys ==> id !in c.primaryKeys[c.foreignKeys[k].table]
    ensures ColumnAt(c.tables[c.foreignKeys[k].table], id).Some?
    ensures ColumnAt(c.tables[c.foreignKeys[k].table], id).value.nullable
  {
    var key := c.foreignKeys[k];
    var i :| 0 <= i < |key.columns| && key.columns[i] == id;
    assert ValidPair(c.tables[key.table], c.tables[key.referencedTable], key, i);
  }
}
