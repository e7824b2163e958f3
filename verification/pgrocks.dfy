/**
 * The table access method's process state: the RocksDB handle, opened once
 * by the handler, and the key-value contents behind it. The callbacks that
 * write go through here: the catalog update on table creation and the
 * insert of a row.
 */
module PgRocks {
  import opened Wrappers
  import opened CStrings
  import opened RowKeys
  import opened RowCodec
  import opened Catalog
  import Delimited

  /** A row key carries '#', the catalog key does not: a row never lands on the catalog. */
  lemma RowKeyIsNotTablesKey(tableName: string, row: nat)
    ensures RowKey(tableName, row) != TablesKey
  {
    var key := RowKey(tableName, row);
    assert key[|tableName|] == Separator;
    if |tableName| < |TablesKey| {
      assert TablesKey[|tableName|] != Separator;
    }
  }

  class Backend {
    /** database != NULL */
    var open: bool
    /** The contents of the RocksDB database under /tmp/rocksdb_data. */
    var kv: map<string, string>

    /** Once the store is open, the catalog key holds a C string. */
    ghost predicate Valid()
      reads this
    {
      open ==> TablesKey in kv && Nul !in kv[TablesKey]
    }

    /** A backend process starts with a NULL handle; the store holds what earlier processes wrote. */
    constructor (onDisk: map<string, string>)
      ensures Valid() && !open && kv == onDisk
    {
      open := false;
      kv := onDisk;
    }

    /**
     * mem_tableam_handler: opens the store and resets the catalog to the
     * empty listing only while the handle is NULL; later calls change nothing.
     */
    method Handler()
      requires Valid()
      modifies this
      ensures Valid() && open
      ensures old(open) ==> kv == old(kv)
      ensures !old(open) ==> kv == old(kv)[TablesKey := ""]
    {
      if !open {
        open := true;
        SetTables("");
      }
    }

    /** get_tables: the value under "tables", or NULL when the key is absent. */
    method GetTables() returns (tables: Option<string>)
      requires open
      ensures tables.Some? <==> TablesKey in kv
      ensures tables.Some? ==> tables.value == kv[TablesKey]
    {
      tables := if TablesKey in kv then Some(kv[TablesKey]) else None;
    }

    /** set_tables: overwrites the whole listing; no other key changes. */
    method SetTables(tables: string)
      requires open
      modifies this`kv
      ensures kv == old(kv)[TablesKey := tables]
    {
      kv := kv[TablesKey := tables];
    }

    /**
     * add_row: puts data under "<table>#<row>". data is a C pointer: when it
     * is NULL, strlen dereferences it before the put, the backend crashes
     * and nothing is stored.
     */
    method AddRow(tableName: string, row: nat, data: Option<string>) returns (stored: bool)
      requires Valid() && open
      modifies this`kv
      ensures Valid()
      ensures stored == data.Some?
      ensures kv == if data.Some? then old(kv)[RowKey(tableName, row) := data.value] else old(kv)
    {
      if data.None? {
        return false;
      }
      RowKeyIsNotTablesKey(tableName, row);
      kv := kv[RowKey(tableName, row) := data.value];
      stored := true;
    }

    /**
     * memam_tuple_insert as written: encodes the row, picks id max + 1, and
     * hands add_row the pointer combined, which is still NULL, so the
     * encoded row is never stored.
     */
    method TupleInsert(tableName: string, attrs: seq<Attr>, render: (Datum, Oid) -> string)
      returns (stored: bool)
      requires Valid() && open
      modifies this`kv
      ensures Valid()
      ensures !stored && kv == old(kv)
    {
      var str := EncodeTuple(attrs, render);
      var combined: Option<string> := None;
      var currentMaxRowNum := GetMaxRowNum(kv, tableName);
      stored := AddRow(tableName, currentMaxRowNum + 1, combined);
    }

    /**
     * memam_tuple_insert as intended: the encoded row is stored under the
     * next row id, which is fresh, and becomes the table's largest.
     */
    method TupleInsertIntended(tableName: string, attrs: seq<Attr>, render: (Datum, Oid) -> string)
      returns (rowId: nat)
      requires Valid() && open
      modifies this`kv
      ensures Valid()
      ensures IsMaxRowNum(old(kv).Keys, tableName, rowId - 1)
      ensures RowKey(tableName, rowId) !in old(kv)
      ensures kv == old(kv)[RowKey(tableName, rowId) := EncodedRow(attrs, render)]
      ensures IsMaxRowNum(kv.Keys, tableName, rowId)
    {
      var str := EncodeTuple(attrs, render);
      var currentMaxRowNum := GetMaxRowNum(kv, tableName);
      rowId := currentMaxRowNum + 1;
      var stored := AddRow(tableName, rowId, Some(str));
      PutNextRow(old(kv), tableName, currentMaxRowNum, str);
    }

    /**
     * memam_relation_set_new_filelocator: reads the listing, allocates
     * strlen(tables) + 1 + strlen(name) + 1 characters, builds
     * "<tables>,<name>" with strcpy and strcat and writes it back. When
     * malloc fails (allocOk false) it returns and the catalog is unchanged.
     * No duplicate check is made.
     */
    method RelationSetNewFilelocator(newTableName: string, allocOk: bool)
      requires Valid() && open
      requires Nul !in newTableName
      modifies this`kv
      ensures Valid()
      ensures !allocOk ==> kv == old(kv)
      ensures allocOk ==> kv == old(kv)[TablesKey := Registered(old(kv[TablesKey]), newTableName)]
    {
      var tables := GetTables();
      var newLen := |tables.value| + 1 + |newTableName|;
      if !allocOk {
        return;
      }
      var combined := new char[newLen + 1];
      StrCpy(combined, tables.value);
      StrCat(combined, tables.value, [Delimited.Comma]);
      StrCat(combined, tables.value + [Delimited.Comma], newTableName);
      var len := StrLen(combined, tables.value + [Delimited.Comma] + newTableName);
      SetTables(combined[..len]);
    }
  }
}
