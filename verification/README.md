# pgrocks: a PostgreSQL table access method over RocksDB, modelled in Dafny

pgrocks plugs a table access method into PostgreSQL and keeps table data in a
RocksDB database. Most callbacks of the access method are empty. The logic
that does exist is modelled here, with the RocksDB database as a
`map<string, string>` from keys to values:

- **Row keys** (`RowKeys`): `add_row` stores a row under `"<table>#<row>"`,
  with the row number in unpadded decimal.
- **Largest row number** (`RowKeys`): `get_max_row_num` seeks to
  `"<table>#"` and walks every following key in bytewise key order. It keeps
  the largest `sscanf("%d")` value read from a key that is longer than the
  prefix and starts with it. It starts from -1. The insert path uses max + 1
  as the new row id. The seek is modelled as the set of keys at or after the
  prefix; each step takes the first remaining key (`KeyOrder`). The `%d`
  conversion skips white space, takes one optional sign and then the longest
  run of digits (`Decimal.ScanInt`).
- **Row text** (`RowCodec`): `memam_tuple_insert` renders each attribute
  with the type's output function, or writes `NULL` for a null attribute. It
  puts one comma between neighbouring attributes. The output function is a
  parameter `render`.
- **Catalog directory** (`Catalog`, `PgRocks.Backend.RelationSetNewFilelocator`):
  the key `"tables"` holds a comma-joined listing. Creating a relation reads
  the listing, allocates `strlen(tables) + 1 + strlen(name) + 1` characters,
  builds `tables + "," + name` with `strcpy`/`strcat` (`CStrings`) and writes
  the result back. Nothing checks for duplicates.
- **Store handle** (`PgRocks.Backend.Handler`): the handler opens the store and
  sets `"tables"` to `""` only while the process-wide handle is NULL.
- **Scan cursor** (`Scan`): `memam_beginscan` sets the cursor to 0.
  `memam_getnextslot` returns false when the table is absent or the cursor
  equals `nrows`. Otherwise it emits column 0 of the row under the cursor as
  non-null and increments the cursor.

Two defects in the source are modelled as written, with the intended
behaviour next to them (see "## Findings"):

- The insert hands `add_row` the pointer `combined`, which is still NULL,
  instead of the encoded row.
- `get_table` never fills in its out-parameter, so every scan ends at once.

That is why the stored value and the table seen by a scan are explicit
parameters.

Behaviours of the code worth knowing, which the model keeps:

- Registration appends without a duplicate check.
- The first registration produces `",<name>"`, whose leading empty entry is
  kept.
- The handler resets the catalog once per backend process. The database under
  `/tmp/rocksdb_data` persists across processes, so each new process empties
  the listing left by earlier ones (`PgRocks.Backend.constructor` starts from
  the stored contents).
- Row ids are unpadded, so key order is not row order
  (`RowKeys.KeyOrderIsNotRowOrder`).
- The prefix test does not stop at the `#`, so rows of a table named `t#1`
  count as rows of `t` (`RowKeys.ForeignTableKeyCounts`).

## Model

| member | source | states |
|---|---|---|
| Decimal.NatToDecimal | pgrocks.c:54 | `%zu` text of a row number: non-empty, all decimal digits, starting with `0` only for the value 0, which is exactly `"0"` (no padding) |
| Decimal.DecimalRoundTrip | pgrocks.c:54 | the digits written for n have the value n |
| Decimal.ScanInt | pgrocks.c:75 | `sscanf("%d")` conversion: empty text converts nothing; text starting with a digit always converts, to a non-negative value |
| Decimal.ScanDecimal | pgrocks.c:75 | `%d` applied to the `%zu` text of n gives back n |
| KeyOrder.PrefixSortsFirst | pgrocks.c:69 | every key that starts with the prefix sorts at or after it, so the seek skips no candidate key |
| KeyOrder.FirstKeyExists | pgrocks.c:69 | every non-empty set of remaining keys has a first key in bytewise order, the one the iterator visits next |
| Delimited.SplitJoin | pgrocks.c:279-281 | comma-free fields joined with single commas split back into exactly those fields |
| Delimited.JoinLength | pgrocks.c:279-281 | joined text is the fields' total length plus one comma per neighbouring pair: no leading or trailing comma |
| RowKeys.RowKey | pgrocks.c:54 | the key is `"<table>#"` followed by the unpadded decimal row number |
| RowKeys.GetMaxRowNum | pgrocks.c:60-88 | result is at least -1 and at least every row number read from a matching key, and is -1 or the row number of some stored key |
| RowKeys.RowKeyReadsBack | pgrocks.c:66-75 | the key of (table, n) passes the prefix and length tests and its suffix converts to n |
| RowKeys.MaxRowNumUnique | pgrocks.c:60-88 | the result of the scan is determined by the set of stored keys |
| RowKeys.MaxIsMinusOneIff | pgrocks.c:73-87 | the result is -1 exactly when no matching key converts to a non-negative number |
| RowKeys.MaxCoversStoredRow | pgrocks.c:50-58 | once row n of a table is stored, the scan for that table returns at least n |
| RowKeys.NextRowIdIsFresh | pgrocks.c:286-289 | max + 1 exceeds every row number read, and its key is not yet in the store |
| RowKeys.InsertAdvancesMax | pgrocks.c:286-289 | after storing row max + 1 the scan returns exactly max + 1 |
| RowKeys.PutNextRow | pgrocks.c:286-289 | putting row max + 1 into the store adds a fresh key and raises the scan's result by one |
| RowKeys.UnrelatedKeyIgnored | pgrocks.c:73-80 | a key failing the prefix test, the length test or the conversion leaves the result unchanged |
| RowKeys.ForeignTableKeyCounts | pgrocks.c:66-75 | every row key of a table named `<T>#<m>` reads as row m of table T (e.g. `t#1#7` as row 1 of `t`), so on its own it makes the scan for T return m |
| RowKeys.KeyOrderIsNotRowOrder | pgrocks.c:54 | key `t#10` sorts strictly before `t#2` |
| RowCodec.EncodeTuple | pgrocks.c:268-282 | the buffer built by the loop is the attribute texts (`NULL` for null) joined by single commas |
| RowCodec.ShortRows | pgrocks.c:268-282 | zero attributes give the empty text; one attribute gives just its text |
| RowCodec.EncodedRowSplits | pgrocks.c:268-282 | when no rendered text contains a comma, the stored text splits into one field per attribute, in order, with exactly `NULL` for each null attribute |
| RowCodec.EncodedRowLength | pgrocks.c:268-282 | stored length is the sum of the attribute texts plus natts - 1 commas |
| RowCodec.EncodingIsAmbiguous | pgrocks.c:271-281 | a text `a,b` encodes like the two attributes `a`, `b`; a text `NULL` encodes like a null attribute |
| CStrings.StrLen | pgrocks.c:420 | `strlen` of a buffer holding a C string is that string's length |
| CStrings.StrCpy | pgrocks.c:427 | `strcpy` leaves the source string and a NUL in the buffer, which must have room for both |
| CStrings.StrCat | pgrocks.c:428-429 | `strcat` leaves the old string, the appended one and a NUL in the buffer, which must have room for them |
| Catalog.RegistrationAppends | pgrocks.c:420-429 | the new listing is one comma and the name longer than the old one, and the old listing is its prefix |
| Catalog.RegistrationAddsEntry | pgrocks.c:427-431 | read as entries, registering a comma-free name adds it as the last entry, keeping all earlier ones |
| Catalog.ListingFromEmpty | pgrocks.c:418-431 | from the empty listing, the entries are one empty entry followed by every registered name in order, repeats included |
| Catalog.FirstRegistrationAndRepeat | pgrocks.c:427-429 | the first registration yields `",<name>"`; registering a name twice lists it twice |
| Scan.NextSlot | pgrocks.c:196-205 | returns false without moving the cursor exactly when the table is absent or the cursor is at `nrows`; otherwise emits column 0 of the row under the cursor as non-null, advances the cursor by one and consumes one value of what remains, so the cursor never passes `nrows` |
| Scan.ScanEmitsRemainingRows | pgrocks.c:184-206 | pulling until false emits column 0 of every remaining row, in row order, once each |
| Scan.GetTable | pgrocks.c:113-130 | reads the value stored under the relation's name, drops it, and yields no table |
| Scan.AsWrittenScanIsEmpty | pgrocks.c:127-130 | with `get_table` as written, the first `getnextslot` returns false and a scan emits nothing |
| Scan.ScanDesc.BeginScan | pgrocks.c:148-166 | a new scan descriptor on the relation with its cursor at 0 |
| Scan.ScanDesc.GetNextSlot | pgrocks.c:184-206 | return value, slot and new cursor are exactly the step `NextSlot` describes |
| PgRocks.RowKeyIsNotTablesKey | pgrocks.c:54 | no row key equals the catalog key `tables` |
| PgRocks.Backend.constructor | pgrocks.c:48 | a process starts with a NULL handle over whatever the store already holds |
| PgRocks.Backend.Handler | pgrocks.c:623-642 | afterwards the store is open; a first call sets `tables` to `""` and changes nothing else, later calls change nothing |
| PgRocks.Backend.GetTables | pgrocks.c:90-101 | the value under `tables`, or NULL exactly when the key is absent |
| PgRocks.Backend.SetTables | pgrocks.c:103-110 | `tables` now maps to the given listing; no other key changes |
| PgRocks.Backend.AddRow | pgrocks.c:50-58 | a non-NULL value is stored under the row key and nothing else changes; a NULL value stores nothing |
| PgRocks.Backend.TupleInsert | pgrocks.c:248-292 | as written: nothing is stored and the store is unchanged |
| PgRocks.Backend.TupleInsertIntended | pgrocks.c:248-292 | the encoded row is stored under row id max + 1; that key was absent before; nothing else changes; the scan now returns the new id |
| PgRocks.Backend.RelationSetNewFilelocator | pgrocks.c:411-434 | after a failed allocation the store is unchanged; otherwise `tables` becomes `old + "," + name` and nothing else changes |

## Left out

- RocksDB itself (options, write and read options, the engine): the store is a map. The `assert(!err)` checks after `rocksdb_open`, `rocksdb_put` and `rocksdb_get` are taken to pass; failures of the engine are not modelled.
- `set_tables` stores `strlen(tables) + 1` bytes, that is, the listing with its trailing NUL. The model stores the listing without the NUL.
- `sscanf` reads the key suffix as a C string, but the bytes returned by `rocksdb_iter_key` are not NUL-terminated, so the conversion can run past the key. The model converts exactly the key's own suffix.
- Decimal.ScanInt: values outside the range of `int` are undefined behaviour for `%d`. They are not modelled, and the conversion returns the unbounded value.
- RowKeys.GetMaxRowNum: the result is an unbounded integer; 32-bit `int` overflow of `max_row_num` and of `current_max_row_num + 1` at `INT_MAX` is not modelled. The new row id is `max + 1` as a natural number, as `%zu` prints it for `max >= -1`.
- Scan.ScanDesc.GetNextSlot: the cursor is a `uint32` in C and a `nat` here. Wrap-around after 2^32 rows is not modelled.
- `datumToString`, `getTypeOutputInfo`, detoasting and `slot_getattr` are PostgreSQL code. Rendering is the parameter `render`, and attributes arrive as values already read from the slot.
- `get_table_data` reads the value stored under the relation's name. The code drops that value, so `Scan.GetTable` does not look it up. The leaked buffer is not modelled.
- The scan's table is a parameter because the code never builds one. Decoding stored rows into `struct Table` is not part of this model.
- `memam_rescan`, `memam_endscan` (frees the descriptor), `memam_slot_callbacks`, and every no-op callback: index fetch, speculative and multi insert, delete, update, lock, row versions, vacuum, analyze, index build, TOAST, size estimation and sampling. Also left out are the `memam_methods` table and the `table_block_*` parallel-scan hooks. These are wiring with no logic.
- PgRocks.Backend.Handler: the global `FILE* fd` (pgrocks.c:20) is never opened anywhere in pgrocks.c, so the `fprintf(fd, ...)` at pgrocks.c:624, the handler's first statement, writes to a NULL stream and would crash the backend before the open-once logic runs. The model assumes that line returns and starts at pgrocks.c:626.
- Logging (`DEBUG_FUNC`, `DEBUG_VAR_TYPE`, `elog`) and memory release (`pfree`, `free`).
- Allocation is modelled only where it can fail visibly, in the catalog update (`allocOk`).
- Concurrency: catalog registration and row-id allocation are unguarded read-modify-write sequences. The model is single-threaded.
- The unused `struct Database`, `MAX_ROWS` and `MAX_TABLES`.

## Findings

| source | as written | input that shows it | evidently intended | confidence | as-written member | corrected member |
|---|---|---|---|---|---|---|
| pgrocks.c:262-289 | `add_row` is passed `combined`, which is still NULL, so `strlen(data)` dereferences NULL before the put and no row is ever stored | any insert, e.g. one int attribute into table `orders` | store the encoded row `str.data` under `"<table>#<max + 1>"` | high; not executed | PgRocks.Backend.TupleInsert | PgRocks.Backend.TupleInsertIntended |
| pgrocks.c:127-130 | `get_table` never assigns `*table`, so `getnextslot` sees NULL and returns false on its first call | a scan of any table, whatever rows are stored | give the scan the table's rows, so it emits column 0 of each row in turn | high; not executed | Scan.AsWrittenScanIsEmpty | Scan.ScanEmitsRemainingRows |
