/**
 * Row keys "<table>#<row>" and the discovery of a table's largest row
 * number by a prefix scan over the store's keys (add_row, get_max_row_num).
 */
module RowKeys {
  import opened Wrappers
  import opened KeyOrder
  import opened Decimal

  const Separator: char := '#'

  /** The prefix every key of the table starts with: "<table>#". */
  function KeyPrefix(tableName: string): string
  {
    tableName + [Separator]
  }

  /** The key add_row writes: "<table>#<row>" with "%zu", unpadded decimal. */
  function RowKey(tableName: string, row: nat): (key: string)
    ensures |key| > |KeyPrefix(tableName)| && key[..|KeyPrefix(tableName)|] == KeyPrefix(tableName)
    ensures key[|KeyPrefix(tableName)|..] == NatToDecimal(row)
  {
    KeyPrefix(tableName) + NatToDecimal(row)
  }

  /**
   * What get_max_row_num reads from one key: the "%d" value of its suffix
   * when the key is longer than "<table>#" and starts with it, otherwise nothing.
   */
  function RowNumOf(key: string, tableName: string): Option<int>
  {
    var prefix := KeyPrefix(tableName);
    if |key| > |prefix| && key[..|prefix|] == prefix then ScanInt(key[|prefix|..]) else None
  }

  /**
   * r is what get_max_row_num returns for these keys: -1 raised to the
   * largest row number read from any of them.
   */
  ghost predicate IsMaxRowNum(keys: set<string>, tableName: string, r: int)
  {
    && r >= -1
    && (forall k | k in keys && RowNumOf(k, tableName).Some? :: RowNumOf(k, tableName).value <= r)
    && (r == -1 || exists k | k in keys :: RowNumOf(k, tableName) == Some(r))
  }

  /**
   * get_max_row_num: seek to "<table>#", walk every following key in key
   * order and keep the largest row number read, starting from -1.
   */
  method GetMaxRowNum(kv: map<string, string>, tableName: string) returns (maxRowNum: int)
    ensures IsMaxRowNum(kv.Keys, tableName, maxRowNum)
  {
    maxRowNum := -1;
    var prefix := KeyPrefix(tableName);
    var pending := set k | k in kv && LexLe(prefix, k);
    ghost var seekSet := pending;
    ghost var visited: set<string> := {};
    while pending != {}
      invariant pending <= seekSet && visited == seekSet - pending
      invariant IsMaxRowNum(visited, tableName, maxRowNum)
      decreases |pending|
    {
      FirstKeyExists(pending);
      var key :| key in pending && forall other :: other in pending ==> LexLe(key, other);
      ghost var before := maxRowNum;
      if |key| > |prefix| && key[..|prefix|] == prefix {
        var current := ScanInt(key[|prefix|..]);
        assert current == RowNumOf(key, tableName);
        if current.Some? && current.value > maxRowNum {
          maxRowNum := current.value;
        }
      }
      VisitKey(visited, tableName, before, key, maxRowNum);
      MoveToVisited(seekSet, pending, key);
      pending := pending - {key};
      visited := visited + {key};
    }
    SeekKeepsCandidates(kv.Keys, tableName, visited);
    SeekIsEnough(kv.Keys, tableName, visited, maxRowNum);
  }

  /** Visiting one pending key moves it from the pending keys to the visited ones. */
  lemma MoveToVisited<T>(all: set<T>, pending: set<T>, key: T)
    requires key in pending && pending <= all
    ensures (all - pending) + {key} == all - (pending - {key})
    ensures pending - {key} <= all
  {
  }

  /** The seek to "<table>#" keeps every key the scan could read a row number from. */
  lemma SeekKeepsCandidates(keys: set<string>, tableName: string, seekSet: set<string>)
    requires seekSet == set k | k in keys && LexLe(KeyPrefix(tableName), k)
    ensures forall k | k in keys && RowNumOf(k, tableName).Some? :: k in seekSet
  {
    forall k | k in keys && RowNumOf(k, tableName).Some?
      ensures k in seekSet
    {
      PrefixSortsFirst(KeyPrefix(tableName), k);
    }
  }

  /** The result over the seek's keys is the result over all keys. */
  lemma SeekIsEnough(keys: set<string>, tableName: string, seekSet: set<string>, r: int)
    requires seekSet <= keys
    requires forall k | k in keys && RowNumOf(k, tableName).Some? :: k in seekSet
    requires IsMaxRowNum(seekSet, tableName, r)
    ensures IsMaxRowNum(keys, tableName, r)
  {
  }

  /** The largest of r and the row number read from one key, if any. */
  function Raised(r: int, current: Option<int>): int
  {
    if current.Some? && current.value > r then current.value else r
  }

  /** One step of the scan: visiting one more key raises the result to that key's row number. */
  lemma VisitKey(keys: set<string>, tableName: string, r: int, key: string, r': int)
    requires IsMaxRowNum(keys, tableName, r)
    requires r' == Raised(r, RowNumOf(key, tableName))
    ensures IsMaxRowNum(keys + {key}, tableName, r')
  {
    forall k | k in keys + {key} && RowNumOf(k, tableName).Some?
      ensures RowNumOf(k, tableName).value <= r'
    {
      if k != key { assert k in keys; }
    }
    if r' != -1 {
      if r' == r {
        var w :| w in keys && RowNumOf(w, tableName) == Some(r);
        assert w in keys + {key};
      } else {
        assert key in keys + {key};
      }
    }
  }

  /** The key of row n of a table reads back as n. */
  lemma RowKeyReadsBack(tableName: string, row: nat)
    ensures RowNumOf(RowKey(tableName, row), tableName) == Some(row)
  {
    ScanDecimal(row, "");
    assert NatToDecimal(row) + "" == NatToDecimal(row);
  }

  /** Only one value meets IsMaxRowNum: the scan's result is determined by the keys. */
  lemma MaxRowNumUnique(keys: set<string>, tableName: string, r1: int, r2: int)
    requires IsMaxRowNum(keys, tableName, r1) && IsMaxRowNum(keys, tableName, r2)
    ensures r1 == r2
  {
  }

  /** The result is -1 exactly when no key of the table carries a non-negative row number. */
  lemma MaxIsMinusOneIff(keys: set<string>, tableName: string, r: int)
    requires IsMaxRowNum(keys, tableName, r)
    ensures r == -1 <==> forall k | k in keys && RowNumOf(k, tableName).Some? :: RowNumOf(k, tableName).value < 0
  {
  }

  /** After add_row(T, n) the scan of T returns at least n. */
  lemma {:induction false} MaxCoversStoredRow(keys: set<string>, tableName: string, row: nat, r: int)
    requires RowKey(tableName, row) in keys
    requires IsMaxRowNum(keys, tableName, r)
    ensures r >= row
  {
    RowKeyReadsBack(tableName, row);
  }

  /**
   * The insert path's new id max + 1 exceeds every row number already read,
   * so its key is not in the store yet: an insert never overwrites a row.
   */
  lemma {:induction false} NextRowIdIsFresh(keys: set<string>, tableName: string, r: int)
    requires IsMaxRowNum(keys, tableName, r)
    ensures forall k | k in keys && RowNumOf(k, tableName).Some? :: RowNumOf(k, tableName).value < r + 1
    ensures RowKey(tableName, r + 1) !in keys
  {
    RowKeyReadsBack(tableName, r + 1);
  }

  /** Storing row max + 1 raises the scan's result by exactly one. */
  lemma {:induction false} InsertAdvancesMax(keys: set<string>, tableName: string, r: int)
    requires IsMaxRowNum(keys, tableName, r)
    ensures IsMaxRowNum(keys + {RowKey(tableName, r + 1)}, tableName, r + 1)
  {
    var newKey := RowKey(tableName, r + 1);
    RowKeyReadsBack(tableName, r + 1);
    AddKeyAtNewMax(keys, tableName, r, newKey);
  }

  lemma AddKeyAtNewMax(keys: set<string>, tableName: string, r: int, newKey: string)
    requires IsMaxRowNum(keys, tableName, r)
    requires RowNumOf(newKey, tableName) == Some(r + 1)
    ensures IsMaxRowNum(keys + {newKey}, tableName, r + 1)
  {
    assert newKey in keys + {newKey};
  }

  /** The same, for the store: putting row max + 1 adds a fresh key and raises the result by one. */
  lemma {:induction false} PutNextRow(kv: map<string, string>, tableName: string, r: int, data: string)
    requires IsMaxRowNum(kv.Keys, tableName, r)
    ensures RowKey(tableName, r + 1) !in kv
    ensures IsMaxRowNum(kv[RowKey(tableName, r + 1) := data].Keys, tableName, r + 1)
  {
    NextRowIdIsFresh(kv.Keys, tableName, r);
    InsertAdvancesMax(kv.Keys, tableName, r);
    assert kv[RowKey(tableName, r + 1) := data].Keys == kv.Keys + {RowKey(tableName, r + 1)};
  }

  /** Keys of other tables or other kinds leave the result alone. */
  lemma {:induction false} UnrelatedKeyIgnored(keys: set<string>, tableName: string, key: string, r: int)
    requires RowNumOf(key, tableName).None?
    requires IsMaxRowNum(keys, tableName, r)
    ensures IsMaxRowNum(keys + {key}, tableName, r)
  {
    if r != -1 {
      var k :| k in keys && RowNumOf(k, tableName) == Some(r);
      assert k in keys + {key};
    }
  }

  /**
   * The prefix test does not stop at the separator: every row of the table
   * named "<T>#<m>" has a key "<T>#<m>#<row>", which the scan for table T
   * reads as row m (row 7 of "t#1" is "t#1#7", read as row 1 of "t").
   */
  lemma ForeignTableKeyCounts(tableName: string, m: nat, row: nat)
    ensures RowNumOf(RowKey(RowKey(tableName, m), row), tableName) == Some(m)
    ensures IsMaxRowNum({RowKey(RowKey(tableName, m), row)}, tableName, m)
  {
    var prefix := KeyPrefix(tableName);
    var rest := [Separator] + NatToDecimal(row);
    var key := RowKey(RowKey(tableName, m), row);
    assert key == prefix + (NatToDecimal(m) + rest);
    assert key[..|prefix|] == prefix;
    assert key[|prefix|..] == NatToDecimal(m) + rest;
    ScanDecimal(m, rest);
    assert key in {key};
  }

  /**
   * Unpadded decimal does not sort numerically: "t#10" comes before "t#2",
   * so the scan visits row 10 before row 2.
   */
  lemma KeyOrderIsNotRowOrder()
    ensures LexLe(RowKey("t", 10), RowKey("t", 2)) && !LexLe(RowKey("t", 2), RowKey("t", 10))
  {
    assert RowKey("t", 10) == "t#10";
    assert RowKey("t", 2) == "t#2";
    assert "t#10"[1..] == "#10" && "#10"[1..] == "10";
    assert "t#2"[1..] == "#2" && "#2"[1..] == "2";
  }
}
