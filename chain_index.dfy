/**
 * The chain index (`generateTable`): every row of the table scan becomes an
 * entry from its key to a map of its other columns.
 */
module ChainIndex {
  import opened Values

  /**
   * One row of the result set: its column names in result order, and the cell
   * values by name. A name with no entry, or mapped to `None`, holds no value.
   */
  datatype Row = Row(columns: seq<string>, data: map<string, ByteBuffer>)

  /** The chain index: record key (possibly `null`) to that record's fields. */
  type Index = map<ByteBuffer, Fields>

  /** `row.getBytes(name)`. */
  function GetBytes(row: Row, name: string): ByteBuffer
  {
    if name in row.data then row.data[name] else None
  }

  /**
   * The key that the scan of `cols` leaves behind: the value of the last column
   * whose name contains `keyName`, or `null` when no column name does.
   */
  function KeyOf(row: Row, cols: seq<string>, keyName: string): ByteBuffer
  {
    if cols == [] then None
    else if Contains(cols[|cols| - 1], keyName) then GetBytes(row, cols[|cols| - 1])
    else KeyOf(row, cols[..|cols| - 1], keyName)
  }

  function RowKey(row: Row, keyName: string): ByteBuffer
  {
    KeyOf(row, row.columns, keyName)
  }

  /** Every column of `cols` whose name does not contain `keyName`, with its value or `null`. */
  function FieldsOf(row: Row, cols: seq<string>, keyName: string): Fields
  {
    map c | c in cols && !Contains(c, keyName) :: GetBytes(row, c)
  }

  function RowFields(row: Row, keyName: string): Fields
  {
    FieldsOf(row, row.columns, keyName)
  }

  /** The index after inserting `rows` in order; a later row replaces an earlier one with the same key. */
  function IndexOf(rows: seq<Row>, keyName: string): Index
  {
    if rows == [] then map[]
    else
      var last := rows[|rows| - 1];
      IndexOf(rows[..|rows| - 1], keyName)[RowKey(last, keyName) := RowFields(last, keyName)]
  }

  /** Column `j` is the last column of `cols` whose name contains `keyName`. */
  predicate LastKeyColumn(cols: seq<string>, keyName: string, j: int)
  {
    0 <= j < |cols| && Contains(cols[j], keyName) &&
    forall m :: j < m < |cols| ==> !Contains(cols[m], keyName)
  }

  /** Row `i` is the last row of `rows` with its key. */
  predicate LastWithKey(rows: seq<Row>, keyName: string, i: int)
    requires 0 <= i < |rows|
  {
    forall j :: i < j < |rows| ==> RowKey(rows[j], keyName) != RowKey(rows[i], keyName)
  }

  /**
   * The key of a row is the value of the last column whose name contains the
   * key-column name, and `null` when there is none.
   */
  lemma {:induction false} KeyOfLastMatch(row: Row, cols: seq<string>, keyName: string)
    ensures (forall m :: 0 <= m < |cols| ==> !Contains(cols[m], keyName)) ==> KeyOf(row, cols, keyName) == None
    ensures forall j :: LastKeyColumn(cols, keyName, j) ==> KeyOf(row, cols, keyName) == GetBytes(row, cols[j])
  {
    if cols != [] {
      var n := |cols| - 1;
      var init := cols[..n];
      assert cols == init + [cols[n]];
      KeyOfLastMatch(row, init, keyName);
      if !Contains(cols[n], keyName) {
        forall j | LastKeyColumn(cols, keyName, j)
          ensures LastKeyColumn(init, keyName, j)
        {
          assert j < n;
        }
        if forall m :: 0 <= m < |cols| ==> !Contains(cols[m], keyName) {
          assert forall m :: 0 <= m < |init| ==> !Contains(init[m], keyName);
        }
      }
    }
  }

  /** The index holds exactly the keys of the rows. */
  lemma {:induction false} IndexOfKeys(rows: seq<Row>, keyName: string)
    ensures IndexOf(rows, keyName).Keys == set i | 0 <= i < |rows| :: RowKey(rows[i], keyName)
  {
    if rows != [] {
      var n := |rows| - 1;
      var init := rows[..n];
      IndexOfKeys(init, keyName);
      assert (set i | 0 <= i < |rows| :: RowKey(rows[i], keyName))
          == (set i | 0 <= i < |init| :: RowKey(init[i], keyName)) + {RowKey(rows[n], keyName)};
    }
  }

  /**
   * Last write wins: each key maps to the fields of the last row with that key.
   * Those fields hold every column of that row whose name does not contain the
   * key-column name, a column without a value as an explicit `null` entry.
   */
  lemma {:induction false} IndexOfLastWins(rows: seq<Row>, keyName: string, i: int)
    requires 0 <= i < |rows| && LastWithKey(rows, keyName, i)
    ensures RowKey(rows[i], keyName) in IndexOf(rows, keyName)
    ensures IndexOf(rows, keyName)[RowKey(rows[i], keyName)] == RowFields(rows[i], keyName)
  {
    var n := |rows| - 1;
    if i < n {
      var init := rows[..n];
      assert RowKey(rows[n], keyName) != RowKey(rows[i], keyName);
      assert LastWithKey(init, keyName, i);
      IndexOfLastWins(init, keyName, i);
    }
  }

  /** No field map of the index holds a column whose name contains the key-column name. */
  lemma {:induction false} IndexOfOmitsKeyColumns(rows: seq<Row>, keyName: string)
    ensures forall k, c :: k in IndexOf(rows, keyName) && c in IndexOf(rows, keyName)[k] ==> !Contains(c, keyName)
  {
    if rows != [] {
      IndexOfOmitsKeyColumns(rows[..|rows| - 1], keyName);
    }
  }

  /** Scanning one more column: a key column replaces the key, any other column is added to the fields. */
  lemma ColumnStep(row: Row, cols: seq<string>, keyName: string, j: int)
    requires 0 <= j < |cols|
    ensures KeyOf(row, cols[..j + 1], keyName) ==
              if Contains(cols[j], keyName) then GetBytes(row, cols[j]) else KeyOf(row, cols[..j], keyName)
    ensures FieldsOf(row, cols[..j + 1], keyName) ==
              if Contains(cols[j], keyName) then FieldsOf(row, cols[..j], keyName)
              else FieldsOf(row, cols[..j], keyName)[cols[j] := GetBytes(row, cols[j])]
  {
    assert cols[..j + 1][..j] == cols[..j];
    assert cols[..j + 1] == cols[..j] + [cols[j]];
  }

  /** Inserting one more row. */
  lemma RowStep(rows: seq<Row>, keyName: string, i: int)
    requires 0 <= i < |rows|
    ensures IndexOf(rows[..i + 1], keyName) == IndexOf(rows[..i], keyName)[RowKey(rows[i], keyName) := RowFields(rows[i], keyName)]
  {
    assert rows[..i + 1][..i] == rows[..i];
  }

  /**
   * `generateTable`: scans the rows in order and, for each, its columns in
   * order, keeping the last key-column value as the key and every other column
   * in a fresh field map, then stores that map under the key.
   */
  method BuildIndex(rows: seq<Row>, keyName: string) returns (table: Index)
    ensures table == IndexOf(rows, keyName)
  {
    table := map[];
    for i := 0 to |rows|
      invariant table == IndexOf(rows[..i], keyName)
    {
      var row := rows[i];
      var tmp: Fields := map[];
      var key: ByteBuffer := None;
      for j := 0 to |row.columns|
        invariant key == KeyOf(row, row.columns[..j], keyName)
        invariant tmp == FieldsOf(row, row.columns[..j], keyName)
      {
        var columnName := row.columns[j];
        ColumnStep(row, row.columns, keyName, j);
        if Contains(columnName, keyName) {
          key := GetBytes(row, columnName);
        } else {
          var value := GetBytes(row, columnName);
          if value.None? {
            tmp := tmp[columnName := None];
          } else {
            tmp := tmp[columnName := value];
          }
        }
      }
      assert row.columns[..|row.columns|] == row.columns;
      RowStep(rows, keyName, i);
      table := table[key := tmp];
    }
    assert rows[..|rows|] == rows;
  }
}
