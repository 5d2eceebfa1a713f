/**
 * The hash check (second half of `validateList`): for each key of the walk,
 * oldest first, recompute the record's hash from its payload columns, its
 * timestamp and the running hash, and compare it with the hash stored in the
 * same record.
 */
module HashCheck {
  import opened Values
  import opened ChainIndex

  /**
   * The table's columns in schema order, and the name of the blockchain-ID
   * column, `null` when the handler gives none (then `equals` skips no column).
   */
  datatype Schema = Schema(columns: seq<string>, blockchainId: Option<string>)

  /**
   * Code outside the model, taken as given functions: the chain's hash
   * function, `removeEmptyCells`, and UTF-8 decoding of the stored hash.
   */
  datatype Collaborators = Collaborators(
    calculateHash: (Bytes, seq<ByteBuffer>, ByteBuffer, string) -> string,
    removeEmptyCells: seq<ByteBuffer> -> seq<ByteBuffer>,
    compose: Bytes -> string)

  /** Column `name` occurs in `cols` and is not the blockchain-ID column, so the scan reaches its branch. */
  predicate ReadsColumn(s: Schema, cols: seq<string>, name: string)
  {
    name in cols && s.blockchainId != Some(name)
  }

  /** A column that goes into the hash payload: neither the blockchain-ID, `timestamp` nor `hash`. */
  predicate IsPayloadColumn(s: Schema, c: string)
  {
    s.blockchainId != Some(c) && c != "timestamp" && c != "hash"
  }

  /** The number of payload columns among `cols`. */
  function PayloadWidth(s: Schema, cols: seq<string>): (w: nat)
    ensures w <= |cols|
  {
    if cols == [] then 0
    else PayloadWidth(s, cols[..|cols| - 1]) + (if IsPayloadColumn(s, cols[|cols| - 1]) then 1 else 0)
  }

  /** The values of the payload columns among `cols`, in that order, `null` for a missing value. */
  function Payload(f: Fields, s: Schema, cols: seq<string>): (r: seq<ByteBuffer>)
    ensures |r| == PayloadWidth(s, cols)
  {
    if cols == [] then []
    else
      var c := cols[|cols| - 1];
      Payload(f, s, cols[..|cols| - 1]) + (if IsPayloadColumn(s, c) then [Get(f, c)] else [])
  }

  function NullCells(n: nat): seq<ByteBuffer>
  {
    seq(n, _ => None)
  }

  /**
   * The contents of `valueColumns` handed to `removeEmptyCells`: the payload,
   * then `null` in every slot the payload does not fill.
   */
  function HashInput(f: Fields, s: Schema): seq<ByteBuffer>
  {
    Payload(f, s, s.columns) + NullCells(|s.columns| - PayloadWidth(s, s.columns))
  }

  /** The timestamp passed to the hash function: the record's `timestamp` value when the schema has that column. */
  function Timestamp(f: Fields, s: Schema): ByteBuffer
  {
    if ReadsColumn(s, s.columns, "timestamp") then Get(f, "timestamp") else None
  }

  /** The record's `hash` value as text, `""` when it is `null`. */
  function HashText(f: Fields, ops: Collaborators): string
  {
    if Get(f, "hash").Some? then ops.compose(Get(f, "hash").value) else ""
  }

  /** The hash a record stores, `""` when the schema has no `hash` column. */
  function StoredHash(f: Fields, s: Schema, ops: Collaborators): string
  {
    if ReadsColumn(s, s.columns, "hash") then HashText(f, ops) else ""
  }

  /** The hash recomputed for record `key` with fields `f`, chained to `previous`. */
  function Recompute(f: Fields, key: Bytes, s: Schema, ops: Collaborators, previous: string): string
  {
    ops.calculateHash(key, ops.removeEmptyCells(HashInput(f, s)), Timestamp(f, s), previous)
  }

  /** Key `k` is neither `null` nor missing from the index, so its record is checked. */
  predicate Present(table: Index, k: ByteBuffer)
  {
    k.Some? && k in table
  }

  /** The running hash after the keys `o`: the stored hash of the last present record, `""` if none. */
  function LastStored(table: Index, s: Schema, ops: Collaborators, o: seq<ByteBuffer>): string
  {
    if o == [] then ""
    else if Present(table, o[|o| - 1]) then StoredHash(table[o[|o| - 1]], s, ops)
    else LastStored(table, s, ops, o[..|o| - 1])
  }

  /** Key `k`, checked with running hash `previous`, is skipped or recomputes to its own stored hash. */
  predicate Accepts(table: Index, s: Schema, ops: Collaborators, k: ByteBuffer, previous: string)
  {
    Present(table, k) ==> Recompute(table[k], k.value, s, ops, previous) == StoredHash(table[k], s, ops)
  }

  /** Every present record of `o` recomputes to its stored hash, chained to the records before it. */
  ghost predicate ValidChain(table: Index, s: Schema, ops: Collaborators, o: seq<ByteBuffer>)
  {
    forall i :: 0 <= i < |o| ==> Accepts(table, s, ops, o[i], LastStored(table, s, ops, o[..i]))
  }

  /** Position `i` is the first record of `o` whose recomputed hash differs from its stored hash. */
  ghost predicate FirstBreak(table: Index, s: Schema, ops: Collaborators, o: seq<ByteBuffer>, i: int)
  {
    0 <= i < |o| && ValidChain(table, s, ops, o[..i]) &&
    !Accepts(table, s, ops, o[i], LastStored(table, s, ops, o[..i]))
  }

  /** The hash recomputed for position `i` of `o`. */
  function CalculatedAt(table: Index, s: Schema, ops: Collaborators, o: seq<ByteBuffer>, i: int): string
    requires 0 <= i < |o| && Present(table, o[i])
  {
    Recompute(table[o[i]], o[i].value, s, ops, LastStored(table, s, ops, o[..i]))
  }

  /** Appending one key: the chain stays valid exactly when that key is accepted, and the running hash moves to it if present. */
  lemma ValidChainExtend(table: Index, s: Schema, ops: Collaborators, o: seq<ByteBuffer>, k: ByteBuffer)
    ensures ValidChain(table, s, ops, o + [k]) <==>
              ValidChain(table, s, ops, o) && Accepts(table, s, ops, k, LastStored(table, s, ops, o))
    ensures LastStored(table, s, ops, o + [k]) ==
              if Present(table, k) then StoredHash(table[k], s, ops) else LastStored(table, s, ops, o)
  {
    var o' := o + [k];
    assert o'[..|o|] == o;
    forall i | 0 <= i < |o| ensures o'[..i] == o[..i] && o'[i] == o[i] {
    }
  }

  /** The running hash is the stored hash of the last present record, or `""` when no record is present. */
  lemma {:induction false} LastStoredIsLastPresent(table: Index, s: Schema, ops: Collaborators, o: seq<ByteBuffer>)
    ensures (forall i :: 0 <= i < |o| ==> !Present(table, o[i])) ==> LastStored(table, s, ops, o) == ""
    ensures forall i :: 0 <= i < |o| && Present(table, o[i]) && (forall j :: i < j < |o| ==> !Present(table, o[j])) ==>
              LastStored(table, s, ops, o) == StoredHash(table[o[i]], s, ops)
  {
    if o != [] {
      var n := |o| - 1;
      var init := o[..n];
      LastStoredIsLastPresent(table, s, ops, init);
      if !Present(table, o[n]) {
        forall i | 0 <= i < |o| && Present(table, o[i]) && (forall j :: i < j < |o| ==> !Present(table, o[j]))
          ensures LastStored(table, s, ops, o) == StoredHash(table[o[i]], s, ops)
        {
          assert i < n;
          assert init[i] == o[i];
          assert forall j :: i < j < |init| ==> !Present(table, init[j]);
        }
        if forall i :: 0 <= i < |o| ==> !Present(table, o[i]) {
          assert forall i :: 0 <= i < |init| ==> !Present(table, init[i]);
        }
      }
    }
  }

  /**
   * After an accepted present record the running hash is that record's stored
   * hash, which is also the hash recomputed for it.
   */
  lemma AcceptedRecordSetsRunningHash(table: Index, s: Schema, ops: Collaborators, o: seq<ByteBuffer>, i: int)
    requires ValidChain(table, s, ops, o) && 0 <= i < |o| && Present(table, o[i])
    ensures LastStored(table, s, ops, o[..i + 1]) == StoredHash(table[o[i]], s, ops)
    ensures LastStored(table, s, ops, o[..i + 1]) == CalculatedAt(table, s, ops, o, i)
  {
    assert Accepts(table, s, ops, o[i], LastStored(table, s, ops, o[..i]));
    assert o[..i + 1] == o[..i] + [o[i]];
    ValidChainExtend(table, s, ops, o[..i], o[i]);
  }

  /** A `null` key or a key missing from the index is accepted without a check and leaves the running hash as it was. */
  lemma SkippedRecordKeepsRunningHash(table: Index, s: Schema, ops: Collaborators, o: seq<ByteBuffer>, i: int)
    requires 0 <= i < |o| && !Present(table, o[i])
    ensures ValidChain(table, s, ops, o[..i + 1]) <==> ValidChain(table, s, ops, o[..i])
    ensures LastStored(table, s, ops, o[..i + 1]) == LastStored(table, s, ops, o[..i])
  {
    assert o[..i + 1] == o[..i] + [o[i]];
    ValidChainExtend(table, s, ops, o[..i], o[i]);
  }

  /** A valid prefix accepts each of its keys with the running hash of the keys before it. */
  lemma ValidChainPrefix(table: Index, s: Schema, ops: Collaborators, o: seq<ByteBuffer>, j: int, i: int)
    requires 0 <= i < j <= |o| && ValidChain(table, s, ops, o[..j])
    ensures Accepts(table, s, ops, o[i], LastStored(table, s, ops, o[..i]))
  {
    assert o[..j][i] == o[i] && o[..j][..i] == o[..i];
  }

  /** A mismatch after a valid prefix is the first break, and the whole chain is not valid. */
  lemma BreakStopsChain(table: Index, s: Schema, ops: Collaborators, o: seq<ByteBuffer>, i: int)
    requires 0 <= i < |o| && Present(table, o[i]) && ValidChain(table, s, ops, o[..i])
    requires CalculatedAt(table, s, ops, o, i) != StoredHash(table[o[i]], s, ops)
    ensures FirstBreak(table, s, ops, o, i)
    ensures !ValidChain(table, s, ops, o)
  {
    assert !Accepts(table, s, ops, o[i], LastStored(table, s, ops, o[..i]));
  }

  /** There is at most one first break. */
  lemma FirstBreakIsUnique(table: Index, s: Schema, ops: Collaborators, o: seq<ByteBuffer>, i: int, j: int)
    requires FirstBreak(table, s, ops, o, i) && FirstBreak(table, s, ops, o, j)
    ensures i == j
  {
    if i < j {
      ValidChainPrefix(table, s, ops, o, j, i);
    } else if j < i {
      ValidChainPrefix(table, s, ops, o, i, j);
    }
  }

  /** The first break, and the hash reported for it, depend on no record after it. */
  lemma BreakIgnoresLaterRecords(table: Index, s: Schema, ops: Collaborators, o: seq<ByteBuffer>, o': seq<ByteBuffer>, i: int)
    requires FirstBreak(table, s, ops, o, i)
    requires i < |o'| && o'[..i + 1] == o[..i + 1]
    ensures FirstBreak(table, s, ops, o', i) && Present(table, o'[i])
    ensures CalculatedAt(table, s, ops, o', i) == CalculatedAt(table, s, ops, o, i)
  {
    assert o'[i] == o'[..i + 1][i] == o[..i + 1][i] == o[i];
    assert o'[..i] == o'[..i + 1][..i] == o[..i + 1][..i] == o[..i];
  }

  /** The payload width of a prefix is at most that of the whole. */
  lemma {:induction false} PayloadWidthMonotone(s: Schema, cols: seq<string>, j: nat)
    requires j <= |cols|
    ensures PayloadWidth(s, cols[..j]) <= PayloadWidth(s, cols)
  {
    if j < |cols| {
      var init := cols[..|cols| - 1];
      assert init[..j] == cols[..j];
      PayloadWidthMonotone(s, init, j);
    } else {
      assert cols[..j] == cols;
    }
  }

  /**
   * The payload holds the value of each payload column at the position given
   * by the number of payload columns before it: exactly the record's values of
   * those columns in schema order, a missing value as an explicit `null`.
   */
  lemma {:induction false} PayloadAt(f: Fields, s: Schema, cols: seq<string>, j: int)
    requires 0 <= j < |cols| && IsPayloadColumn(s, cols[j])
    ensures PayloadWidth(s, cols[..j]) < |Payload(f, s, cols)|
    ensures Payload(f, s, cols)[PayloadWidth(s, cols[..j])] == Get(f, cols[j])
  {
    var n := |cols| - 1;
    var init := cols[..n];
    if j < n {
      assert init[..j] == cols[..j];
      PayloadAt(f, s, init, j);
    } else {
      assert init == cols[..j];
    }
  }

  /**
   * Two records that differ in the value of one payload column of the schema
   * hand different inputs to `removeEmptyCells`.
   */
  lemma {:induction false} PayloadSeesEveryColumn(f: Fields, g: Fields, s: Schema, cols: seq<string>, c: string)
    requires c in cols && IsPayloadColumn(s, c) && Get(f, c) != Get(g, c)
    ensures Payload(f, s, cols) != Payload(g, s, cols)
  {
    var n := |cols| - 1;
    var init := cols[..n];
    var pf, pg := Payload(f, s, init), Payload(g, s, init);
    if cols[n] == c {
      assert Payload(f, s, cols)[|pf|] == Get(f, c);
      assert Payload(g, s, cols)[|pg|] == Get(g, c);
    } else {
      assert c in init;
      PayloadSeesEveryColumn(f, g, s, init, c);
      assert Payload(f, s, cols)[..|pf|] == pf;
      assert Payload(g, s, cols)[..|pg|] == pg;
    }
  }

  lemma HashInputSeesEveryColumn(f: Fields, g: Fields, s: Schema, c: string)
    requires c in s.columns && IsPayloadColumn(s, c) && Get(f, c) != Get(g, c)
    ensures HashInput(f, s) != HashInput(g, s)
  {
    PayloadSeesEveryColumn(f, g, s, s.columns, c);
    var w := PayloadWidth(s, s.columns);
    assert HashInput(f, s)[..w] == Payload(f, s, s.columns);
    assert HashInput(g, s)[..w] == Payload(g, s, s.columns);
  }

  /** The value `timestamp` holds after the scan of `cols`, starting from `t`. */
  function TimestampAfter(f: Fields, s: Schema, cols: seq<string>, t: ByteBuffer): ByteBuffer
  {
    if cols == [] then t
    else
      var c := cols[|cols| - 1];
      if s.blockchainId != Some(c) && c == "timestamp" then Get(f, c) else TimestampAfter(f, s, cols[..|cols| - 1], t)
  }

  /** The value `lastHash` holds after the scan of `cols`, starting from `h`. */
  function HashAfter(f: Fields, s: Schema, ops: Collaborators, cols: seq<string>, h: string): string
  {
    if cols == [] then h
    else
      var c := cols[|cols| - 1];
      if s.blockchainId != Some(c) && c != "timestamp" && c == "hash" then HashText(f, ops) else HashAfter(f, s, ops, cols[..|cols| - 1], h)
  }

  /** Scanning one more column. */
  lemma ScanStep(f: Fields, s: Schema, ops: Collaborators, cols: seq<string>, j: int, t: ByteBuffer, h: string)
    requires 0 <= j < |cols|
    ensures TimestampAfter(f, s, cols[..j + 1], t) ==
              if s.blockchainId != Some(cols[j]) && cols[j] == "timestamp" then Get(f, cols[j]) else TimestampAfter(f, s, cols[..j], t)
    ensures HashAfter(f, s, ops, cols[..j + 1], h) ==
              if s.blockchainId != Some(cols[j]) && cols[j] != "timestamp" && cols[j] == "hash" then HashText(f, ops) else HashAfter(f, s, ops, cols[..j], h)
  {
    assert cols[..j + 1][..j] == cols[..j];
  }

  /** After the whole scan, `timestamp` and `lastHash` hold the record's values exactly when the schema has those columns. */
  lemma {:induction false} ScanResult(f: Fields, s: Schema, ops: Collaborators, cols: seq<string>, t: ByteBuffer, h: string)
    ensures TimestampAfter(f, s, cols, t) == if ReadsColumn(s, cols, "timestamp") then Get(f, "timestamp") else t
    ensures HashAfter(f, s, ops, cols, h) == if ReadsColumn(s, cols, "hash") then HashText(f, ops) else h
  {
    if cols != [] {
      var init := cols[..|cols| - 1];
      ScanResult(f, s, ops, init, t, h);
      assert cols == init + [cols[|cols| - 1]];
    }
  }

  /** Extending the scanned columns by one adds that column's value to the payload when it is a payload column. */
  lemma PayloadStep(f: Fields, s: Schema, cols: seq<string>, j: int)
    requires 0 <= j < |cols|
    ensures Payload(f, s, cols[..j + 1]) == Payload(f, s, cols[..j]) + (if IsPayloadColumn(s, cols[j]) then [Get(f, cols[j])] else [])
    ensures PayloadWidth(s, cols[..j + 1]) == PayloadWidth(s, cols[..j]) + (if IsPayloadColumn(s, cols[j]) then 1 else 0)
  {
    assert cols[..j + 1][..j] == cols[..j];
  }

  /** A buffer of schema length holding the payload in front and `null` behind it is the hash input. */
  lemma FilledIsHashInput(f: Fields, s: Schema, cells: seq<ByteBuffer>)
    requires |cells| == |s.columns|
    requires cells[..PayloadWidth(s, s.columns)] == Payload(f, s, s.columns)
    requires forall m :: PayloadWidth(s, s.columns) <= m < |cells| ==> cells[m] == None
    ensures cells == HashInput(f, s)
  {
    var w := PayloadWidth(s, s.columns);
    assert cells == cells[..w] + cells[w..];
    assert cells[w..] == NullCells(|s.columns| - w);
  }

  /**
   * `cells`, the contents of `valueColumns` after the scan of `s.columns[..j]`
   * with counter `c`: the payload so far in front, `null` behind the full payload.
   */
  predicate Filled(f: Fields, s: Schema, cells: seq<ByteBuffer>, j: int, c: int)
  {
    0 <= j <= |s.columns| && |cells| == |s.columns| && c == PayloadWidth(s, s.columns[..j]) &&
    cells[..c] == Payload(f, s, s.columns[..j]) &&
    forall m :: PayloadWidth(s, s.columns) <= m < |cells| ==> cells[m] == None
  }

  /** A column that is not a payload column leaves the buffer and the counter as they are. */
  lemma SkipStep(f: Fields, s: Schema, cells: seq<ByteBuffer>, j: int, c: int)
    requires j < |s.columns| && Filled(f, s, cells, j, c) && !IsPayloadColumn(s, s.columns[j])
    ensures Filled(f, s, cells, j + 1, c)
  {
    PayloadStep(f, s, s.columns, j);
  }

  /** A payload column writes its value into slot `c`, which lies in front of the `null` tail. */
  lemma WriteStep(f: Fields, s: Schema, cells: seq<ByteBuffer>, j: int, c: int)
    requires j < |s.columns| && Filled(f, s, cells, j, c) && IsPayloadColumn(s, s.columns[j])
    ensures c < |cells|
    ensures Filled(f, s, cells[c := Get(f, s.columns[j])], j + 1, c + 1)
  {
    PayloadStep(f, s, s.columns, j);
    PayloadWidthMonotone(s, s.columns, j + 1);
    var cells' := cells[c := Get(f, s.columns[j])];
    assert cells'[..c + 1] == cells[..c] + [Get(f, s.columns[j])];
  }

  /**
   * The inner loop of `validateList` over the schema columns of a record: the
   * payload columns fill `valueColumns` from the front, and the record's
   * timestamp and stored hash are read where the schema has those columns;
   * otherwise `timestamp` and `lastHash` keep the values they had.
   */
  method ScanColumns(fields: Fields, s: Schema, ops: Collaborators, valueColumns: array<ByteBuffer>,
                     timestampIn: ByteBuffer, lastHashIn: string)
    returns (timestamp: ByteBuffer, lastHash: string)
    requires valueColumns.Length == |s.columns|
    requires forall m :: PayloadWidth(s, s.columns) <= m < valueColumns.Length ==> valueColumns[m] == None
    modifies valueColumns
    ensures valueColumns[..] == HashInput(fields, s)
    ensures forall m :: PayloadWidth(s, s.columns) <= m < valueColumns.Length ==> valueColumns[m] == None
    ensures timestamp == if ReadsColumn(s, s.columns, "timestamp") then Get(fields, "timestamp") else timestampIn
    ensures lastHash == if ReadsColumn(s, s.columns, "hash") then HashText(fields, ops) else lastHashIn
  {
    timestamp, lastHash := timestampIn, lastHashIn;
    var cvcounter := 0;
    for j := 0 to |s.columns|
      invariant Filled(fields, s, valueColumns[..], j, cvcounter)
      invariant timestamp == TimestampAfter(fields, s, s.columns[..j], timestampIn)
      invariant lastHash == HashAfter(fields, s, ops, s.columns[..j], lastHashIn)
    {
      var name := s.columns[j];
      ScanStep(fields, s, ops, s.columns, j, timestampIn, lastHashIn);
      if s.blockchainId == Some(name) {
        // the blockchain-ID column takes no part in the hash
        SkipStep(fields, s, valueColumns[..], j, cvcounter);
      } else if name == "timestamp" {
        SkipStep(fields, s, valueColumns[..], j, cvcounter);
        timestamp := Get(fields, name);
      } else if name == "hash" {
        SkipStep(fields, s, valueColumns[..], j, cvcounter);
        if Get(fields, name).Some? {
          lastHash := ops.compose(Get(fields, name).value);
        } else {
          lastHash := "";
        }
      } else {
        WriteStep(fields, s, valueColumns[..], j, cvcounter);
        ghost var before := valueColumns[..];
        valueColumns[cvcounter] := Get(fields, name);
        assert valueColumns[..] == before[cvcounter := Get(fields, name)];
        cvcounter := cvcounter + 1;
      }
    }
    assert s.columns[..|s.columns|] == s.columns;
    ScanResult(fields, s, ops, s.columns, timestampIn, lastHashIn);
    FilledIsHashInput(fields, s, valueColumns[..]);
  }

  /**
   * The values the column scan leaves for a present record are those the
   * specification recomputes and stores for it.
   */
  lemma RecordHashes(table: Index, s: Schema, ops: Collaborators, o: seq<ByteBuffer>, i: int,
                     cells: seq<ByteBuffer>, timestamp: ByteBuffer, lastHash: string)
    requires 0 <= i < |o| && Present(table, o[i]) && cells == HashInput(table[o[i]], s)
    requires timestamp == Timestamp(table[o[i]], s) && lastHash == StoredHash(table[o[i]], s, ops)
    ensures ops.calculateHash(o[i].value, ops.removeEmptyCells(cells), timestamp, LastStored(table, s, ops, o[..i])) ==
              CalculatedAt(table, s, ops, o, i)
  {
  }

  /**
   * The hash loop of `validateList`. It succeeds exactly when the chain is
   * valid, with the running hash after the last key; otherwise it fails at the
   * first break, with that record's key and the hash recomputed for it.
   */
  method CheckChain(table: Index, s: Schema, ops: Collaborators, order: seq<ByteBuffer>) returns (r: Result<string>)
    ensures r.Success? <==> ValidChain(table, s, ops, order)
    ensures r.Success? ==> r.value == LastStored(table, s, ops, order)
    ensures r.Failure? ==>
              (exists i :: FirstBreak(table, s, ops, order, i) && Present(table, order[i]) &&
                 r.error == BlockchainBroken(order[i].value, CalculatedAt(table, s, ops, order, i)))
  {
    var valueColumns := new ByteBuffer[|s.columns|](_ => None);
    var timestamp: ByteBuffer := None;
    var hash := "";
    var lastHash := "";
    for i := 0 to |order|
      invariant hash == LastStored(table, s, ops, order[..i])
      invariant ValidChain(table, s, ops, order[..i])
      invariant !ReadsColumn(s, s.columns, "timestamp") ==> timestamp == None
      invariant !ReadsColumn(s, s.columns, "hash") ==> lastHash == ""
      invariant forall m :: PayloadWidth(s, s.columns) <= m < valueColumns.Length ==> valueColumns[m] == None
    {
      var orderedKey := order[i];
      assert order[..i + 1] == order[..i] + [orderedKey];
      ValidChainExtend(table, s, ops, order[..i], orderedKey);
      if orderedKey.None? {
        continue;
      }
      if orderedKey !in table {
        continue;
      }
      var fields := table[orderedKey];
      timestamp, lastHash := ScanColumns(fields, s, ops, valueColumns, timestamp, lastHash);
      var calculatedHash := ops.calculateHash(orderedKey.value, ops.removeEmptyCells(valueColumns[..]), timestamp, hash);
      RecordHashes(table, s, ops, order, i, valueColumns[..], timestamp, lastHash);
      if calculatedHash != lastHash {
        BreakStopsChain(table, s, ops, order, i);
        return Failure(BlockchainBroken(orderedKey.value, calculatedHash));
      }
      hash := lastHash;
    }
    assert order[..|order|] == order;
    return Success(hash);
  }
}
