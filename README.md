# Hash-chain verification of a blockchain table

This project models, in Dafny, how the Cassandra blockchain extension checks
that a table's records form an unbroken hash chain
(`VerifyHashIterative.verify`), and proves what it guarantees. The check has
three steps:

1. **Index build** (`generateTable`, module `ChainIndex`). Each row of the
   table scan becomes an entry from its key to a map of its other columns. The
   key column is found with a substring test: any column whose name *contains*
   the first partition-key column name. If several columns match, the last one
   wins. If none matches, the key is `null`. Every other column goes into the
   field map, and a column without a value becomes an explicit `null` entry.
   A later row with the same key replaces an earlier one.
2. **Chain walk** (first half of `validateList`, module `ChainWalk`). The walk
   starts at the chain head and follows each record's `predecessor` field,
   prepending every key it visits, so the result is oldest first and ends with
   the head. The walk stops at a key that has no record (that key is still
   included). It also stops when the next predecessor is `null` or equals the
   terminator ("null block").
3. **Hash check** (second half of `validateList`, module `HashCheck`). The
   check takes each key of the walk in order; a `null` key or a key with no
   record is skipped. For each remaining record it scans the schema columns in
   order:
   - it skips the blockchain-ID column;
   - it reads `timestamp` separately;
   - it reads `hash`, UTF-8 decoded, as the stored hash (`""` when null);
   - it puts every other column, `predecessor` included, into the reused
     `valueColumns` array.

   It then recomputes `calculateHash(key, removeEmptyCells(valueColumns),
   timestamp, runningHash)`. The result must equal the stored hash of the same
   record, or the check fails with `BlockchainBroken(key, calculatedHash)`.
   Otherwise the running hash, which starts at `""`, becomes that stored hash.

`verify` (module `VerifyHashIterative`) returns whether the final running hash
equals the trusted predecessor hash.

The model is written the way the Java works: methods with loops over sequences
and maps, and the `valueColumns` array filled by a counter. Each method is
proved against specification functions and predicates:
- `IndexOf` for the index;
- `IsWalk` and `IsCycle` for the walk;
- `Payload`, `HashInput`, `LastStored`, `ValidChain` and `FirstBreak` for the
  hash check.

Lemmas state what those mean. Examples: last write wins, the walk is unique
and visits no key twice, the running hash is the last present record's stored
hash, and a break is reported at the first bad record.

Modelling choices:
- A Java `ByteBuffer` reference is `Option<seq<bv8>>`, with `None` standing for
  `null`. `HashMap.get` returns `null` both for a missing name and for a name
  mapped to `null`; `Values.Get` does the same.
- `calculateHash`, `removeEmptyCells` and `UTF8Type.compose` are given
  functions (fields of `HashCheck.Collaborators`). Nothing is assumed about
  them: the model neither assumes nor excludes that `removeEmptyCells` drops
  nulls.
- The chain head, the terminator, the trusted predecessor hash, the
  blockchain-ID column name, the first partition-key column name, the rows and
  the ordered schema columns are parameters.
- The terminator, the blockchain-ID column name and the trusted hash come from
  `BlockchainHandler` and may be `null` (`Option`). `equals` against `null` is
  false in Java. So a `null` terminator stops the walk only at a `null`
  predecessor or a missing record, a `null` ID name skips no column, and a
  `null` trusted hash makes `verify` answer false.
- The static `table` field is the value `BuildIndex` returns. `Verify` passes
  it to the walk and to the hash check, which are the only readers.
- `assert key != null` (line 120) is taken with assertions enabled: a `null`
  head fails with `InvalidChainHead`.
- **Modelling addition:** the Java walk (lines 122-135) has no cycle guard and
  loops forever on a predecessor cycle. `ChainWalk.Walk` keeps a set of
  visited keys and fails with `ChainCycle(path)` when it meets a key a second
  time. `ChainWalk.CycleExcludesWalk` proves that this happens only where no
  finished walk exists, that is, only where the Java loop never ends. On every
  input where the Java loop ends, the model returns the same list.

What the code does, where a reader might expect otherwise:
- Each record's recomputed hash is compared with the hash stored in the same
  record: `lastHash` is read at line 174 and compared at line 188 in the same
  iteration. There is no one-step lag.
- `BlockchainBrokenException` carries only the key and the recomputed hash
  (line 190), not the stored hash.
- The key column is found by the substring test at line 83, not by an exact
  name match.

## Model

| member | source | states |
|---|---|---|
| `Values.Get` | src/java/org/apache/cassandra/blockchain/VerifyHashIterative.java:133 | `HashMap.get`: a non-null result is the value stored under that name; a missing name reads as `null` |
| `Values.ContainsIffOccurs` | src/java/org/apache/cassandra/blockchain/VerifyHashIterative.java:83 | the column-name test `Contains` holds exactly when the key-column name occurs as a substring at some position |
| `ChainIndex.KeyOfLastMatch` | src/java/org/apache/cassandra/blockchain/VerifyHashIterative.java:79-86 | a row's key is the value of the last column whose name contains the key-column name, and `null` when no column name does |
| `ChainIndex.IndexOfKeys` | src/java/org/apache/cassandra/blockchain/VerifyHashIterative.java:74-100 | the index's keys are exactly the keys of the rows |
| `ChainIndex.IndexOfLastWins` | src/java/org/apache/cassandra/blockchain/VerifyHashIterative.java:74-100 | the key of the last row with a given key maps to that row's field map: last write wins |
| `ChainIndex.IndexOfOmitsKeyColumns` | src/java/org/apache/cassandra/blockchain/VerifyHashIterative.java:83-97 | no field map in the index holds a column whose name contains the key-column name |
| `ChainIndex.BuildIndex` | src/java/org/apache/cassandra/blockchain/VerifyHashIterative.java:56-100 | the nested loops over rows and columns produce `IndexOf(rows, keyName)` |
| `ChainWalk.WalkShape` | src/java/org/apache/cassandra/blockchain/VerifyHashIterative.java:122-135 | in a finished walk: the oldest key has no record or its predecessor is `null` or the terminator; no key is `null`; no key but the head is the terminator; each key but the oldest has a record whose predecessor is the key before it |
| `ChainWalk.ThreeRecordWalk` | src/java/org/apache/cassandra/blockchain/VerifyHashIterative.java:122-135 | three records linked 1 <- 2 <- 3 with head 3 walk to the list 1, 2, 3 |
| `ChainWalk.WalkIsDuplicateFree` | src/java/org/apache/cassandra/blockchain/VerifyHashIterative.java:122-135 | a finished walk visits no key twice |
| `ChainWalk.WalkIsUnique` | src/java/org/apache/cassandra/blockchain/VerifyHashIterative.java:122-135 | there is at most one finished walk from a given head |
| `ChainWalk.CycleExcludesWalk` | src/java/org/apache/cassandra/blockchain/VerifyHashIterative.java:122-135 | if the predecessors from the head lead back to a key already visited, no finished walk from that head exists (the Java loop does not end) |
| `ChainWalk.Walk` | src/java/org/apache/cassandra/blockchain/VerifyHashIterative.java:117-135 | fails with `InvalidChainHead` exactly when the head is `null`; on success returns the finished walk, head last and oldest first; fails with `ChainCycle` only with a path proving the walk never ends; whenever a finished walk exists, returns exactly it |
| `HashCheck.Payload` | src/java/org/apache/cassandra/blockchain/VerifyHashIterative.java:159-185 | the payload has one entry per payload column of the scanned columns |
| `HashCheck.PayloadAt` | src/java/org/apache/cassandra/blockchain/VerifyHashIterative.java:181-184 | each column other than blockchain-ID, `timestamp` and `hash` puts its value (explicit `null` if absent) at the position given by the number of such columns before it, so the payload is those values in schema order |
| `HashCheck.HashInputSeesEveryColumn` | src/java/org/apache/cassandra/blockchain/VerifyHashIterative.java:181-186 | two records that differ in one payload column of the schema give different arrays to `removeEmptyCells` |
| `HashCheck.FilledIsHashInput` | src/java/org/apache/cassandra/blockchain/VerifyHashIterative.java:144-186 | the reused `valueColumns` array, with the payload in front and `null` behind it, is exactly the hash input |
| `HashCheck.ScanResult` | src/java/org/apache/cassandra/blockchain/VerifyHashIterative.java:159-177 | after a scan of the columns in order, `timestamp` holds the record's `timestamp` value, and `lastHash` its decoded `hash` value (`""` for `null`), exactly when the scanned columns include that column and it is not the blockchain-ID column; otherwise each keeps the value it had before the scan |
| `HashCheck.ScanColumns` | src/java/org/apache/cassandra/blockchain/VerifyHashIterative.java:157-185 | one scan of the schema leaves the hash input in `valueColumns`, and the record's timestamp and stored hash where the schema has those columns (or the old values where it has not) |
| `HashCheck.ValidChainExtend` | src/java/org/apache/cassandra/blockchain/VerifyHashIterative.java:153-193 | adding one key keeps the chain valid exactly when that key is accepted with the current running hash; the running hash then moves to that record's stored hash if present |
| `HashCheck.SkippedRecordKeepsRunningHash` | src/java/org/apache/cassandra/blockchain/VerifyHashIterative.java:155-156 | a `null` key or a key without a record causes no error and leaves the running hash unchanged |
| `HashCheck.AcceptedRecordSetsRunningHash` | src/java/org/apache/cassandra/blockchain/VerifyHashIterative.java:186-192 | after an accepted record the running hash equals that record's stored hash, which equals its recomputed hash |
| `HashCheck.LastStoredIsLastPresent` | src/java/org/apache/cassandra/blockchain/VerifyHashIterative.java:147-195 | the running hash is the stored hash of the last present record, or `""` when no record is present |
| `HashCheck.BreakStopsChain` | src/java/org/apache/cassandra/blockchain/VerifyHashIterative.java:186-191 | a mismatch after a valid prefix is the first break, and the whole chain is then invalid |
| `HashCheck.FirstBreakIsUnique` | src/java/org/apache/cassandra/blockchain/VerifyHashIterative.java:186-191 | a chain has at most one first break |
| `HashCheck.BreakIgnoresLaterRecords` | src/java/org/apache/cassandra/blockchain/VerifyHashIterative.java:188-191 | the first break and the hash reported for it do not depend on any record after it |
| `HashCheck.CheckChain` | src/java/org/apache/cassandra/blockchain/VerifyHashIterative.java:144-195 | succeeds exactly when every present record recomputes to its own stored hash with the running hash of the records before it, returning the last present record's stored hash; otherwise fails at the first break with that key and its recomputed hash |
| `VerifyHashIterative.Verify` | src/java/org/apache/cassandra/blockchain/VerifyHashIterative.java:43-54 | fails with `InvalidChainHead` exactly when the head is `null`; when the walk finishes, the run succeeds exactly when the chain is valid and then answers whether the trusted hash is non-null and equals the final hash; a broken chain fails with `BlockchainBroken` at the first break rather than answering false, and only after a finished walk; it fails with `ChainCycle` whenever no finished walk exists, with a path proving the walk never ends |

## Left out

- Console output (`System.out.println`, `printFormated`, lines 46, 62-66, 124, 132, 137-141): it has no effect on results.
- The CQL query `FormatHelper.executeQuery` (line 59) and the schema load `setTableName`/`loadMetadata` (lines 47-48): the rows, the schema columns and the first partition-key column name are parameters. The case of a table with no partition-key column (line 72 on an empty list) is not modelled.
- `BlockchainHandler` (`calculateHash`, `getBlockChainHead`, `getNullBlock`, `getPredecessorHash`, `getBlockchainIDString`): outside this model; their results or the functions themselves are parameters.
- `removeEmptyCells` and `UTF8Type.compose`: given functions with no assumed properties. `removeEmptyCells` is taken as a function of the array's contents that does not write into the array.
- `calculateHash` is taken to return a non-`null` string. A `null` result would throw `NullPointerException` at line 188; the model has no such failure.
- `getNullBlock` is called once per loop test at line 135; the model takes it as one fixed value for the whole walk.
- Running with Java assertions disabled: line 120 would then let a `null` head through. The model always fails on a `null` head.
- `ByteBuffer` position and limit: keys and values are plain byte sequences compared by content.
- Allocation and sharing of the static `table` field between runs. The model builds a fresh index per run and threads it explicitly.
- Exceptions the collaborators themselves might throw, and the cryptographic strength of the hash.
