/**
 * Plain values shared by every part of the hash-chain verifier: nullable byte
 * buffers, the per-record field map, the failures a verification run can end
 * with, and Java's substring test on column names.
 */
module Values {

  datatype Option<+T> = None | Some(value: T)

  /** The raw bytes of a cell or of a record key. */
  type Bytes = seq<bv8>

  /** A Java `ByteBuffer` reference: `None` stands for `null`. */
  type ByteBuffer = Option<Bytes>

  /** One record's columns, by name. A value of `None` is an explicit `null` entry. */
  type Fields = map<string, ByteBuffer>

  /**
   * `HashMap.get`: a missing name and a name mapped to `null` both read as `null`.
   */
  function Get(f: Fields, name: string): (r: ByteBuffer)
    ensures r.Some? ==> name in f && f[name] == r
  {
    if name in f then f[name] else None
  }

  /** Why a verification run did not produce a result. */
  datatype Error =
    | InvalidChainHead
      // the head obtained from the chain-head oracle is null
    | ChainCycle(path: seq<ByteBuffer>)
      // the walk met a key it had already visited; `path` is the walk up to that point
    | BlockchainBroken(key: Bytes, calculatedHash: string)
      // the recomputed hash of record `key` differs from the hash stored in it

  datatype Result<+T> = Success(value: T) | Failure(error: Error)

  /** Java `s.contains(sub)`: `sub` occurs somewhere in `s`. */
  function Contains(s: string, sub: string): bool
  {
    sub <= s || (|s| > 0 && Contains(s[1..], sub))
  }

  /** `sub` occurs in `s` starting at position `i`. */
  predicate OccursAt(s: string, sub: string, i: nat)
  {
    i + |sub| <= |s| && s[i..i + |sub|] == sub
  }

  /** Wherever `Contains` holds, `sub` occurs at some position. */
  lemma {:induction false} ContainsOccurs(s: string, sub: string) returns (i: nat)
    requires Contains(s, sub)
    ensures OccursAt(s, sub, i)
  {
    if sub <= s {
      assert s[0..|sub|] == s[..|sub|];
      i := 0;
    } else {
      var j := ContainsOccurs(s[1..], sub);
      assert s[j + 1..j + 1 + |sub|] == s[1..][j..j + |sub|];
      i := j + 1;
    }
  }

  /** An occurrence at position `i` makes `Contains` hold. */
  lemma {:induction false} OccursContains(s: string, sub: string, i: nat)
    requires OccursAt(s, sub, i)
    ensures Contains(s, sub)
  {
    if i == 0 {
      assert s[..|sub|] == s[0..|sub|];
    } else {
      assert s[1..][i - 1..i - 1 + |sub|] == s[i..i + |sub|];
      OccursContains(s[1..], sub, i - 1);
    }
  }

  /** `Contains` is the substring test: it holds exactly when `sub` occurs at some position of `s`. */
  lemma ContainsIffOccurs(s: string, sub: string)
    ensures Contains(s, sub) <==> exists i: nat :: OccursAt(s, sub, i)
  {
    if Contains(s, sub) {
      var i := ContainsOccurs(s, sub);
    }
    forall i: nat | OccursAt(s, sub, i) ensures Contains(s, sub) {
      OccursContains(s, sub, i);
    }
  }
}
