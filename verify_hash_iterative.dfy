/**
 * The entry point `verify`: build the index from the table scan, walk the
 * chain from its head, check every hash, and compare the final running hash
 * with the trusted predecessor hash.
 */
module VerifyHashIterative {
  import opened Values
  import opened ChainIndex
  import opened ChainWalk
  import opened HashCheck

  /**
   * `verify`. The rows, the first partition-key column name and the schema are
   * what the table scan and the schema load provide; `head`, `term` and
   * `trusted` are what the chain-head oracle provides.
   *
   * A `null` head fails with `InvalidChainHead`. When the walk from the head
   * completes, the run succeeds exactly when that chain is valid, and then
   * answers whether its final running hash equals the trusted one (never when
   * that is `null`); a broken chain fails with `BlockchainBroken` at its first
   * break instead of answering false. A run fails with `ChainCycle` exactly
   * when the walk from a non-null head never ends.
   */
  method Verify(rows: seq<Row>, keyName: string, s: Schema, ops: Collaborators,
                head: ByteBuffer, term: ByteBuffer, trusted: Option<string>) returns (r: Result<bool>)
    ensures head.None? <==> r == Failure(InvalidChainHead)
    ensures head.Some? ==> forall o: seq<ByteBuffer> :: IsWalk(IndexOf(rows, keyName), head.value, term, o) ==>
              && (r.Success? <==> ValidChain(IndexOf(rows, keyName), s, ops, o))
              && (r.Success? ==> r.value == (trusted == Some(LastStored(IndexOf(rows, keyName), s, ops, o))))
              && (r.Failure? ==>
                    exists i: int :: FirstBreak(IndexOf(rows, keyName), s, ops, o, i) && Present(IndexOf(rows, keyName), o[i]) &&
                      r.error == BlockchainBroken(o[i].value, CalculatedAt(IndexOf(rows, keyName), s, ops, o, i)))
    ensures r.Success? ==>
              head.Some? &&
              exists o: seq<ByteBuffer> :: IsWalk(IndexOf(rows, keyName), head.value, term, o) && ValidChain(IndexOf(rows, keyName), s, ops, o)
    ensures r.Failure? && r.error.ChainCycle? ==> head.Some? && IsCycle(IndexOf(rows, keyName), head.value, term, r.error.path)
    ensures r.Failure? && r.error.BlockchainBroken? ==>
              head.Some? && exists o: seq<ByteBuffer> :: IsWalk(IndexOf(rows, keyName), head.value, term, o)
    ensures head.Some? && (forall o: seq<ByteBuffer> :: !IsWalk(IndexOf(rows, keyName), head.value, term, o)) ==>
              r.Failure? && r.error.ChainCycle?
  {
    var table := BuildIndex(rows, keyName);
    var order := Walk(table, head, term);
    if order.Failure? {
      return Failure(order.error);
    }
    var calculatedHash := CheckChain(table, s, ops, order.value);
    if calculatedHash.Failure? {
      return Failure(calculatedHash.error);
    }
    return Success(trusted == Some(calculatedHash.value));
  }
}
