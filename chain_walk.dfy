/**
 * The chain walk (first half of `validateList`): from the head key, follow each
 * record's `predecessor` field back to the terminator, prepending every key
 * visited, so that the result runs from the oldest record to the head.
 */
module ChainWalk {
  import opened Values
  import opened ChainIndex

  /** The `predecessor` field of a record, `null` when the record has none. */
  function Predecessor(f: Fields): ByteBuffer
  {
    Get(f, "predecessor")
  }

  /**
   * The walk ends at key `k`: `k` has no record, or the record's predecessor
   * is `null` or equals the terminator. `equals` is false for a `null`
   * terminator, so then only a `null` predecessor or a missing record stops it.
   */
  predicate Stops(table: Index, term: ByteBuffer, k: ByteBuffer)
  {
    k !in table || Predecessor(table[k]).None? || Predecessor(table[k]) == term
  }

  /** Each element after the first is a record the walk goes on from, to the element before it. */
  ghost predicate Linked(table: Index, term: ByteBuffer, o: seq<ByteBuffer>)
  {
    forall i :: 1 <= i < |o| ==> !Stops(table, term, o[i]) && Predecessor(table[o[i]]) == o[i - 1]
  }

  /**
   * `o` is the completed walk from `head`: the head is last, the key before
   * each element is the predecessor stored in that element's record, and the
   * walk stops at the oldest element.
   */
  ghost predicate IsWalk(table: Index, head: Bytes, term: ByteBuffer, o: seq<ByteBuffer>)
  {
    |o| > 0 && o[|o| - 1] == Some(head) && Linked(table, term, o) && Stops(table, term, o[0])
  }

  /**
   * `p` is a walk from `head` that has not stopped and whose next key is
   * already in `p`: following predecessors from `head` never stops.
   */
  ghost predicate IsCycle(table: Index, head: Bytes, term: ByteBuffer, p: seq<ByteBuffer>)
  {
    |p| > 0 && p[|p| - 1] == Some(head) && Linked(table, term, p) &&
    !Stops(table, term, p[0]) && Predecessor(table[p[0]]) in p
  }

  /**
   * Read from the oldest element: it has no record, or its predecessor is
   * `null` or the terminator; no element is `null`, and none but the head is
   * the terminator.
   */
  lemma WalkShape(table: Index, head: Bytes, term: ByteBuffer, o: seq<ByteBuffer>)
    requires IsWalk(table, head, term, o)
    ensures o[0] !in table || Predecessor(table[o[0]]) == None || Predecessor(table[o[0]]) == term
    ensures forall i :: 0 <= i < |o| ==> o[i].Some?
    ensures forall i :: 0 <= i < |o| - 1 ==> o[i] != term
    ensures forall i :: 1 <= i < |o| ==> o[i] in table && Predecessor(table[o[i]]) == o[i - 1]
  {
    forall i | 0 <= i < |o| - 1 ensures o[i].Some? && o[i] != term {
      assert !Stops(table, term, o[i + 1]);
    }
  }

  /**
   * Records 1 <- 2 <- 3 with head 3, whose oldest record points at the
   * terminator, walk to 1, 2, 3, oldest first.
   */
  lemma ThreeRecordWalk()
    ensures var term, k1, k2, k3 := [0 as bv8], [1 as bv8], [2 as bv8], [3 as bv8];
            var table := map[Some(k1) := map["predecessor" := Some(term)],
                             Some(k2) := map["predecessor" := Some(k1)],
                             Some(k3) := map["predecessor" := Some(k2)]];
            IsWalk(table, k3, Some(term), [Some(k1), Some(k2), Some(k3)])
  {
  }

  /** Two linked sequences that end at the same key agree, counted back from that end. */
  lemma {:induction false} LinkedSuffixesAgree(table: Index, term: ByteBuffer, a: seq<ByteBuffer>, b: seq<ByteBuffer>, j: nat)
    requires Linked(table, term, a) && Linked(table, term, b)
    requires |a| > 0 && |b| > 0 && a[|a| - 1] == b[|b| - 1]
    requires j < |a| && j < |b|
    ensures a[|a| - 1 - j] == b[|b| - 1 - j]
  {
    if j > 0 {
      LinkedSuffixesAgree(table, term, a, b, j - 1);
      assert Predecessor(table[a[|a| - j]]) == a[|a| - 1 - j];
      assert Predecessor(table[b[|b| - j]]) == b[|b| - 1 - j];
    }
  }

  /** A key that occurs twice in a stopped linked sequence would make the walk go on from its oldest element. */
  lemma {:induction false} StoppedHasNoRepeat(table: Index, term: ByteBuffer, o: seq<ByteBuffer>, a: nat, b: nat)
    requires Linked(table, term, o) && |o| > 0 && Stops(table, term, o[0])
    requires a < b < |o|
    ensures o[a] != o[b]
  {
    if a > 0 {
      StoppedHasNoRepeat(table, term, o, a - 1, b - 1);
      assert Predecessor(table[o[a]]) == o[a - 1];
      assert Predecessor(table[o[b]]) == o[b - 1];
    } else {
      assert !Stops(table, term, o[b]);
    }
  }

  /** A completed walk visits no key twice. */
  lemma WalkIsDuplicateFree(table: Index, head: Bytes, term: ByteBuffer, o: seq<ByteBuffer>)
    requires IsWalk(table, head, term, o)
    ensures forall a, b :: 0 <= a < b < |o| ==> o[a] != o[b]
  {
    forall a, b | 0 <= a < b < |o| ensures o[a] != o[b] {
      StoppedHasNoRepeat(table, term, o, a, b);
    }
  }

  /** The completed walk from a head is unique. */
  lemma WalkIsUnique(table: Index, head: Bytes, term: ByteBuffer, o1: seq<ByteBuffer>, o2: seq<ByteBuffer>)
    requires IsWalk(table, head, term, o1) && IsWalk(table, head, term, o2)
    ensures o1 == o2
  {
    var n1, n2 := |o1|, |o2|;
    if n1 < n2 {
      LinkedSuffixesAgree(table, term, o1, o2, n1 - 1);
    } else if n2 < n1 {
      LinkedSuffixesAgree(table, term, o1, o2, n2 - 1);
    } else {
      forall k | 0 <= k < n1 ensures o1[k] == o2[k] {
        LinkedSuffixesAgree(table, term, o1, o2, n1 - 1 - k);
      }
    }
  }

  /** A cycle from a head and a completed walk from the same head cannot both exist. */
  lemma CycleExcludesWalk(table: Index, head: Bytes, term: ByteBuffer, p: seq<ByteBuffer>, o: seq<ByteBuffer>)
    requires IsCycle(table, head, term, p)
    ensures !IsWalk(table, head, term, o)
  {
    if IsWalk(table, head, term, o) {
      var n, m := |o|, |p|;
      if n <= m {
        LinkedSuffixesAgree(table, term, o, p, n - 1);
      } else {
        forall j | 0 <= j < m ensures o[n - m + j] == p[j] {
          LinkedSuffixesAgree(table, term, o, p, m - 1 - j);
        }
        var t :| 0 <= t < m && p[t] == Predecessor(table[p[0]]);
        assert o[n - m - 1] == Predecessor(table[o[n - m]]);
        StoppedHasNoRepeat(table, term, o, n - m - 1, n - m + t);
      }
    }
  }

  /**
   * The walk of `validateList`. It fails with `InvalidChainHead` when the head
   * is `null`. On success the result is the completed walk from the head, and
   * when a completed walk exists the result is that walk. The guard on keys
   * already visited is an addition: where it fires, following predecessors
   * from the head never ends.
   */
  method Walk(table: Index, head: ByteBuffer, term: ByteBuffer) returns (r: Result<seq<ByteBuffer>>)
    ensures head.None? <==> r == Failure(InvalidChainHead)
    ensures r.Success? ==> head.Some? && IsWalk(table, head.value, term, r.value)
    ensures r.Failure? && r.error.ChainCycle? ==> head.Some? && IsCycle(table, head.value, term, r.error.path)
    ensures r.Failure? ==> r.error.InvalidChainHead? || r.error.ChainCycle?
    ensures head.Some? ==> forall o :: IsWalk(table, head.value, term, o) ==> r == Success(o)
  {
    if head.None? {
      return Failure(InvalidChainHead);
    }
    var key := head;
    var order: seq<ByteBuffer> := [];
    var visited: set<ByteBuffer> := {};
    while true
      invariant key.Some?
      invariant forall k :: k in visited <==> k in order
      invariant visited <= table.Keys
      invariant order == [] ==> key == head
      invariant order != [] ==> order[|order| - 1] == head && Linked(table, term, order)
      invariant order != [] ==> !Stops(table, term, order[0]) && Predecessor(table[order[0]]) == key
      decreases table.Keys - visited
    {
      if key in visited {
        assert IsCycle(table, head.value, term, order);
        forall o | IsWalk(table, head.value, term, o) ensures false {
          CycleExcludesWalk(table, head.value, term, order, o);
        }
        return Failure(ChainCycle(order));
      }
      order := [key] + order;
      visited := visited + {key};
      if key !in table {
        break;
      }
      key := Predecessor(table[key]);
      if key.None? || key == term {
        break;
      }
    }
    assert IsWalk(table, head.value, term, order);
    forall o | IsWalk(table, head.value, term, o) ensures o == order {
      WalkIsUnique(table, head.value, term, o, order);
    }
    return Success(order);
  }
}
