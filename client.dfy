/** The coordinator's side of the search (client.py): the split of the nonce
    space [0, maxNonce) into one inclusive range per worker, and the task
    messages sent to the input queue, one per range. */
module Client {

  /** The size of the search space used by main (client.py:71). */
  const MaxNonce: nat := 0x1_0000_0000

  /** The MessageGroupId of every task message (client.py:101). */
  const InputGroup: string := "input_queue"

  /** One element [i, min(i + batch_size, max_nonce) - 1] of the batch list:
      an inclusive range of nonces. */
  datatype Batch = Batch(lo: nat, hi: int)

  /** The task message {min, max, difficulty}; the difficulty is whatever
      integer the command line gave. */
  datatype Task = Task(lo: nat, hi: int, difficulty: int)

  /** A message handed to the queue's send_message, with its group id. */
  datatype Sent<T> = Sent(body: T, groupId: string)

  datatype Result<T, E> = Ok(value: T) | Err(error: E)

  /** The exceptions the partition step can raise: math.ceil(max_nonce / 0)
      raises ZeroDivisionError and range(0, max_nonce, 0) raises ValueError. */
  datatype PartitionError = ZeroDivision | ZeroRangeStep

  function Min(a: int, b: int): int {
    if a <= b then a else b
  }

  /** Integer ceiling division, standing for math.ceil(a / n). */
  function CeilDiv(a: nat, n: nat): (r: nat)
    requires n >= 1
    ensures r * n >= a
    ensures a + n > r * n
  {
    (a + n - 1) / n
  }

  /** [[i, min(i + step, m) - 1] for i in range(start, m, step)]. */
  function RangeBatches(start: nat, step: nat, m: nat): seq<Batch>
    requires step >= 1
    decreases m - start
  {
    if start >= m then [] else [Batch(start, Min(start + step, m) - 1)] + RangeBatches(start + step, step, m)
  }

  /** The batch list of client.py:84-88 for a search space of maxNonce nonces
      and numberVms workers. */
  function Partition(maxNonce: nat, numberVms: nat): Result<seq<Batch>, PartitionError> {
    if numberVms == 0 then Err(ZeroDivision)
    else
      var batchSize := CeilDiv(maxNonce, numberVms);
      if batchSize == 0 then Err(ZeroRangeStep) else Ok(RangeBatches(0, batchSize, maxNonce))
  }

  /** Nonce x lies in the inclusive range of batch b. */
  predicate Covers(b: Batch, x: int) {
    b.lo <= x <= b.hi
  }

  /** Nonce x lies in some batch of bs. */
  predicate InSomeBatch(bs: seq<Batch>, x: int) {
    exists k :: 0 <= k < |bs| && Covers(bs[k], x)
  }

  function Size(b: Batch): int {
    b.hi - b.lo + 1
  }

  function TotalSize(bs: seq<Batch>): int {
    if bs == [] then 0 else Size(bs[0]) + TotalSize(bs[1..])
  }

  // ---------------------------------------------------------------------
  // The batch size.

  /** The batch size is at least one whenever there is something to search,
      and numberVms batches of that size cover the space. */
  lemma BatchSizeBounds(maxNonce: nat, numberVms: nat)
    requires numberVms >= 1
    ensures CeilDiv(maxNonce, numberVms) * numberVms >= maxNonce
    ensures maxNonce >= 1 ==> CeilDiv(maxNonce, numberVms) >= 1
    ensures maxNonce == 0 <==> CeilDiv(maxNonce, numberVms) == 0
  {
  }

  /** Both error cases of the partition, and nothing else, fail. */
  lemma PartitionErrors(maxNonce: nat, numberVms: nat)
    ensures Partition(maxNonce, numberVms) == Err(ZeroDivision) <==> numberVms == 0
    ensures Partition(maxNonce, numberVms) == Err(ZeroRangeStep) <==> numberVms >= 1 && maxNonce == 0
    ensures Partition(maxNonce, numberVms).Ok? <==> numberVms >= 1 && maxNonce >= 1
  {
    if numberVms >= 1 {
      BatchSizeBounds(maxNonce, numberVms);
    }
  }

  // ---------------------------------------------------------------------
  // Properties of the range comprehension.

  /** Batch k starts at start + k * step and ends at the next start, clamped
      to the end of the space; all of it lies inside [start, m). */
  lemma {:induction false} RangeBatchesAt(start: nat, step: nat, m: nat, k: nat)
    requires step >= 1 && k < |RangeBatches(start, step, m)|
    ensures RangeBatches(start, step, m)[k] == Batch(start + k * step, Min(start + k * step + step, m) - 1)
    ensures start + k * step < m
    decreases m - start
  {
    if k > 0 {
      RangeBatchesAt(start + step, step, m, k - 1);
      assert start + step + (k - 1) * step == start + k * step;
    }
  }

  /** Every batch is a non-empty range inside [start, m). */
  lemma RangeBatchesWellFormed(start: nat, step: nat, m: nat, k: nat)
    requires step >= 1 && k < |RangeBatches(start, step, m)|
    ensures start <= RangeBatches(start, step, m)[k].lo <= RangeBatches(start, step, m)[k].hi < m
  {
    RangeBatchesAt(start, step, m, k);
  }

  /** The number of batches: one per multiple of step below m - start. */
  lemma {:induction false} RangeBatchesCount(start: nat, step: nat, m: nat)
    requires step >= 1
    ensures start >= m ==> |RangeBatches(start, step, m)| == 0
    ensures start < m ==> (|RangeBatches(start, step, m)| - 1) * step < m - start
    decreases m - start
  {
    if start < m {
      var rest := RangeBatches(start + step, step, m);
      RangeBatchesCount(start + step, step, m);
      if start + step < m {
        assert (|rest| - 1) * step < m - start - step;
        assert (|rest| + 1 - 1) * step == (|rest| - 1) * step + step;
      }
    }
  }

  /** Consecutive batches are adjacent: each starts right after the previous
      one ends. */
  lemma RangeBatchesAdjacent(start: nat, step: nat, m: nat, k: nat)
    requires step >= 1 && k + 1 < |RangeBatches(start, step, m)|
    ensures RangeBatches(start, step, m)[k + 1].lo == RangeBatches(start, step, m)[k].hi + 1
  {
    RangeBatchesAt(start, step, m, k);
    RangeBatchesAt(start, step, m, k + 1);
    assert start + (k + 1) * step == start + k * step + step;
  }

  /** The first batch starts at start and the last one ends at m - 1. */
  lemma {:induction false} RangeBatchesEnds(start: nat, step: nat, m: nat)
    requires step >= 1 && start < m
    ensures |RangeBatches(start, step, m)| >= 1
    ensures RangeBatches(start, step, m)[0].lo == start
    ensures RangeBatches(start, step, m)[|RangeBatches(start, step, m)| - 1].hi == m - 1
    decreases m - start
  {
    if start + step < m {
      RangeBatchesEnds(start + step, step, m);
    }
  }

  /** Every nonce of [start, m) is in exactly one batch. */
  lemma {:induction false} RangeBatchesCover(start: nat, step: nat, m: nat, x: int)
    requires step >= 1 && start <= x < m
    ensures InSomeBatch(RangeBatches(start, step, m), x)
    ensures forall k1, k2 ::
      (0 <= k1 < |RangeBatches(start, step, m)| && 0 <= k2 < |RangeBatches(start, step, m)| &&
       Covers(RangeBatches(start, step, m)[k1], x) && Covers(RangeBatches(start, step, m)[k2], x)) ==> k1 == k2
    decreases m - start
  {
    var bs := RangeBatches(start, step, m);
    var rest := RangeBatches(start + step, step, m);
    assert bs == [bs[0]] + rest;
    if x < start + step {
      assert Covers(bs[0], x);
      forall k | 1 <= k < |bs| ensures !Covers(bs[k], x) {
        RangeBatchesWellFormed(start + step, step, m, k - 1);
        assert bs[k] == rest[k - 1];
      }
    } else {
      RangeBatchesCover(start + step, step, m, x);
      var k' :| 0 <= k' < |rest| && Covers(rest[k'], x);
      assert Covers(bs[k' + 1], x);
      forall k1, k2 | 0 <= k1 < |bs| && 0 <= k2 < |bs| && Covers(bs[k1], x) && Covers(bs[k2], x)
        ensures k1 == k2
      {
        assert !Covers(bs[0], x);
        assert bs[k1] == rest[k1 - 1] && bs[k2] == rest[k2 - 1];
      }
    }
  }

  /** The sizes of the batches add up to the size of [start, m). */
  lemma {:induction false} RangeBatchesTotal(start: nat, step: nat, m: nat)
    requires step >= 1
    ensures start <= m ==> TotalSize(RangeBatches(start, step, m)) == m - start
    decreases m - start
  {
    if start < m {
      var bs := RangeBatches(start, step, m);
      assert bs[1..] == RangeBatches(start + step, step, m);
      RangeBatchesTotal(start + step, step, m);
      if start + step >= m {
        assert RangeBatches(start + step, step, m) == [];
      }
    }
  }

  // ---------------------------------------------------------------------
  // Properties of the partition.

  lemma MulLessCancel(a: int, b: int, c: nat)
    requires c >= 1 && a * c < b * c
    ensures a < b
  {
  }

  /** The partition of client.py:84-88: every batch is a non-empty inclusive
      range inside [0, maxNonce) starting at a multiple of the batch size,
      the first starts at 0, the last ends at maxNonce - 1, neighbours are
      adjacent, and there are at most numberVms of them. */
  lemma PartitionShape(maxNonce: nat, numberVms: nat)
    requires numberVms >= 1 && maxNonce >= 1
    ensures Partition(maxNonce, numberVms).Ok?
    ensures var bs := Partition(maxNonce, numberVms).value;
      && 1 <= |bs| <= numberVms
      && bs[0].lo == 0
      && bs[|bs| - 1].hi == maxNonce - 1
      && (forall k :: 0 <= k < |bs| ==> bs[k].lo == k * CeilDiv(maxNonce, numberVms))
      && (forall k :: 0 <= k < |bs| ==> 0 <= bs[k].lo <= bs[k].hi < maxNonce)
      && (forall k :: 0 <= k < |bs| - 1 ==> bs[k + 1].lo == bs[k].hi + 1)
  {
    var step := CeilDiv(maxNonce, numberVms);
    BatchSizeBounds(maxNonce, numberVms);
    var bs := RangeBatches(0, step, maxNonce);
    assert Partition(maxNonce, numberVms) == Ok(bs);
    RangeBatchesEnds(0, step, maxNonce);
    RangeBatchesCount(0, step, maxNonce);
    MulLessCancel(|bs| - 1, numberVms, step);
    forall k | 0 <= k < |bs| ensures bs[k].lo == k * step && 0 <= bs[k].lo <= bs[k].hi < maxNonce {
      RangeBatchesAt(0, step, maxNonce, k);
      RangeBatchesWellFormed(0, step, maxNonce, k);
    }
    forall k | 0 <= k < |bs| - 1 ensures bs[k + 1].lo == bs[k].hi + 1 {
      RangeBatchesAdjacent(0, step, maxNonce, k);
    }
  }

  /** No gaps and no overlaps: each nonce of [0, maxNonce) lies in exactly
      one batch, no other nonce lies in any, and the batch sizes add up to
      maxNonce. */
  lemma PartitionCovers(maxNonce: nat, numberVms: nat)
    requires numberVms >= 1 && maxNonce >= 1
    ensures Partition(maxNonce, numberVms).Ok?
    ensures var bs := Partition(maxNonce, numberVms).value;
      && (forall x :: 0 <= x < maxNonce ==> InSomeBatch(bs, x))
      && (forall x, k1, k2 :: 0 <= k1 < |bs| && 0 <= k2 < |bs| && Covers(bs[k1], x) && Covers(bs[k2], x) ==> k1 == k2)
      && (forall x, k :: 0 <= k < |bs| && Covers(bs[k], x) ==> 0 <= x < maxNonce)
      && TotalSize(bs) == maxNonce
  {
    var step := CeilDiv(maxNonce, numberVms);
    BatchSizeBounds(maxNonce, numberVms);
    var bs := RangeBatches(0, step, maxNonce);
    assert Partition(maxNonce, numberVms) == Ok(bs);
    forall x | 0 <= x < maxNonce ensures InSomeBatch(bs, x) {
      RangeBatchesCover(0, step, maxNonce, x);
    }
    forall x, k1, k2 | 0 <= k1 < |bs| && 0 <= k2 < |bs| && Covers(bs[k1], x) && Covers(bs[k2], x)
      ensures k1 == k2
    {
      RangeBatchesWellFormed(0, step, maxNonce, k1);
      RangeBatchesCover(0, step, maxNonce, x);
    }
    forall x, k | 0 <= k < |bs| && Covers(bs[k], x) ensures 0 <= x < maxNonce {
      RangeBatchesWellFormed(0, step, maxNonce, k);
    }
    RangeBatchesTotal(0, step, maxNonce);
  }

  /** maxNonce = 16 with 4 workers gives [0,3], [4,7], [8,11], [12,15]. */
  lemma EvenSplitExample()
    ensures Partition(16, 4) == Ok([Batch(0, 3), Batch(4, 7), Batch(8, 11), Batch(12, 15)])
  {
    assert CeilDiv(16, 4) == 4;
    assert RangeBatches(16, 4, 16) == [];
    assert RangeBatches(12, 4, 16) == [Batch(12, 15)];
    assert RangeBatches(8, 4, 16) == [Batch(8, 11), Batch(12, 15)];
    assert RangeBatches(4, 4, 16) == [Batch(4, 7), Batch(8, 11), Batch(12, 15)];
    assert RangeBatches(0, 4, 16) == [Batch(0, 3), Batch(4, 7), Batch(8, 11), Batch(12, 15)];
  }

  /** maxNonce = 10 with 3 workers gives batch size 4 and [0,3], [4,7], [8,9]:
      the last range is clamped. */
  lemma ClampedSplitExample()
    ensures Partition(10, 3) == Ok([Batch(0, 3), Batch(4, 7), Batch(8, 9)])
  {
    assert CeilDiv(10, 3) == 4;
    assert RangeBatches(12, 4, 10) == [];
    assert RangeBatches(8, 4, 10) == [Batch(8, 9)];
    assert RangeBatches(4, 4, 10) == [Batch(4, 7), Batch(8, 9)];
    assert RangeBatches(0, 4, 10) == [Batch(0, 3), Batch(4, 7), Batch(8, 9)];
  }

  /** A single worker gets the whole 2^32 space as one range. */
  lemma SingleWorkerExample()
    ensures Partition(MaxNonce, 1) == Ok([Batch(0, MaxNonce - 1)])
  {
    assert CeilDiv(MaxNonce, 1) == MaxNonce;
    assert RangeBatches(MaxNonce, MaxNonce, MaxNonce) == [];
    assert RangeBatches(0, MaxNonce, MaxNonce) == [Batch(0, MaxNonce - 1)];
  }

  // ---------------------------------------------------------------------
  // Dispatch.

  /** The loop of client.py:92-102: one task message per batch, in batch
      order, each copying its batch's bounds and carrying the difficulty. */
  method Dispatch(batches: seq<Batch>, difficulty: int) returns (sent: seq<Sent<Task>>)
    ensures |sent| == |batches|
    ensures forall k :: 0 <= k < |sent| ==>
      sent[k] == Sent(Task(batches[k].lo, batches[k].hi, difficulty), InputGroup)
  {
    sent := [];
    for i := 0 to |batches|
      invariant |sent| == i
      invariant forall k :: 0 <= k < i ==>
        sent[k] == Sent(Task(batches[k].lo, batches[k].hi, difficulty), InputGroup)
    {
      var message := Task(batches[i].lo, batches[i].hi, difficulty);
      sent := sent + [Sent(message, InputGroup)];
    }
  }

  /** The coordinator's part of main from the split to the last send
      (client.py:84-102), with the search space as a parameter: on success
      the task messages are one per range of the partition, and so every
      nonce of [0, maxNonce) is in exactly one task. */
  method SplitAndDispatch(maxNonce: nat, numberVms: nat, difficulty: int)
    returns (r: Result<seq<Sent<Task>>, PartitionError>)
    ensures Partition(maxNonce, numberVms).Err? ==> r == Err(Partition(maxNonce, numberVms).error)
    ensures Partition(maxNonce, numberVms).Ok? ==> (
      && r.Ok?
      && |r.value| == |Partition(maxNonce, numberVms).value|
      && forall k :: 0 <= k < |r.value| ==>
        var b := Partition(maxNonce, numberVms).value[k];
        r.value[k] == Sent(Task(b.lo, b.hi, difficulty), InputGroup))
  {
    var p := Partition(maxNonce, numberVms);
    if p.Err? {
      return Err(p.error);
    }
    var sent := Dispatch(p.value, difficulty);
    return Ok(sent);
  }
}
