/** The coordinator's partition seen together with the workers' scans: which
    nonces of [0, maxNonce) some worker ever tests, and when a golden nonce is
    reported. */
module Search {
  import opened Client
  import opened Worker

  /** Nonce x is tested by the scan of batch b, whose loop runs while i < b.hi
      (instance.py:65). */
  predicate Tested(b: Batch, x: int) {
    b.lo <= x < b.hi
  }

  predicate TestedBySome(bs: seq<Batch>, x: int) {
    exists k :: 0 <= k < |bs| && Tested(bs[k], x)
  }

  predicate IsBatchMax(bs: seq<Batch>, x: int) {
    exists k :: 0 <= k < |bs| && bs[k].hi == x
  }

  /** The scan stopped at a golden nonce between lo and x. */
  predicate FoundBetween(o: ScanOutcome, lo: int, x: int) {
    o.Found? && lo <= o.number <= x
  }

  /** The batch of the partition that holds nonce x. */
  lemma OwnerOf(maxNonce: nat, numberVms: nat, x: int) returns (k: nat)
    requires numberVms >= 1 && 0 <= x < maxNonce
    ensures Partition(maxNonce, numberVms).Ok?
    ensures k < |Partition(maxNonce, numberVms).value|
    ensures Covers(Partition(maxNonce, numberVms).value[k], x)
  {
    PartitionCovers(maxNonce, numberVms);
    var bs := Partition(maxNonce, numberVms).value;
    assert InSomeBatch(bs, x);
    k :| 0 <= k < |bs| && Covers(bs[k], x);
  }

  /** The exclusive loop bound against the inclusive batch max: a nonce of
      [0, maxNonce) is tested by some worker exactly when it is not the max
      of a batch, so the last nonce of every batch is never tested. */
  lemma TestedIffNotBatchMax(maxNonce: nat, numberVms: nat, x: int)
    requires numberVms >= 1 && 0 <= x < maxNonce
    ensures Partition(maxNonce, numberVms).Ok?
    ensures TestedBySome(Partition(maxNonce, numberVms).value, x) <==>
      !IsBatchMax(Partition(maxNonce, numberVms).value, x)
  {
    PartitionCovers(maxNonce, numberVms);
    var bs := Partition(maxNonce, numberVms).value;
    var k := OwnerOf(maxNonce, numberVms, x);
    if TestedBySome(bs, x) {
      var k1 :| 0 <= k1 < |bs| && Tested(bs[k1], x);
      assert Covers(bs[k1], x);
      if IsBatchMax(bs, x) {
        var k2 :| 0 <= k2 < |bs| && bs[k2].hi == x;
        PartitionShape(maxNonce, numberVms);
        assert Covers(bs[k2], x);
      }
    } else {
      assert !Tested(bs[k], x);
      assert bs[k].hi == x;
    }
  }

  /** A golden nonce that is not the max of its batch is reported: with a
      difficulty between 0 and 256 the worker of that batch publishes exactly
      one message, for the least golden nonce of its batch, which is at or
      before x. */
  lemma GoldenNonceReported(sha: Sha256, maxNonce: nat, numberVms: nat, d: int, x: nat)
    requires numberVms >= 1 && x < maxNonce && 0 <= d <= 256
    requires GoldenVerdict(d, ComputeNonce(sha, x)) == Golden
    requires !IsBatchMax(Partition(maxNonce, numberVms).value, x)
    ensures Partition(maxNonce, numberVms).Ok?
    ensures exists k :: (
      && 0 <= k < |Partition(maxNonce, numberVms).value|
      && var b := Partition(maxNonce, numberVms).value[k];
      && Covers(b, x)
      && FoundBetween(ScanFrom(NonceHashes(sha), b.lo, b.hi, d), b.lo, x)
      && |Published(ScanFrom(NonceHashes(sha), b.lo, b.hi, d))| == 1)
  {
    var k := OwnerOf(maxNonce, numberVms, x);
    var b := Partition(maxNonce, numberVms).value[k];
    assert b.hi != x;
    ScanThroughGolden(sha, b.lo, b.hi, d, x);
  }

  /** The scan of [lo, hi) with a difficulty of at most 256 never raises, and
      finds a nonce no later than any golden nonce x of the range. */
  lemma ScanThroughGolden(sha: Sha256, lo: nat, hi: int, d: int, x: nat)
    requires lo <= x < hi && d <= 256
    requires GoldenVerdict(d, ComputeNonce(sha, x)) == Golden
    ensures FoundBetween(ScanFrom(NonceHashes(sha), lo, hi, d), lo, x)
  {
    var hashOf := NonceHashes(sha);
    assert GoldenVerdict(d, hashOf(x)) == Golden;
    ScanFromMeaning(hashOf, lo, hi, d);
    match ScanFrom(hashOf, lo, hi, d)
    case Found(n, _) =>
    case Raised(n) =>
      FinalHashShape(sha, Block(n));
      GoldenVerdictMeaning(d, hashOf(n));
    case Exhausted(_) =>
  }

  /** With the loop bound made inclusive (while i <= max), every golden nonce
      of [0, maxNonce) is reported by the worker of its batch, the batch max
      included. */
  lemma InclusiveScanReportsEveryGolden(sha: Sha256, maxNonce: nat, numberVms: nat, d: int, x: nat)
    requires numberVms >= 1 && x < maxNonce && 0 <= d <= 256
    requires GoldenVerdict(d, ComputeNonce(sha, x)) == Golden
    ensures Partition(maxNonce, numberVms).Ok?
    ensures exists k :: (
      && 0 <= k < |Partition(maxNonce, numberVms).value|
      && var b := Partition(maxNonce, numberVms).value[k];
      && Covers(b, x)
      && FoundBetween(ScanInclusive(NonceHashes(sha), Task(b.lo, b.hi, d)), b.lo, x))
  {
    var k := OwnerOf(maxNonce, numberVms, x);
    var b := Partition(maxNonce, numberVms).value[k];
    ScanThroughGolden(sha, b.lo, b.hi + 1, d, x);
  }
}
