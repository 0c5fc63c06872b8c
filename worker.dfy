/** The worker (instance.py): the double SHA-256 of "COMSM0010cloud" followed
    by the decimal nonce, its fixed-width binary rendering, the leading-zero
    test, and the scan over the range of one task. */
module Worker {
  import opened HexBinary
  import Client

  /** A 64-character lower-case hex digest, the shape of hexdigest(). */
  predicate IsHexDigest(s: string) {
    |s| == 64 && IsHex(s)
  }

  /** The all-zero digest, which shows that hashers exist. */
  function ZeroDigest(): (r: string)
    ensures IsHexDigest(r)
  {
    Zeros(64)
  }

  function Zeros(n: nat): (r: string)
    ensures |r| == n && forall j :: 0 <= j < n ==> r[j] == '0'
  {
    if n == 0 then [] else Zeros(n - 1) + "0"
  }

  /** get_sha256_hash (instance.py:15-17): SHA-256 of the UTF-8 bytes of a
      string, as hex. Its internals are not modelled: a hasher is any total
      function whose every output is a 64-digit lower-case hex string. */
  type HexDigest = s: string | IsHexDigest(s) witness ZeroDigest()

  type Sha256 = string -> HexDigest

  /** The fixed block prefix (instance.py:8). */
  const BaseBlock: string := "COMSM0010cloud"

  /** The MessageGroupId of the result message (instance.py:76). */
  const OutputGroup: string := "output_queue"

  function DigitChar(d: nat): char
    requires d < 10
  {
    ('0' as int + d) as char
  }

  predicate IsDecimal(s: string) {
    forall j :: 0 <= j < |s| ==> '0' <= s[j] <= '9'
  }

  /** str(number) for a non-negative integer. */
  function Decimal(n: nat): (r: string)
    ensures |r| >= 1 && IsDecimal(r)
  {
    if n < 10 then [DigitChar(n)] else Decimal(n / 10) + [DigitChar(n % 10)]
  }

  /** int(s) for a string of decimal digits. */
  function ParseDecimal(s: string): nat
    requires IsDecimal(s)
  {
    if s == [] then 0 else 10 * ParseDecimal(s[..|s| - 1]) + (s[|s| - 1] as int - '0' as int)
  }

  /** The block hashed for a nonce (instance.py:28). */
  function Block(n: nat): string {
    BaseBlock + Decimal(n)
  }

  /** get_final_hash (instance.py:10-13): hash twice, then the sentinel
      conversion to binary. */
  function GetFinalHash(sha: Sha256, block: string): string {
    SentinelBinary(sha(sha(block)))
  }

  /** compute_nonce (instance.py:27-30). */
  function ComputeNonce(sha: Sha256, n: nat): string {
    GetFinalHash(sha, Block(n))
  }

  /** What is_golden_nonce does: return True, return False, or raise
      IndexError when the difficulty runs past the end of an all-zero hash. */
  datatype Verdict = Golden | NotGolden | IndexError

  /** The loop of is_golden_nonce from counter i on (instance.py:20-25). */
  function VerdictFrom(difficulty: int, hash: string, i: nat): Verdict
    decreases if difficulty > i then difficulty - i else 0
  {
    if i >= difficulty then Golden
    else if i >= |hash| then IndexError
    else if hash[i] != '0' then NotGolden
    else VerdictFrom(difficulty, hash, i + 1)
  }

  function GoldenVerdict(difficulty: int, hash: string): Verdict {
    VerdictFrom(difficulty, hash, 0)
  }

  /** The message the worker sends (instance.py:72-75): golden_number is the
      nonce, golden_nonce is its binary hash. No timestamps are sent. */
  datatype GoldenMessage = GoldenMessage(goldenNumber: nat, goldenNonce: string)

  /** How the scan of main ends: a break at a golden nonce, the loop
      condition failing at stop, or the IndexError of is_golden_nonce. */
  datatype ScanOutcome = Found(number: nat, hash: string) | Exhausted(stop: nat) | Raised(at: nat)

  /** compute_nonce as a function of the nonce. */
  function NonceHashes(sha: Sha256): nat -> string {
    (n: nat) => ComputeNonce(sha, n)
  }

  /** The scan loop of main from nonce i on, while i < hi (instance.py:65-79),
      for any way hashOf of hashing a nonce; the worker's is NonceHashes(sha). */
  function ScanFrom(hashOf: nat -> string, i: nat, hi: int, difficulty: int): ScanOutcome
    decreases hi - i
  {
    if i >= hi then Exhausted(i)
    else
      match GoldenVerdict(difficulty, hashOf(i))
      case Golden => Found(i, hashOf(i))
      case IndexError => Raised(i)
      case NotGolden => ScanFrom(hashOf, i + 1, hi, difficulty)
  }

  /** The messages a scan outcome publishes to the output queue. */
  function Published(o: ScanOutcome): seq<Client.Sent<GoldenMessage>> {
    if o.Found? then [Client.Sent(GoldenMessage(o.number, o.hash), OutputGroup)] else []
  }

  // ---------------------------------------------------------------------
  // The nonce and block.

  lemma {:induction false} DecimalRoundTrip(n: nat)
    ensures ParseDecimal(Decimal(n)) == n
  {
    if n >= 10 {
      DecimalRoundTrip(n / 10);
      var s := Decimal(n);
      assert s[..|s| - 1] == Decimal(n / 10);
    }
  }

  /** Different nonces hash different blocks. */
  lemma BlockInjective(n: nat, m: nat)
    requires Block(n) == Block(m)
    ensures n == m
  {
    assert Decimal(n) == Block(n)[|BaseBlock|..];
    assert Decimal(m) == Block(m)[|BaseBlock|..];
    DecimalRoundTrip(n);
    DecimalRoundTrip(m);
  }

  /** The final hash of every block is 256 binary digits whose base-2 value
      is that of the second hex digest. */
  lemma FinalHashShape(sha: Sha256, block: string)
    ensures |GetFinalHash(sha, block)| == 256
    ensures IsBinary(GetFinalHash(sha, block))
    ensures BinValue(GetFinalHash(sha, block)) == HexValue(sha(sha(block)))
  {
    SentinelBinaryCorrect(sha(sha(block)));
  }

  // ---------------------------------------------------------------------
  // The golden predicate.

  /** is_golden_nonce from counter i: True exactly when characters i .. d-1
      exist and are all '0'; IndexError exactly when they are all '0' as far
      as the hash goes but the hash is shorter than d; False otherwise. */
  lemma {:induction false} VerdictFromMeaning(d: int, h: string, i: nat)
    requires i <= |h|
    ensures VerdictFrom(d, h, i) == Golden <==>
      d <= |h| && forall j :: i <= j < d ==> h[j] == '0'
    ensures VerdictFrom(d, h, i) == IndexError <==>
      d > |h| && forall j :: i <= j < |h| ==> h[j] == '0'
    ensures VerdictFrom(d, h, i) == NotGolden <==>
      exists j :: i <= j < d && j < |h| && h[j] != '0'
    decreases if d > i then d - i else 0
  {
    if i < d && i < |h| && h[i] == '0' {
      VerdictFromMeaning(d, h, i + 1);
      if d <= |h| && forall j :: i + 1 <= j < d ==> h[j] == '0' {
        assert forall j :: i <= j < d ==> h[j] == '0';
      }
      if exists j :: i <= j < d && j < |h| && h[j] != '0' {
        var j :| i <= j < d && j < |h| && h[j] != '0';
        assert j != i;
      }
    }
  }

  /** is_golden_nonce(d, h) is True exactly when the first d characters of h
      are '0'; with d no longer than h it never raises. */
  lemma GoldenVerdictMeaning(d: int, h: string)
    ensures GoldenVerdict(d, h) == Golden <==> d <= |h| && forall j :: 0 <= j < d ==> h[j] == '0'
    ensures GoldenVerdict(d, h) == NotGolden <==> exists j :: 0 <= j < d && j < |h| && h[j] != '0'
    ensures GoldenVerdict(d, h) == IndexError <==> d > |h| && forall j :: 0 <= j < |h| ==> h[j] == '0'
    ensures d <= |h| ==> GoldenVerdict(d, h) != IndexError
  {
    VerdictFromMeaning(d, h, 0);
  }

  /** Difficulty zero (or below) accepts every hash. */
  lemma ZeroDifficultyGolden(d: int, h: string)
    requires d <= 0
    ensures GoldenVerdict(d, h) == Golden
  {
  }

  /** The verdict is False as soon as one of the first d characters is not
      '0', and it depends on no character after the first such one. */
  lemma NotGoldenReadsPrefix(d: int, h: string, h2: string, k: nat)
    requires k < d && k < |h| && h[k] != '0'
    requires k < |h2| && h2[..k + 1] == h[..k + 1]
    ensures GoldenVerdict(d, h) == NotGolden
    ensures GoldenVerdict(d, h2) == NotGolden
  {
    assert h2[k] == h2[..k + 1][k];
    GoldenVerdictMeaning(d, h);
    GoldenVerdictMeaning(d, h2);
  }

  /** For the 256-digit final hash and a difficulty between 0 and 256, the
      nonce is golden exactly when the second hex digest, read as a number,
      is below 2^(256 - d): the difficulty counts leading zero bits. */
  lemma GoldenIffBelowTarget(sha: Sha256, n: nat, d: nat)
    requires d <= 256
    ensures GoldenVerdict(d, ComputeNonce(sha, n)) == Golden <==>
      HexValue(sha(sha(Block(n)))) < Pow2(256 - d)
  {
    var h := ComputeNonce(sha, n);
    FinalHashShape(sha, Block(n));
    GoldenVerdictMeaning(d, h);
    LeadingZeros(h, d);
  }

  /** is_golden_nonce (instance.py:19-25). */
  method IsGoldenNonce(difficulty: int, hash: string) returns (v: Verdict)
    ensures v == GoldenVerdict(difficulty, hash)
  {
    var i := 0;
    while i < difficulty
      invariant VerdictFrom(difficulty, hash, i) == GoldenVerdict(difficulty, hash)
      decreases difficulty - i
    {
      if i >= |hash| {
        return IndexError;
      }
      if hash[i] != '0' {
        return NotGolden;
      }
      i := i + 1;
    }
    return Golden;
  }

  // ---------------------------------------------------------------------
  // The scan.

  /** The scan from lo stops at the least golden nonce of [lo, hi), or raises
      at the least nonce whose hash is too short for the difficulty, or runs
      out at max(lo, hi) having found neither; every nonce it passes over is
      not golden. */
  lemma {:induction false} ScanFromMeaning(hashOf: nat -> string, lo: nat, hi: int, d: int)
    ensures match ScanFrom(hashOf, lo, hi, d)
      case Found(n, h) =>
        && lo <= n < hi && h == hashOf(n)
        && GoldenVerdict(d, h) == Golden
        && forall j :: lo <= j < n ==> GoldenVerdict(d, hashOf(j)) == NotGolden
      case Raised(n) =>
        && lo <= n < hi
        && GoldenVerdict(d, hashOf(n)) == IndexError
        && forall j :: lo <= j < n ==> GoldenVerdict(d, hashOf(j)) == NotGolden
      case Exhausted(stop) =>
        && stop == (if lo < hi then hi else lo)
        && forall j :: lo <= j < hi ==> GoldenVerdict(d, hashOf(j)) == NotGolden
    decreases hi - lo
  {
    if lo < hi && GoldenVerdict(d, hashOf(lo)) == NotGolden {
      ScanFromMeaning(hashOf, lo + 1, hi, d);
    }
  }

  /** The outcome of a scan depends on the hashes of the nonces of [lo, hi)
      alone: the hash of hi is never looked at, and a task delivered twice
      is scanned to the same outcome. */
  lemma {:induction false} ScanReadsOnlyRange(h1: nat -> string, h2: nat -> string, lo: nat, hi: int, d: int)
    requires forall j: nat :: lo <= j < hi ==> h1(j) == h2(j)
    ensures ScanFrom(h1, lo, hi, d) == ScanFrom(h2, lo, hi, d)
    decreases hi - lo
  {
    if lo < hi {
      assert h1(lo) == h2(lo);
      ScanReadsOnlyRange(h1, h2, lo + 1, hi, d);
    }
  }

  /** The scan finds a nonce exactly when [lo, hi) holds a golden one before
      any nonce that raises; it publishes nothing otherwise. */
  lemma ScanFindsLeastGolden(hashOf: nat -> string, lo: nat, hi: int, d: int, n: nat)
    requires lo <= n < hi
    requires GoldenVerdict(d, hashOf(n)) == Golden
    requires forall j :: lo <= j < n ==> GoldenVerdict(d, hashOf(j)) == NotGolden
    ensures ScanFrom(hashOf, lo, hi, d) == Found(n, hashOf(n))
    ensures Published(ScanFrom(hashOf, lo, hi, d)) ==
      [Client.Sent(GoldenMessage(n, hashOf(n)), OutputGroup)]
  {
    ScanFromMeaning(hashOf, lo, hi, d);
  }

  /** With a difficulty of 0 the worker reports the first nonce of its range
      at once. */
  lemma ZeroDifficultyReportsMin(hashOf: nat -> string, t: Client.Task)
    requires t.difficulty <= 0 && t.lo < t.hi
    ensures ScanFrom(hashOf, t.lo, t.hi, t.difficulty) == Found(t.lo, hashOf(t.lo))
  {
    ZeroDifficultyGolden(t.difficulty, hashOf(t.lo));
  }

  /** The upper bound of a task is never tested: a task whose only golden
      nonce is its max publishes nothing. */
  lemma MaxNeverTested(hashOf: nat -> string, t: Client.Task)
    requires t.hi >= t.lo
    requires GoldenVerdict(t.difficulty, hashOf(t.hi)) == Golden
    requires forall j :: t.lo <= j < t.hi ==> GoldenVerdict(t.difficulty, hashOf(j)) == NotGolden
    ensures ScanFrom(hashOf, t.lo, t.hi, t.difficulty) == Exhausted(t.hi)
    ensures Published(ScanFrom(hashOf, t.lo, t.hi, t.difficulty)) == []
  {
    ScanFromMeaning(hashOf, t.lo, t.hi, t.difficulty);
  }

  /** The scan with the bound the batch list means, while i <= max: the
      range of a task is inclusive at both ends. */
  function ScanInclusive(hashOf: nat -> string, t: Client.Task): ScanOutcome {
    ScanFrom(hashOf, t.lo, t.hi + 1, t.difficulty)
  }

  /** With the inclusive bound the max of a task is tested: a task whose
      only golden nonce is its max reports that nonce. */
  lemma InclusiveTestsMax(hashOf: nat -> string, t: Client.Task)
    requires t.hi >= t.lo
    requires GoldenVerdict(t.difficulty, hashOf(t.hi)) == Golden
    requires forall j :: t.lo <= j < t.hi ==> GoldenVerdict(t.difficulty, hashOf(j)) == NotGolden
    ensures ScanInclusive(hashOf, t) == Found(t.hi, hashOf(t.hi))
    ensures Published(ScanInclusive(hashOf, t)) == [Client.Sent(GoldenMessage(t.hi, hashOf(t.hi)), OutputGroup)]
  {
    ScanFindsLeastGolden(hashOf, t.lo, t.hi + 1, t.difficulty, t.hi);
  }

  /** The scan of main after the task has been received and deleted
      (instance.py:62-79): nonces min, min + 1, ... while i < max, stopping
      at the first golden one, which alone is published, or at the first
      IndexError of is_golden_nonce, after which nothing is published. */
  method Scan(sha: Sha256, body: Client.Task) returns (outcome: ScanOutcome, published: seq<Client.Sent<GoldenMessage>>)
    ensures outcome == ScanFrom(NonceHashes(sha), body.lo, body.hi, body.difficulty)
    ensures published == Published(outcome)
  {
    var i := body.lo;
    var max := body.hi;
    var difficulty := body.difficulty;
    published := [];
    while i < max
      invariant body.lo <= i
      invariant ScanFrom(NonceHashes(sha), i, max, difficulty) == ScanFrom(NonceHashes(sha), body.lo, max, difficulty)
      decreases max - i
    {
      var nonce := ComputeNonce(sha, i);
      var v := IsGoldenNonce(difficulty, nonce);
      if v == IndexError {
        return Raised(i), published;
      }
      if v == Golden {
        published := published + [Client.Sent(GoldenMessage(i, nonce), OutputGroup)];
        return Found(i, nonce), published;
      }
      i := i + 1;
    }
    return Exhausted(i), published;
  }
}
