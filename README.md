# Distributed golden-nonce search: a Dafny model

The system searches the nonces `0 .. 2^32 - 1` for a "golden" one. A nonce is
golden when the double SHA-256 of `"COMSM0010cloud" + str(nonce)`, written out
as 256 binary digits, starts with `difficulty` zeros. A coordinator
(`client.py`) splits the space into one inclusive range per worker and sends
one task message `{min, max, difficulty}` per range to an input queue. Each
worker (`instance.py`) takes one task, scans its range, and sends the first
golden nonce it finds to an output queue.

The model covers the computational core of both programs:

- `client.dfy`, module `Client`: the batch size `ceil(max_nonce / number_vms)`,
  the batch list built by the comprehension over
  `range(0, max_nonce, batch_size)`, the exceptions that step can raise, and the
  loop that builds one task message per batch.
- `hexbits.dfy`, module `HexBinary`: the conversion inside `get_final_hash`.
  It prepends a sentinel `"1"`, parses base 16, applies `bin()` and drops 3
  characters. The model proves this equals the digit-by-digit 4-bit expansion
  of the hex digest.
- `worker.dfy`, module `Worker`: the block and the double hash,
  `compute_nonce`, `is_golden_nonce` (a method with its loop) and the scan loop
  of `main` (a method with its loop). Each method is proved against a recursive
  specification function, and lemmas state what that function means.
- `search.dfy`, module `Search`: the partition and the workers' scans taken
  together.

SHA-256 is abstract. A hasher (`Worker.Sha256`) is any total function from
strings to 64-character lower-case hex strings. The scan specification
`Worker.ScanFrom` takes the nonce-hashing function as a parameter, and the
worker uses `Worker.NonceHashes(sha)`, which is `compute_nonce`. Determinism
comes for free: `compute_nonce` is a Dafny function of the hasher and the
nonce.

The search-space size is a parameter `maxNonce` of `Client.Partition`. The
program's value `2**32` is `Client.MaxNonce`. Python's float division and
`math.ceil` are modelled as exact integer ceiling division. The two agree for
every search-space size below `2**53`.

Two places in the source disagree with each other, and the model keeps both as
the code has them:

- The worker scans `while i < max` (instance.py:65), but the batch's `max` is
  inclusive (client.py:86). So the last nonce of every batch is never tested.
  `Worker.MaxNeverTested` and `Search.TestedIffNotBatchMax` state this.
- The worker publishes only `golden_number` (the nonce) and `golden_nonce` (its
  binary hash) (instance.py:72-75). `Worker.GoldenMessage` has exactly these two
  fields. The client reads `golden_hash`, `start_time` and `end_time` from the
  message (client.py:114-116). The worker never sends them.

## Model

| member | source | states |
|---|---|---|
| `Client.CeilDiv` | client.py:84 | The batch size is the ceiling of `max_nonce / number_vms`: `r * n >= a` and `r * n < a + n`. |
| `Client.BatchSizeBounds` | client.py:84 | `batch_size * number_vms >= max_nonce`. The batch size is at least 1 exactly when `max_nonce >= 1`. |
| `Client.PartitionErrors` | client.py:84-88 | The split fails with ZeroDivisionError exactly when `number_vms == 0`. It fails with the zero-step ValueError of `range` exactly when `max_nonce == 0`. It succeeds otherwise. |
| `Client.RangeBatchesAt` | client.py:85-88 | Batch k of the comprehension is `[start + k*step, min(start + (k+1)*step, m) - 1]`. Its start is below `m`. |
| `Client.RangeBatchesWellFormed` | client.py:85-88 | Every emitted batch satisfies `start <= min <= max < m`. No inverted range is emitted. |
| `Client.RangeBatchesCount` | client.py:85-88 | The comprehension emits nothing when `start >= m`. Otherwise its last batch starts below `m`: `(count - 1) * step < m - start`. |
| `Client.RangeBatchesAdjacent` | client.py:86-87 | Each batch starts one past the previous batch's max. |
| `Client.RangeBatchesEnds` | client.py:86-87 | The first batch starts at `start`. The last ends at `m - 1`, clamped by `min(..., max_nonce)`. |
| `Client.RangeBatchesCover` | client.py:85-88 | Each nonce of `[start, m)` lies in some batch, and in no two batches. |
| `Client.RangeBatchesTotal` | client.py:85-88 | The batch sizes add up to `m - start`. |
| `Client.PartitionShape` | client.py:84-88 | The split succeeds. There are 1 to `number_vms` batches. Batch k starts at `k * batch_size`. Every batch is a non-empty range inside `[0, max_nonce)`. The first starts at 0, the last ends at `max_nonce - 1`, and neighbours are adjacent. |
| `Client.PartitionCovers` | client.py:84-88 | Each nonce of `[0, max_nonce)` lies in exactly one batch. No batch holds any other nonce. The sizes add up to `max_nonce`. |
| `Client.EvenSplitExample` | client.py:84-88 | `max_nonce = 16`, 4 workers gives `[0,3],[4,7],[8,11],[12,15]`. |
| `Client.ClampedSplitExample` | client.py:84-88 | `max_nonce = 10`, 3 workers gives `[0,3],[4,7],[8,9]`. |
| `Client.SingleWorkerExample` | client.py:71-88 | With `2**32` nonces and one worker, there is one batch `[0, 2**32 - 1]`. |
| `Client.Dispatch` | client.py:92-102 | One message per batch, in batch order. Each copies its batch's min and max, carries the difficulty, and has group id `input_queue`. |
| `Client.SplitAndDispatch` | client.py:84-102 | Split and send. A split error is returned as is. Otherwise exactly one task message is sent per batch of the partition, in order. |
| `HexBinary.SentinelDigits` | instance.py:12 | `int("1" + hex, 16)` is at least 1, and its binary digits are `"1"` followed by the 4-bit expansion of `hex`. |
| `HexBinary.SentinelBinaryIsExpansion` | instance.py:12 | `bin(int("1" + hex, 16))[3:]` equals the reference expansion: every hex digit replaced by its 4 zero-padded bits, in order. |
| `HexBinary.ExpandShape` | instance.py:12 | The expansion has exactly `4 * len(hex)` characters, all `'0'` or `'1'`. |
| `HexBinary.ExpandAt` | instance.py:12 | Hex digit j becomes characters `4j .. 4j+3` of the expansion. |
| `HexBinary.ExpandValue` | instance.py:12 | The expansion, read in base 2, has the base-16 value of `hex`. |
| `HexBinary.SentinelBinaryCorrect` | instance.py:12 | The conversion has width `4 * len(hex)` whatever the leading zero digits. It is binary, has the value of the hex string, and gives each digit its 4 bits in order. |
| `HexBinary.LeadingZeros` | instance.py:19-25 | A binary string starts with d `'0'`s exactly when its value is below `2^(len(s) - d)`. |
| `Worker.Decimal` | instance.py:28 | `str(n)` of a nonce is a non-empty string of decimal digits. |
| `Worker.DecimalRoundTrip` | instance.py:28 | Parsing `str(n)` back gives `n`. |
| `Worker.BlockInjective` | instance.py:27-30 | Different nonces give different blocks `base_block + str(n)`. |
| `Worker.FinalHashShape` | instance.py:10-13 | `get_final_hash` of any block is 256 binary digits. Read in base 2, it is the value of the second hex digest. |
| `Worker.VerdictFromMeaning` | instance.py:19-25 | From counter i, `is_golden_nonce` returns True exactly when characters `i .. d-1` exist and are `'0'`. It raises IndexError exactly when the hash is shorter than d and all `'0'`. It returns False exactly when some character below d is not `'0'`. |
| `Worker.GoldenVerdictMeaning` | instance.py:19-25 | `is_golden_nonce(d, h)` is True exactly when `d <= len(h)` and `h[j] == '0'` for all `j < d`. It is False exactly when some `h[j]` with `j < d` is not `'0'`. It never raises when `d <= len(h)`. |
| `Worker.ZeroDifficultyGolden` | instance.py:20-25 | A difficulty of 0 (or below) accepts every hash. |
| `Worker.NotGoldenReadsPrefix` | instance.py:21-23 | The answer is False once a character below the difficulty is not `'0'`. Any hash that agrees up to that character gets the same answer. |
| `Worker.GoldenIffBelowTarget` | instance.py:10-30 | For `0 <= d <= 256`, a nonce is golden exactly when its second hex digest, read as a number, is below `2^(256 - d)`. The difficulty counts leading zero bits. |
| `Worker.IsGoldenNonce` | instance.py:19-25 | The loop with its early returns computes the `is_golden_nonce` verdict, IndexError included. |
| `Worker.ScanFromMeaning` | instance.py:62-79 | A scan that breaks stops at the least golden nonce of `[min, max)` and carries that nonce's hash. A raise happens at the least nonce whose check raises. When the loop runs out, no nonce of `[min, max)` is golden, and `i` ends at `max` (or `min` if `min >= max`). |
| `Worker.ScanReadsOnlyRange` | instance.py:65-79 | The outcome depends only on the hashes of the nonces in `[min, max)`. The hash of `max` is never looked at, and a task delivered twice is scanned to the same outcome. |
| `Worker.ScanFindsLeastGolden` | instance.py:65-79 | If the least golden nonce of `[min, max)` is n, the scan breaks at n. It publishes exactly one message, `{golden_number: n, golden_nonce: hash(n)}`. |
| `Worker.ZeroDifficultyReportsMin` | instance.py:62-79 | With difficulty 0, a task with `min < max` reports `min` at once. |
| `Worker.MaxNeverTested` | instance.py:65 | A task whose only golden nonce is its max runs out at `max` and publishes nothing. |
| `Worker.InclusiveTestsMax` | instance.py:65 | With an inclusive bound, that same task reports its max. |
| `Worker.Scan` | instance.py:62-79 | The while loop with `break` computes the scan outcome. It publishes exactly the single message of a break, and nothing when it runs out or raises. |
| `Search.OwnerOf` | client.py:84-88 | Every nonce of `[0, max_nonce)` has a batch that holds it. |
| `Search.TestedIffNotBatchMax` | instance.py:62-65 | Against the inclusive batches of client.py:86, a nonce of `[0, max_nonce)` is tested by some worker exactly when it is not the max of a batch. |
| `Search.ScanThroughGolden` | instance.py:62-79 | For a difficulty of at most 256, the scan of a range holding a golden nonce x never raises. It breaks at a golden nonce between `min` and x. |
| `Search.GoldenNonceReported` | instance.py:62-79 | Every golden nonce of `[0, max_nonce)` that is not a batch max is reported. The worker of its batch publishes exactly one message, for a nonce of that batch at or before it. |
| `Search.InclusiveScanReportsEveryGolden` | instance.py:65 | With the inclusive bound, every golden nonce of `[0, max_nonce)` is reported by the worker of its batch, including batch maxes. |

## Findings

| source | as written | input that shows it | evidently intended | confidence | as-written member | corrected member |
|---|---|---|---|---|---|---|
| instance.py:65 | `while i < max`, while the task's `max` is the inclusive end `min(i+batch_size, max_nonce)-1` of client.py:86 | `max_nonce = 16`, 4 workers, batch `[12, 15]`, where 15 is the only golden nonce of the batch: that worker publishes nothing, and no worker ever tests 15 | `while i <= max`, so that every nonce of `[0, max_nonce)` is tested exactly once | high; not executed | `Worker.MaxNeverTested` | `Worker.InclusiveTestsMax` |

The worker method `Worker.Scan` keeps the bound as written. The corrected
scan `Worker.ScanInclusive` is the one used by
`Search.InclusiveScanReportsEveryGolden`, which proves that every golden nonce
is then reported.

## Left out

- EC2 instance creation and termination (client.py:16-26, 129-137): cloud I/O. `cleanup` is only a sequence of such calls.
- Queue creation, purge and the 60-second settle (client.py:28-46), `send_message` and `delete_messages`, and the queue deletes: cloud I/O. A sent message is modelled as a `Client.Sent` record with its body and group id.
- The `receive_messages` polling loops (client.py:49-55, instance.py:32-38): unbounded blocking on an external service. The worker's scan starts from the task body it received.
- Signal handling, `signal.alarm`, `scram` and the `shutdown_data` globals (client.py:58-67, 139-149): asynchronous interrupts.
- The client's reading of the result and the timing arithmetic (client.py:69-70, 107-122): wall-clock float seconds. The lookups of `golden_hash`, `start_time` and `end_time`, which the worker never sends, are part of this and are not modelled.
- JSON encoding and decoding (client.py:100, 110; instance.py:52, 72-75): library calls. Messages are Dafny records.
- SHA-256 itself (instance.py:15-17): a hasher is any function returning 64 lower-case hex digits.
- The argument parser and all `print` output (client.py:152-160).
- The commented-out `main` of instance.py:83-99.
- Client.Partition: a negative `number_vms` is not modelled (the parameter is a `nat`). `create_instances` at client.py:78 rejects it before the split.
- Floating point: `math.ceil(max_nonce / number_vms)` divides in floats. The model uses exact integer ceiling division instead. The two agree whenever `max_nonce` is below `2**53`: the rounding error of the quotient is smaller than `1 / number_vms`, its distance to any other integer. That bound covers `2**32`.
- HexBinary.HexValue: only lower-case hex digits are parsed. `int(..., 16)` also accepts upper case, but `hexdigest()` never produces it.
