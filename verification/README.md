# Verified model of the resp-bench engines

This project models the cores of the multi-language Redis/Valkey benchmark suite and
proves the claims its documentation makes about them: the random generators of all
ports are byte-identical, percentiles and merges lose nothing, a phase records exactly
its target, the rate is kept, and the report pipeline drops no data it should keep.

- `FixedWidth.dfy`, `Arithmetic.dfy`, `Sums.dfy`, `Wrappers.dfy`: machine integers,
  powers of two, bit operations, sums over sequences, optional values.
- `Iteration.dfy`, `JavaRandom.dfy`, `JavaRandomPorts.dfy`: the generator of `java.util.Random`, its
  period and its rejection loop, and the three ways in which the ports compute it.
- `HdrLayout.dfy`, `HdrCounts.dfy`, `HdrHistogram.dfy`: value-to-bucket indexing for every
  unit, precision and bucket count; counts and percentiles; the histogram object.
- `CountsCodec.dfy`: the V2 payload with its zero runs, ZigZag and LEB128 (section 7.6 of
  the DWARF 5 specification), encoders and decoder.
- `Metrics.dfy`, `Collector.dfy`, `EndToEnd.dfy`: collectors as values and as objects, why
  the split over workers and the order of merging do not matter, and what that means for the
  reported percentiles and payload bytes.
- `Budget.dfy`, `PhaseRun.dfy`, `PhaseRate.dfy`, `CSharpClaims.dfy`: request budgets, a phase run as
  interleaved step machines, and what its rate limiters mean for it.
- `Sharing.dfy`, `StridedKeys.dfy`, `OnePass.dfy`, `PhpEngine.dfy`, `Decimal.dfy`: split shares,
  strided keys against a shared counter, transfer of metrics between processes, and the text of keys.
- `RateLimiter.dfy`, `LockRuns.dfy`, `CasLimiter.dfy`, `IdleSlots.dfy`: the lock-based limiter and its
  callers, the compare-and-swap limiter that refines it, and the slot-reserving limiter, also after idle time.
- `Calendar.dfy`: dates and timestamps against the Gregorian calendar (section 5.7
  and Appendix C of RFC 3339).
- `Outliers.dfy`: the consensus filter for outlier runs.

Some statements in the sources do not hold. The model follows the code, and each has its exact condition:

- The Go comment that the generator's product fits 64 bits holds only for states up to 365790489
  (`JavaRandomPorts.ProductFits`); for the others the wrap and the mask give the exact low 48 bits.
- For bounds above 2^31 that are not powers of two, PHP's loop accepts no draw and never ends
  (`JavaRandomPorts.SplitAcceptsSome`), where the other ports return a value or not by their own rules.
- The highest trackable value given to a histogram is not always trackable, because the bucket loop
  compares with a strict less-than (`HdrHistogram.HighestIsTracked`).
- The union of the strided keys of all PHP workers is the whole key space only if enough workers are
  active (`OnePass.PopulatesEveryKeyIff`, `OnePass.StridesCoverOnePass`, `StridedKeys.CoversEveryTotal`); two connections at one
  request per second leave a key out (`OnePass.TwoConnectionsAtOneRps`).
- The lock-based limiters do allow a burst after idle time (`RateLimiter.NoBurstIffNotBehind`); the Rust limiter
  does not (`IdleSlots.NoBurstAfterIdle`).
- The interval between operations is rounded down. A phase of split limiters still keeps its rate
  exactly when the rounding, over the whole time, is less than one interval of each share
  (`RateLimiter.PhaseKeepsRateIff`); the Rust limiter keeps the rate in every one-second window exactly
  when it divides a second in nanoseconds (`CasLimiter.RateKeptIffDivisor`).

## Model

| member | source | states |
|---|---|---|
| Lcg.HalfPeriodFlipsTopBit | go/internal/engine/javarandom.go:33-36 | From every state, 2^47 steps give the same state with bit 47 flipped. |
| Lcg.FullPeriod | go/internal/engine/javarandom.go:33-36 | From every state, n steps return to it if and only if 2^48 divides n. |
| Lcg.ScrambleSeparatesSeeds | go/internal/engine/javarandom.go:20-28 | Two seeds start the generator alike if and only if their low 48 bits agree. |
| Lcg.ScrambleIsXor | go/internal/engine/javarandom.go:20-28 | Undoing the exclusive or with 0x5DEECE66D gives the low 48 bits of the seed back, and each of the 48 bits is that of the seed, flipped where 0x5DEECE66D has a one. |
| Lcg.SeedZeroDraws | go/internal/engine/javarandom.go:30-63 | Seed 0 draws 360, 948 and 29 below 1000, and below 1024 the third is 246, with the states in between. |
| JavaRandomPorts.WrappedScrambleIs | rust/src/engine/java_random.rs:20-32 | The exclusive or on signed 64-bit integers and the mask of Go and Rust give the same state, for every seed. |
| JavaRandomPorts.ExactScrambleIs | node/src/engine/javaRandom.ts:35-61 | And so do those on unbounded integers of Python and Node. |
| Lcg.AcceptedDraws | go/internal/engine/javarandom.go:56-62 | The accepted 31-bit draws are exactly those below bound * floor(2^31 / bound). |
| Lcg.RejectedIsHigh | go/internal/engine/javarandom.go:56-62 | A draw is rejected only from a state whose bit 47 is set. |
| Lcg.RejectionLoopEnds | go/internal/engine/javarandom.go:56-62 | From every state and for every bound, at most 2^47 draws are rejected before one is accepted. |
| Lcg.RejectionIsUniform | go/internal/engine/javarandom.go:56-62 | Each result below the bound has exactly floor(2^31 / bound) accepted draws. |
| Lcg.ShiftIsUniform | go/internal/engine/javarandom.go:45-48 | For a power of two each result has exactly 2^31 / bound draws. |
| JavaRandomPorts.WrappedStep | rust/src/engine/java_random.rs:34-40 | Multiplying and adding with 64-bit wrap-around and then masking is the exact step. |
| Lcg.NextIntIsFirstKept | go/internal/engine/javarandom.go:38-63 | nextInt returns the result of the first draw it keeps, and at most 2^47 draws come before it. |
| Lcg.NextIntIsUniform | go/internal/engine/javarandom.go:45-62 | For every bound, on whichever path it takes, each result has exactly floor(2^31 / bound) draws that are kept for it. |
| JavaRandomPorts.ProductFits | go/internal/engine/javarandom.go:33-36 | The product and sum fit a signed 64-bit integer, and the wrap changes nothing, if and only if the state is at most 365790489. |
| JavaRandomPorts.SplitAcceptsSome | php/src/Engine/JavaRandom.php:53-68 | The PHP test accepts some draw if and only if the bound is at most 2^31. |
| JavaRandomPorts.ExactAcceptsAllOrNone | node/src/engine/javaRandom.ts:50-56 | For bounds from 2^31 on, Node's test, and Python's for bounds that are not powers of two, accepts every draw or none, by the low 32 bits of bound - 1, and the draw is below the bound already. |
| JavaRandomPorts.PythonShift | python/src/resp_bench/engine/java_random.py:39-41 | At powers of two from 2^31 on Python returns the draw times bound / 2^31. |
| JavaRandomPorts.GoTruncatesBound | go/internal/engine/javarandom.go:56-62 | For bounds from 2^31 on whose low 32 bits are a positive int32, Go's test is the one for those low 32 bits. |
| JavaRandomPorts.GoNegativeBound | go/internal/engine/javarandom.go:56-62 | When they are a negative int32, it accepts exactly the draws from twice their size on, and all at -2^31. |
| JavaRandomPorts.GoAcceptsSome | go/internal/engine/javarandom.go:56-62 | So for low 32 bits that are not zero it accepts some draw if and only if they are positive, -2^31, or above -2^30. |
| JavaRandomPorts.LargeBoundsDiffer | php/src/Engine/JavaRandom.php:53-68 | At bound 2^32 + 1 PHP accepts no draw, Python and Node all, and Go draws below 1. |
| JavaRandomPorts.SplitProduct | php/src/Engine/JavaRandom.php:84-110 | The two 24-bit partial products and their sum fit a signed 64-bit integer and give the exact product modulo 2^48. |
| JavaRandomPorts.AcceptTestsAgree | node/src/engine/javaRandom.ts:50-56 | The int32-wrapped test, the reinterpreted low 32 bits and the comparison with 2147483647 accept the same draws. |
| JavaRandomPorts.WrappingRandom.NextInt | go/internal/engine/javarandom.go:38-63 | Go and Rust: returns the reference draw and leaves the reference state, or reports a bound that is not positive and changes nothing. |
| JavaRandomPorts.SplitRandom.NextInt | php/src/Engine/JavaRandom.php:42-69 | PHP: the same draw, state and error. |
| JavaRandomPorts.ExactRandom.NextInt | python/src/resp_bench/engine/java_random.py:34-57 | Python and Node: the same draw, state and error. |
| JavaRandomPorts.PortsGiveOneStream | php/src/Engine/JavaRandom.php:42-110 | For every seed and every sequence of bounds the three kinds of port return one and the same sequence. |
| HdrLayout.Layout.IndexOfFloor | go/internal/metrics/hdrhistogram.go:164-194 | The index of the floor of bucket i is i, for every layout and every i. |
| HdrLayout.Layout.Tiling | go/internal/metrics/hdrhistogram.go:164-213 | A value has index i if and only if it lies between the floors of i and i + 1: buckets have no gap and no overlap. |
| HdrLayout.Layout.IndexMonotone | php/src/Metrics/HdrHistogram.php:189-228 | A larger value never has a smaller index. |
| HdrLayout.Layout.EquivalentValues | php/src/Metrics/HdrHistogram.php:230-253 | Values of one bucket share their lowest and next non-equivalent value, and the latter is the next floor. |
| HdrLayout.Layout.TrackableRange | go/internal/metrics/hdrhistogram.go:51-66 | A value has an index inside the counts array if and only if it is below subBucketCount << (unitMagnitude + bucketCount - 1). |
| HdrLayout.Layout.RelativeError | go/internal/metrics/hdrhistogram.go:196-213 | With unit 1, the reported value exceeds a sample by at most one part in the half sub-bucket count. |
| HdrLayout.Layout.SmallValuesAreIndices | go/internal/metrics/hdrhistogram.go:164-194 | With unit 1, values below the sub-bucket count are their own index, floor and reported value. |
| HdrLayout.Layout.IndexDoubles | go/internal/metrics/hdrhistogram.go:164-194 | And from the half count on, twice a value, or once more, has its index plus the half count. |
| HdrLayout.Layout.UnitScales | go/internal/metrics/hdrhistogram.go:164-194 | With a larger unit the floors are those for unit 1 times the unit, and a value has the index that the number of whole units in it has for unit 1. |
| HdrHistogram.LayoutParameters | go/internal/metrics/hdrhistogram.go:42-68 | The unit is the greatest power of two within the lowest value, the sub-bucket count the least one that holds 2 * 10^digits, and the bucket count the least whose range reaches the highest value. |
| HdrHistogram.CountBuckets | go/internal/metrics/hdrhistogram.go:55-66 | The loop, with its guard against 64-bit overflow, finds the least bucket count whose range reaches the highest value. |
| HdrHistogram.HighestIsTracked | go/internal/metrics/hdrhistogram.go:55-66 | Up to the highest value, all values are tracked, except the highest itself exactly when it is a power of two at or above the first untrackable value. |
| HdrHistogram.HighestCanBeUntracked | go/internal/metrics/hdrhistogram.go:57 | For every power of two large enough for its precision, the histogram built with it as highest value does not track it. |
| HdrHistogram.HighestCanBeUntrackedInstance | go/internal/metrics/hdrhistogram.go:57 | With lowest 1, highest 2048 and three digits, 2048 has no index inside the counts array. |
| HdrHistogram.DefaultLayout | go/internal/metrics/hdrhistogram.go:70-74 | The shared parameters give 20 buckets, 21504 counts and a range of 2^30. |
| HdrHistogram.UntrackedIsDropped | go/internal/metrics/hdrhistogram.go:80-102 | A sample outside the range is lost by a merge. |
| HdrHistogram.ComputeBitLength | go/internal/metrics/hdrhistogram.go:215-223 | The shift loop computes the bit length. |
| HdrHistogram.Histogram.RecordValueWithCount | go/internal/metrics/hdrhistogram.go:79-93 | Adds count at the value's index and to the total, raises the maximum and lowers the non-zero minimum; negative values and counts that are not positive change nothing. |
| HdrHistogram.Histogram.Merge | go/internal/metrics/hdrhistogram.go:95-102 | The new counts, total and extremes are those of re-recording the other histogram's buckets at their floors. |
| HdrHistogram.FloorsWithinExtremes | go/internal/metrics/hdrhistogram.go:95-102 | After a merge the recorded extremes bound the floors of all populated buckets. |
| HdrHistogram.ExtremesAttained | go/internal/metrics/hdrhistogram.go:95-102 | And each extreme is the one from before or the floor of a populated bucket. |
| HdrHistogram.RecordedExtremes | go/internal/metrics/hdrhistogram.go:87-92 | After recording values the maximum is the greatest of them and the minimum the least that is not 0, unless the ones from before are beyond these. |
| HdrHistogram.EdgePercentiles | go/internal/metrics/hdrhistogram.go:107-121 | Percentile 0, the minimum, is reported from the least sample and percentile 100, the maximum, from the greatest; without samples both are 0. |
| HdrHistogram.Histogram.Percentile | go/internal/metrics/hdrhistogram.go:123-146 | The scan over the counts returns the percentile of the specification. |
| HdrHistogram.Histogram.RelevantLength | go/internal/metrics/hdrhistogram.go:151-160 | One past the highest populated index. |
| HdrCounts.BelowIsNumBelow | go/internal/metrics/hdrhistogram.go:138-144 | The running count at index n is the number of samples below the floor of n. |
| HdrCounts.PercentileIsRank | go/internal/metrics/hdrhistogram.go:123-146 | A percentile is the highest value equivalent to the sample of the percentile's rank, within one part in the half sub-bucket count, and the fallback to the recorded maximum is not reached. |
| HdrCounts.RankIsLeast | go/internal/metrics/hdrhistogram.go:134-137 | The rank is the least number from 1 on that is no less than p / 100 of the total. |
| HdrCounts.RankIsAtPercentile | go/internal/metrics/hdrhistogram.go:128-146 | At least p percent of the samples are at most the sample of that rank, and fewer than p percent, or none, are below it. |
| HdrCounts.MergeIsLossless | go/internal/metrics/hdrhistogram.go:95-102 | Merging adds the counts index by index if and only if the other histogram has none outside its array. |
| HdrCounts.MergedSamples | php/src/Metrics/HdrHistogram.php:106-115 | Merging the histograms of two lists of samples gives the histogram of both lists. |
| CountsCodec.ZigZagBitsIsZigZag | go/internal/metrics/hdrencoder.go:103-105 | Shifting and exclusive-or on 64 bits is the arithmetic ZigZag map for every signed 64-bit value. |
| CountsCodec.AppendZigZag | go/internal/metrics/hdrencoder.go:102-113 | Appends the LEB128 bytes of the ZigZag value. |
| CountsCodec.EncodeZigZagSigned | php/src/Metrics/HdrEncoder.php:108-141 | With signed integers and a logical shift, PHP writes the same bytes. |
| CountsCodec.ReadLebOfLeb | ruby/lib/resp_bench/metrics/hdr_histogram_encoder.rb:208-228 | Reading LEB128 anywhere in a string gives back the number and the number of its bytes. |
| CountsCodec.LebGroups | php/src/Metrics/HdrEncoder.php:108-141 | Byte i of a number holds its seven bits from 7 i on, and the high bit exactly when another byte follows. |
| CountsCodec.LebLength | php/src/Metrics/HdrEncoder.php:108-141 | There are as many bytes as the number needs, and at least one. |
| CountsCodec.DecodeZigZag | ruby/lib/resp_bench/metrics/hdr_histogram_encoder.rb:208-228 | The loop with or and shift reads the value the specification reads, and zero bytes from a truncated one. |
| CountsCodec.UnZigZagBits | ruby/lib/resp_bench/metrics/hdr_histogram_encoder.rb:225-227 | The final shift and exclusive or of the decoder undo ZigZag. |
| CountsCodec.EncodeCounts | go/internal/metrics/hdrencoder.go:79-100 | The loop writes the tokens of the first relevant counts, zeros as maximal runs. |
| CountsCodec.DecodeCounts | ruby/lib/resp_bench/metrics/hdr_histogram_encoder.rb:138-157 | The decoding loop computes the specified counts, index and offset on any bytes. |
| CountsCodec.RoundTrip | ruby/lib/resp_bench/metrics/hdr_histogram_encoder.rb:138-157 | Decoding what was encoded gives exactly the counts and consumes every byte. |
| CountsCodec.EncodeExample | go/internal/metrics/hdrencoder.go:79-113 | The counts 0, 0, 5, 100 are the bytes 3, 10, 200, 1. |
| CountsCodec.HeaderFields | go/internal/metrics/hdrencoder.go:56-77 | The 40 bytes are the cookie 1c 84 93 13, the counts length, four zeros, the precision, both bounds, and 3F F0 and six zeros, each number with its most significant byte first. |
| CountsCodec.BigEndianByte | go/internal/metrics/hdrencoder.go:56-77 | Byte k of n is the value divided by 256^(n - 1 - k), modulo 256. |
| CountsCodec.DecodesIff | ruby/lib/resp_bench/metrics/hdr_histogram_encoder.rb:105-136 | Data is decoded if and only if it holds a whole header whose cookie is that of V2, with any word size. |
| CountsCodec.DecodeExample | ruby/lib/resp_bench/metrics/hdr_histogram_encoder.rb:138-157 | A zero in the data is a count of its own, a number in more bytes than it needs is read, and a truncated one ends the counts. |
| CountsCodec.PayloadRoundTrip | php/src/Metrics/HdrEncoder.php:59-82 | The whole payload decodes to the histogram's bounds, precision and counts. |
| Metrics.RecordStatsConsistent | go/internal/metrics/collector.go:26-37 | Recording keeps requests equal to errors plus histogram total, and the total equal to the sum of the counts. |
| Metrics.ClampKeepsTracked | go/internal/metrics/collector.go:29-33 | A latency of at most 600 s is recorded as it is, a longer one as 600 s. |
| Metrics.RecordIsCombine | go/internal/metrics/collector.go:76-88 | Recording a result combines with the collector of that result alone. |
| Metrics.MergeIsCombine | go/internal/metrics/collector.go:90-111 | On consistent collectors merging is the combination by commands, and keeps consistency. |
| Metrics.CombineCommutes | go/internal/metrics/collector.go:90-111 | The combination does not depend on the order of two collectors. |
| Metrics.CombineAssociates | go/internal/metrics/collector.go:90-111 | Nor on their grouping. |
| Metrics.FromResultsOrder | go/internal/metrics/collector.go:76-88 | A collector depends only on which results it was given, not on their order. |
| Metrics.MergeOrderIrrelevant | go/internal/metrics/collector.go:90-111 | However results are spread over workers and in whatever order collectors merge, totals and per-command counts are those of one collector, and the window is the earliest start and the latest stop. |
| Metrics.TotalsAreSums | go/internal/metrics/collector.go:76-88 | Total requests and errors are the sums over the commands. |
| Metrics.MergedTotalsAreSums | go/internal/metrics/collector.go:90-111 | The same for merged collectors, however the results were spread over them. |
| Metrics.FromResultsCounts | go/internal/metrics/collector.go:76-88 | A collector counts the results it was given, the failed ones, and those of each command. |
| Metrics.MergedCounts | go/internal/metrics/collector.go:90-111 | And merged collectors count those of all workers. |
| Collectors.Collector.Record | go/internal/metrics/collector.go:76-88 | The object's new contents are those of recording the result. |
| Collectors.Collector.MergeFrom | go/internal/metrics/collector.go:90-111 | The object's new contents are the merge of both; the other collector is not in its frame. |
| Collectors.Collector.IngestCommand | php/src/Metrics/Collector.php:150-158 | The object's new contents are those of merging the counters and histogram into the command. |
| Collectors.SafeMerger.Merge | go/internal/metrics/collector.go:146-151 | The guarded section is one merge into the destination. |
| EndToEnd.MergedPercentile | go/internal/metrics/collector.go:90-111 | With the shared parameters, a merged percentile p is the latency that at least p percent of the command's latencies over all workers do not exceed and fewer than p percent fall short of, or above it by at most one part in 1024; for a latency above 600 s it is the top of the bucket of 600 s. |
| EndToEnd.MergedPayload | go/internal/metrics/hdrencoder.go:56-100 | A merged command's payload bytes are those of one histogram fed all latencies, and decode to it. |
| Budget.ClaimDispensesTicket | go/internal/engine/benchmark.go:307-313 | The Go, Rust, Node and Python claims are each one step of a dispenser of target tickets. |
| Budget.ClaimsSucceedUpToTarget | rust/src/engine/benchmark.rs:389-395 | Of n claims exactly min(n, target) succeed. |
| Budget.RequestBudget.Claim | node/src/engine/benchmark.ts:60-72 | Node's object claims as the dispenser does. |
| PhaseRun.StepInv | go/internal/engine/benchmark.go:206-335 | Every step of every worker keeps tickets conserved, the budget, the reason for stopping and the key streams. |
| PhaseRun.ClaimsNeverExceedTarget | rust/src/engine/benchmark.rs:384-424 | In every interleaving claims stay within the target, their number is that of the results in flight, in a collector or lost, and refused claims move the counter at most once for each worker. |
| PhaseRun.EachTicketOnce | go/internal/engine/benchmark.go:294-335 | In every run each ticket handed out is recorded once, held by one worker or lost to a panic, and no other ticket appears. |
| PhaseRun.EachResultKept | go/internal/engine/benchmark.go:254-274 | In every run each result occurs in the collectors, merged or not, or among those a panic dropped, as often as it was recorded. |
| PhaseRun.MergedIsLog | rust/src/engine/benchmark.rs:311-346 | When all workers are done and no collector was dropped, the merged collector has the data of one collector fed all results in the order recorded. |
| PhaseRun.ReportedPercentile | go/internal/engine/benchmark.go:206-292 | The percentile such a run reports for a command is the latency that at least p percent of those recorded do not exceed and fewer than p percent fall short of, or above it by at most one part in 1024; for a latency above 600 s it is the top of the bucket of 600 s. |
| PhaseRun.ExactTarget | go/internal/engine/benchmark.go:294-335 | A run that stops without interrupt or panic has exactly target results in the merged collector. |
| PhaseRun.NothingElseIsLost | go/internal/engine/benchmark.go:254-274 | With interrupts and panics the merged collector holds every claim a panic did not lose. |
| PhaseRun.CompletedIsExact | rust/src/engine/benchmark.rs:341-370 | A request-based phase reported COMPLETED recorded exactly its target, and not errors alone. |
| PhaseRun.StatusReported | go/internal/engine/benchmark.go:275-291 | A phase is INTERRUPTED if and only if it was interrupted; otherwise ERROR if and only if a worker panicked or there are merged results and all failed; otherwise COMPLETED. |
| PhaseRun.RunsAreBounded | rust/src/engine/benchmark.rs:384-424 | No run of a request-based phase has more than 4 target + 2 workers + 1 steps. |
| PhaseRun.NeverStuck | go/internal/engine/benchmark.go:294-335 | Until every worker is done some step is possible, waiting for the limiter included. |
| PhaseRun.RunsComplete | go/internal/engine/benchmark.go:206-335 | Every run of a request-based phase extends to one in which all workers are done. |
| PhaseRun.SomeRunStarts | go/internal/engine/benchmark.go:206-252 | Every configuration has a run, with the budget of any of the languages. |
| PhaseRun.CanInterrupt | go/internal/engine/benchmark.go:302-305 | An interrupt is possible at any time, and then a worker at the top of its loop can leave it. |
| PhaseRun.CanClaim | go/internal/engine/benchmark.go:306-313 | While fewer than target tickets are out, a worker at the top of its loop can take the next. |
| PhaseRun.CanDraw | rust/src/engine/benchmark.rs:398-406 | A worker that was let through can draw the next key of the counter or of its connection. |
| PhaseRun.CanRecord | go/internal/engine/benchmark.go:316-318 | A request in flight can settle with any result, which its worker records under its ticket. |
| PhaseRun.CanPanic | rust/src/engine/benchmark.rs:311-336 | It can panic, which stops the worker; Go keeps its earlier results, Rust drops them. |
| PhaseRun.CanMerge | go/internal/engine/benchmark.go:258-263 | A worker that left its loop can merge all its results, with its window. |
| PhaseRate.RunWithinAllowed | go/internal/engine/benchmark.go:298-335 | In every interleaving the results recorded and the requests let through by a time are at most what the limiters' schedules, as created, allow together. |
| PhaseRate.ConnectionWithinAllowed | go/internal/engine/benchmark.go:241-245 | With a limiter for each connection, the requests let through for a connection by a time are at most what the schedule of its own limiter allows. |
| PhaseRate.RunKeepsLimit | go/internal/engine/benchmark.go:241-245 | With one limiter at each connection's share, a run lets through and records at most limit a second and one more for each connection, while the rounding is small. |
| PhaseRun.SequentialKeysAreEven | rust/src/engine/key_generator.rs:24-35 | In every interleaving sequential draw i is i modulo the key count, one key for a count that is not positive, and n draws hit each key floor(n / keysCount) times or once more, and exactly which keys once more. |
| PhaseRun.DrawnFromSharedCounter | php/src/Engine/Benchmark.php:370-397 | They are the keys of the shared counter that strided workers are compared with. |
| PhaseRun.RandomKeysIgnoreDepth | rust/src/engine/benchmark.rs:287-309 | In every two runs, of any depths, the random keys of connection i are prefixes of the stream that all ports draw from the seed base + i below the key count; a sequential phase draws none. |
| CSharpClaims.ClaimsAreExact | csharp/src/RespBench/Engine/BenchmarkEngine.cs:256-339 | In every increment-then-undo interleaving successes stay within the target, the counter is successes plus pending undos, the counter reaches the target only with target successes, and a connection has at most depth commands pending. |
| CSharpClaims.RunsAreBounded | csharp/src/RespBench/Engine/BenchmarkEngine.cs:251-339 | No run has more than 5 target + 3 workers steps, undos, failures and stops included. |
| CSharpClaims.NeverStuck | csharp/src/RespBench/Engine/BenchmarkEngine.cs:251-339 | Until every worker is done some step is possible. |
| CSharpClaims.RunsComplete | csharp/src/RespBench/Engine/BenchmarkEngine.cs:251-339 | Every run extends to one in which all workers are done. |
| CSharpClaims.CanIncrement | csharp/src/RespBench/Engine/BenchmarkEngine.cs:251-339 | A worker at the top of a loop can increment whatever the count is. |
| CSharpClaims.CanSettle | csharp/src/RespBench/Engine/BenchmarkEngine.cs:296-339 | Any of the commands in flight can settle next. |
| CSharpClaims.CanFail | csharp/src/RespBench/Engine/BenchmarkEngine.cs:251-339 | A worker that need not undo a claim can fail, which stops the run and drops what it had in hand. |
| CSharpClaims.CanStop | csharp/src/RespBench/Engine/BenchmarkEngine.cs:251-316 | Once it is stopped a worker at the top of either loop can end and drop what is pending. |
| CSharpClaims.CanLeave | csharp/src/RespBench/Engine/BenchmarkEngine.cs:280-316 | Once the run is stopped a worker that fills or refills its pipeline can go on to drain it without a further claim. |
| CSharpClaims.EachTicketOnce | csharp/src/RespBench/Engine/BenchmarkEngine.cs:256-339 | In every interleaving each successful claim's number is recorded, held by one worker or dropped exactly once, and no other number occurs. |
| CSharpClaims.ExactTarget | csharp/src/RespBench/Engine/BenchmarkEngine.cs:251-339 | A run that ends without failure recorded exactly target results and left the counter there. |
| Sharing.SharesSumToTotal | go/internal/engine/benchmark.go:392-403 | Shares sum exactly to the total. |
| Sharing.SharesAreEven | go/internal/engine/benchmark.go:392-403 | Earlier workers get as much as later ones, or one more. |
| Sharing.ActiveCount | php/src/Engine/Benchmark.php:339-346 | Without a limit all workers are active, with one as many as the limit, at most all. |
| Sharing.ActiveSharesSumToLimit | php/src/Engine/Benchmark.php:339-378 | Go and PHP activate the same workers, give them the same positive shares, and these sum to the limit. |
| PhpEngine.KeyGenerator.NextKey | php/src/Engine/KeyGenerator.php:87-100 | A sequential worker emits its next strided key, a random one the reference draw. |
| PhpEngine.RunWorker | php/src/Engine/Benchmark.php:294-307 | The request loop of a worker emits the strided keys of its target. |
| StridedKeys.PhaseKeysAreDraws | php/src/Engine/Benchmark.php:380-397 | The keys of all workers are those of the draws in turn: draw t goes to active worker t modulo the active count. |
| StridedKeys.StridesCoverSharedCounter | php/src/Engine/Benchmark.php:370-397 | With every worker active, strided workers with split targets emit the multiset of keys one shared counter emits, for every number of requests and every key space. |
| StridedKeys.CoversEveryTotal | php/src/Engine/Benchmark.php:265 | They do so for every number of requests if and only if worker count and active count are equal modulo the key count. |
| StridedKeys.FewActiveNeverCover | php/src/Engine/Benchmark.php:265 | With fewer workers active than a common divisor of worker count and key count, they do so if and only if no worker runs twice, for every number of requests. |
| OnePass.StridesCoverOnePass | php/src/Engine/KeyGenerator.php:87-100 | For at most key-count requests, they do so if and only if no worker runs twice, or worker count and active count are equal modulo the key count, or a full pass is made and the active count is the greatest common divisor of worker count and key count. |
| OnePass.TwoConnectionsAtOneRps | php/src/Engine/Benchmark.php:339-346 | Two connections at one request per second, two requests and two keys: key 1 is never emitted. |
| OnePass.PopulatesEveryKeyIff | php/src/Engine/KeyGenerator.php:19-27 | Some number of requests populates every key if and only if at least as many workers are active as the greatest common divisor of worker count and key count. |
| PhpEngine.SerializeCounts | php/src/Engine/Benchmark.php:406-436 | The sparse map sent to the parent holds the histogram's counts. |
| PhpEngine.RebuildHistogram | php/src/Engine/Benchmark.php:466-475 | Re-recording the sparse map at bucket floors, in any order, restores the histogram's counts and total. |
| PhpEngine.TransferIsLossless | php/src/Engine/Benchmark.php:448-495 | Rebuilding every histogram at bucket floors and merging the payload leaves the parent as merging the worker's own collector would. |
| PhpEngine.TransfersLoseNothing | php/src/Engine/Benchmark.php:448-495 | For any number of workers the parent ends with the data of one collector fed all their results, and the widest window. |
| PhpEngine.SerializeCollector | php/src/Engine/Benchmark.php:406-436 | The payload made from the collector object holds its totals, window, counters and sparse counts. |
| PhpEngine.MergePartialInto | php/src/Engine/Benchmark.php:448-495 | The parent object's new contents are those of merging the payload. |
| Decimal.KeyGivesIndex | go/internal/engine/keygenerator.go:89-96 | The index can be read off a key, whatever the prefix and key size. |
| Decimal.KeysAreDistinct | rust/src/engine/key_generator.rs:80-85 | Keys of one key space are equal if and only if their indices are. |
| Decimal.KeyHasSize | php/src/Engine/KeyGenerator.php:111-121 | A key has the configured size if and only if the prefix leaves room for its digits. |
| Decimal.KeysHaveOneLength | go/internal/engine/keygenerator.go:89-96 | All keys have one length if and only if the largest index fits the padding. |
| Decimal.DocumentedKeys | go/internal/engine/keygenerator.go:89-96 | Key 0 of size 16 with prefix test: has eleven zeros; key 360 of size 8 with k: is k:000360; a prefix longer than the key size leaves one digit. |
| RateLimiter.LockLimiter.Acquire | go/internal/engine/ratelimiter.go:31-48 | Lets through one caller, no earlier than its slot, and advances the schedule by one interval. |
| RateLimiter.NewRateLimiter | go/internal/engine/ratelimiter.go:20-29 | No limiter if and only if the rate is not positive; otherwise a schedule that starts now. |
| RateLimiter.IntervalIsLongest | go/internal/engine/ratelimiter.go:20-29 | The interval is the longest whole number of nanoseconds of which rate fit into a second. |
| RateLimiter.AttemptOnSchedule | go/internal/engine/ratelimiter.go:36-44 | The k-th operation is never let through before origin + k intervals. |
| RateLimiter.GrantsByTime | go/internal/engine/ratelimiter.go:31-48 | By time T at most floor((T - origin) / interval) + 1 operations were let through. |
| RateLimiter.AllowedIsReached | go/internal/engine/ratelimiter.go:31-48 | The bound is reached by callers that come exactly on schedule. |
| RateLimiter.CatchUp | go/internal/engine/ratelimiter.go:31-48 | How many of n callers at one instant are let through after any idle time. |
| RateLimiter.NoBurstIffNotBehind | go/internal/engine/ratelimiter.go:8-14 | There is no burst if and only if the schedule is less than one interval behind the clock. |
| RateLimiter.TotalByTime | go/internal/engine/benchmark.go:383-403 | By any time, limiters of any origins and intervals together let through at most the sum of what their schedules allow. |
| RateLimiter.PhaseKeepsRateIff | go/internal/engine/benchmark.go:383-403 | Whatever their callers do, connections behind limiters at their shares let through at most limit a second and one more each, if and only if seconds * (10^9 mod share) is less than floor(10^9 / share) for every share. |
| LockRuns.LockKeepsSchedule | go/internal/engine/ratelimiter.go:31-48 | In every interleaving of callers the k-th acquire is not before origin + k intervals, and their number by now is bounded. |
| LockRuns.LostSleepHasWinner | go/internal/engine/ratelimiter.go:31-48 | In every run a caller that wakes and has to wait again slept while another caller acquired. |
| LockRuns.SleeperRests | go/internal/engine/ratelimiter.go:41-46 | In every run a caller that sleeps until a slot does nothing while the clock is before it. |
| LockRuns.CanAcquire | go/internal/engine/ratelimiter.go:31-48 | A caller that is not overtaken acquires at any time from its slot on, and the schedule advances by one interval. |
| CasLimiter.CasRefinesLock | csharp/src/RespBench/Engine/RateLimiter.cs:38-71 | Every step of every interleaving leaves the schedule alone or is one locked attempt with a clock reading not in the future. |
| CasLimiter.CasKeepsSchedule | csharp/src/RespBench/Engine/RateLimiter.cs:38-87 | In every interleaving the k-th acquire is not before origin + k intervals, and their number by now is bounded. |
| CasLimiter.SharedFailureHasWinner | csharp/src/RespBench/Engine/RateLimiter.cs:45-54 | In every run a swap can fail only when another caller's swap, at a step of the run since the load, succeeded. |
| CasLimiter.SharedAcquires | csharp/src/RespBench/Engine/RateLimiter.cs:38-71 | An idle caller that reads the clock at or after the slot and is not overtaken acquires. |
| CasLimiter.LostRaceHasWinner | rust/src/engine/rate_limiter.rs:36-60 | In every run a reservation can fail only when another caller's, at a step of the run since the load, succeeded. |
| CasLimiter.SlotsNeverBurst | rust/src/engine/rate_limiter.rs:36-60 | In every interleaving slots are at least an interval apart in order of reservation, no caller returns before its slot, and a window of width W holds at most ceil(W / interval) slots. |
| IdleSlots.SlotNotBeforeReading | rust/src/engine/rate_limiter.rs:36-48 | A reserved slot is the later of the cursor and the caller's reading of the clock. |
| IdleSlots.NoBurstAfterIdle | rust/src/engine/rate_limiter.rs:36-60 | In every run, when no caller holds a reading at time T, the slots reserved from then on are at least T plus their number of intervals, and by time U at most floor((U - T) / interval) + 1 of their callers returned. |
| IdleSlots.EachSlotOnce | rust/src/engine/rate_limiter.rs:36-60 | In every run each reserved slot has one caller, which sleeps or has returned once. |
| IdleSlots.SleepLastsTheWait | rust/src/engine/rate_limiter.rs:44-56 | The sleep lasts the wait computed from the reading, from when it begins. |
| IdleSlots.SleeperRests | rust/src/engine/rate_limiter.rs:44-56 | In every run a caller does nothing until its sleep is over. |
| CasLimiter.CanReserve | rust/src/engine/rate_limiter.rs:36-60 | A caller that is not overtaken reserves the later of cursor and clock and can return at exactly that time. |
| CasLimiter.RateKeptIffDivisor | rust/src/engine/rate_limiter.rs:22-32 | In every run every second holds at most rate slots, if and only if the rate divides 10^9. |
| Gregorian.NumberUnique | rust/src/metrics/ndjson_writer.rs:241-254 | Two dates of the calendar with the same day number are the same date. |
| Timestamp.CivilIsValid | rust/src/metrics/ndjson_writer.rs:241-254 | Every day number, also a negative one, gives a date of the calendar whose day number it is. |
| Timestamp.DaysFromCivil | rust/src/metrics/ndjson_writer.rs:241-254 | Every date of the calendar is the conversion of its day number. |
| Timestamp.CivilFollowsCalendar | rust/src/metrics/ndjson_writer.rs:241-254 | Day z + 1 is the calendar successor of day z. |
| Timestamp.Epoch | rust/src/metrics/ndjson_writer.rs:264-267 | Day 0 is 1970-01-01. |
| Timestamp.CivilCounts | rust/src/metrics/ndjson_writer.rs:241-254 | Day k + n is n steps of the calendar after day k. |
| Timestamp.TimestampRoundTrip | rust/src/metrics/ndjson_writer.rs:222-239 | Reading a timestamp gives back the milliseconds, for every time from 1970 on. |
| Timestamp.TimestampLength | rust/src/metrics/ndjson_writer.rs:234-238 | The text has the 24 characters of the format if and only if the time is before the year 10000. |
| Timestamp.TimestampFields | rust/src/metrics/ndjson_writer.rs:222-239 | Before the year 10000 the text is year, month, day, hour, minute, second and milliseconds in 4, 2, 2, 2, 2, 2 and 3 digits, with the separators of the format between them. |
| Outliers.DetectModifiedZscore | scripts/generate_interactive_graphs.py:149-163 | Flags exactly the runs far by the modified z-score, with the mean deviation when the median deviation is zero. |
| Outliers.DetectIqr | scripts/generate_interactive_graphs.py:166-180 | Flags exactly the runs outside the fences. |
| Outliers.DetectPctDeviation | scripts/generate_interactive_graphs.py:183-194 | Flags exactly the runs more than 15 percent off the median. |
| Outliers.DetectGrubbs | scripts/generate_interactive_graphs.py:197-211 | Flags at most one run, the farthest from the mean with the highest index, if its statistic exceeds the critical value. |
| Outliers.SpreadIsPositive | scripts/generate_interactive_graphs.py:149-157 | The fallback to the mean deviation leaves a zero spread only when all values are equal, so the division is defined. |
| Outliers.SpreadIsMedian | scripts/generate_interactive_graphs.py:152-157 | The spread is the median deviation when that is not zero. |
| Outliers.SpreadIsMean | scripts/generate_interactive_graphs.py:152-157 | And otherwise the number that times the count is the sum of the deviations. |
| Outliers.MedianHalves | scripts/generate_interactive_graphs.py:152 | At most half of the values are on each side of the median, and for an odd number of values it is one of them. |
| Outliers.MedianOfOdd | scripts/generate_interactive_graphs.py:152 | Of 2 h + 1 values it is the one at place h, from 0, in order. |
| Outliers.MedianOfEven | scripts/generate_interactive_graphs.py:152 | Of 2 h values it is half the sum of those at places h - 1 and h. |
| Outliers.MeanTimesCount | scripts/generate_interactive_graphs.py:201 | The mean times the count is the sum. |
| Outliers.DetectorBands | scripts/generate_interactive_graphs.py:149-194 | The bands behind two detectors, without division; with a median that is not positive the percentage detector flags nothing. |
| Outliers.FenceBand | scripts/generate_interactive_graphs.py:166-180 | The fences are 1.5 times the distance of the values at places n / 4 and 3 n / 4, in order, away from these, for at least four values. |
| Outliers.GrubbsBand | scripts/generate_interactive_graphs.py:197-211 | Grubbs flags the last of the values farthest from the mean if it is more than critical times the deviation away, for at least three values. |
| Outliers.FindConsensusOutliers | scripts/generate_interactive_graphs.py:214-229 | Discards exactly the runs flagged by two detectors. |
| Outliers.TwoVotes | scripts/generate_interactive_graphs.py:214-229 | Two votes are any two of the four detectors. |
| Outliers.FewRunsAgree | scripts/generate_interactive_graphs.py:214-229 | With fewer than three runs no run has two votes, so the early return discards none that the votes would. |
| Outliers.SmallestDeviationIsNear | scripts/generate_interactive_graphs.py:149-163 | A run no farther from the median than any other is never flagged by the z-score. |
| Outliers.OneOfTheMiddleSurvives | scripts/generate_interactive_graphs.py:214-229 | Of an even number of runs the two middle ones are never both discarded. |
| Outliers.SomeRunSurvives | scripts/generate_interactive_graphs.py:214-229 | No list is discarded whole: of an odd number of runs the middle one stays, of an even number one of the two middle runs, for every deviation and critical value. |
| Outliers.CleanValues | scripts/generate_interactive_graphs.py:341-353 | The kept values are never empty, and every run is counted as kept or discarded. |
| Outliers.KeptAppend | scripts/generate_interactive_graphs.py:341-353 | The values kept of two lists in a row are those kept of the first, then those of the second. |
| Outliers.KeptAll | scripts/generate_interactive_graphs.py:341-353 | With nothing discarded all values are kept, in their order. |

## Left out

- Rounding of floating-point numbers: logarithms and powers in the histogram constructors, the
  percentile's share of the total, and the outlier statistics are exact integers or reals.
- Overflow of 64-bit histogram totals, counts and values; subBucketCount << unitMagnitude is taken to fit 64 bits.
- JavaRandomPorts.WrappingRandom.NextInt: bounds of 2^31 and more, which Go truncates to 32 bits; its test on them is in
  JavaRandomPorts.GoAcceptsSome, and low 32 bits of zero divide by zero or, at powers of two, take the shift.
- JavaRandomPorts.SplitRandom.NextInt: bounds of 2^31 and more, for which the loop need not end (JavaRandomPorts.SplitAcceptsSome).
- JavaRandomPorts.ExactRandom.NextInt: bounds of 2^31 and more (JavaRandomPorts.ExactAcceptsAllOrNone and
  JavaRandomPorts.PythonShift say what happens), and Node's additional rejection of bounds that are not integers.
- PhpEngine.KeyGenerator.NextKey: random key spaces of 2^31 and more, as for the generator.
- Random key spaces are smaller than 2^31, which is what the generators accept; sequential ones have any size.
- OnePass.StridesCoverOnePass: phases with more requests than keys, where the two multisets can also
  agree by accident; for these, StridedKeys.CoversEveryTotal and StridedKeys.FewActiveNeverCover hold.
- RateLimiter.LockLimiter.Acquire: one caller whose slot nobody takes while it sleeps; any number of
  callers is in module LockRuns.
- RateLimiter.PhaseKeepsRateIff: times of whole seconds; for any time RateLimiter.TotalByTime gives the bound.
- PhaseRate.RunWithinAllowed: lock-based limiters, one for all connections or one for each; the Rust limiter, which
  reserves slots, is in module CasLimiter on its own.
- Collectors.SafeMerger.Merge: the mutual exclusion itself; phases merge in one step in module PhaseRun.
- Timestamp.FormatIso8601: times before 1970, which the writer never formats.
- Outliers.FindConsensusOutliers: the sample deviation and the Grubbs critical value are
  parameters; the numeric approximations behind the critical value are not part of this model.
- PhpEngine.RunWorker: the loop with key-consuming commands only, without limiter and deadline.
- PhaseRun.RunsAreBounded: duration-based phases, which the clock ends.
- Metrics.MergeOrderIrrelevant: the histograms' recorded minimum and maximum fields, which differ
  after merging at bucket floors (HdrHistogram.Histogram.Merge says how) and are not used by any reported value.
- The map of per-command objects is a small class of its own, and command names are wrapped in a datatype.
- The loop of the first three outlier detectors is written once, with the test as a parameter.
- Bitwise and, or and exclusive-or on unbounded integers are written with remainders and recursive functions.
- The Ruby generator, which never rejects a draw, the Ruby encoder's payload length,
  which counts 32 header bytes, and the Ruby forked workload, whose ceiling shares overshoot.
- C# key randomness, which uses the platform's generator; Python draws a key before PING as well,
  so the key results are about the Go and Rust engines.
- Weighted command selection is nondeterministic; failure backoff only delays.
- Client drivers, connections, TLS, warmup, zlib, base64, JSON, files and command-line handling.
- The matrix runner, charts, configuration editor and system monitor.
