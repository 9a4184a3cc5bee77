# A verified model of Bengal Market

Bengal Market records a public market-data feed, replays recordings through a bounded two-thread pipeline and compares
two queue implementations on the same input. This project models its five cores in Dafny and proves what they promise.
The theorems range over all inputs, over all sequences of the modelled actions, and over the failures that are actions;
what is not modelled is listed at the end.

| file | what it models |
|---|---|
| `Words.dfy`, `Numerals.dfy` | 64-bit words and wrap-around; decimal numerals |
| `Decimal.dfy` | reading and printing fixed-point decimals |
| `Calendar.dfy`, `Timestamp.dfy` | day numbers and RFC 3339 timestamps |
| `Trades.dfy`, `Checksum.dfy` | trades, their serialisation and the FNV-1a checksum |
| `OrderStatistics.dfy`, `Histogram.dfy` | exact ranks and the power-of-two latency histogram |
| `SpscQueue.dfy`, `Pipeline.dfy`, `Reports.dfy` | the ring buffer, the producer/consumer protocol, comparing reports |
| `Lines.dfy`, `Sequences.dfy`, `Reader.dfy` | reading a file: lines, sequence tracking, trades, parse errors |
| `Fixture.dfy` | the deterministic generator and its replay |
| `Benchmark.dfy` | distributions, the validity gate and the alternating schedule of the harness |
| `Publication.dfy`, `AtomicOutput.dfy` | atomic publication by racing writers; the writer object |
| `JsonText.dfy`, `Utf8.dfy`, `JsonReader.dfy` | the JSON text of a line, UTF-8, and a reader of JSON to read it back |
| `Recording.dfy` | the bytes of a recording with lines that were cut |
| `LiveCapture.dfy`, `CaptureRuns.dfy` | the capture loop as one writer of that protocol: reassembly, reconnects, bytes written |
| `EndToEnd.dfy` | published capture to replay, two replays of one file, generator to checksum |

How the model is built:

- Code that updates state in place is a class or a method with a loop. Its `ensures` ties it to a reference that is not
  its own scan: parsers to a grammar (`Denotes`, `Parsed`), the histogram to ranks of the observed values, the ring
  buffer to a sequence, the capture session to the steps of the capture loop.
- A reference that a method is proved against is itself pinned by something written apart from it: digits by real
  numbers, the calendar and the instants by counting, the hashed bytes position by position and by published digests, a
  dumped line by a reader of RFC 8259, UTF-8 by the code points, latency samples by clock readings, an accepted trade by
  its fields, and each step of the capture by what the run shows.
- Threads, processes and the network are sequences of atomic actions. `Run` gives the state a sequence of actions leads
  to, if each is possible where it stands; a theorem about `Run` is a theorem about every interleaving.
- Unsigned words wrap where the original wraps: `Wrap` and `Plus` are arithmetic modulo 2^64. Counters that are proved
  not to wrap are plain integers.
- An exception is a value: `None`, a `false` result or an outcome.
- Each `char` of a text stands for one byte.

The capture is writer 0 of the publication protocol. Every line it writes goes through the kernel's answers to the
write calls, so the bytes of the published file are those the kernel took, and the other writers of the same
destination act between its steps.

Where the code and its documentation, or the obvious reading of it, disagree, the code is modelled, an input shows the
difference, and a theorem says exactly when it arises:

- Replay does not always drain (promised in docs/ARCHITECTURE.md, lines 115-116). The consumer loads the done flag after
  an empty pop and does not pop again. `Pipelines.TradeLostAtExit` is a run that loses a trade,
  `Pipelines.DrainedExactlyWhen` the condition, `Pipelines.ReorderedDrains` the loop with the two operations exchanged.
- A recording can hold an incomplete line (docs/DATA_FORMAT.md, lines 5-6, promises complete ones): a write that fails
  inside the receive loop is handled like a lost connection, and the next line continues the cut one.
  `CaptureRuns.TornLineCommitted` is a run that publishes such a file and `CaptureRuns.TornRecording` what is left of it;
  `LiveCapture.RecordingIsExactlyTheMessages` the condition in terms of the kernel's answers,
  `Recordings.LineLostExactly` and `EndToEnd.CommittedCaptureReplays` what it costs a replay.
- The capture limits a message to 4 MiB and the reader a line to 8 MiB, but escaping may make a line up to six times as
  long as its message. `EndToEnd.CaptureCannotBeReplayed` is a capture that returns and whose file the reader refuses,
  `EndToEnd.CommittedCaptureReplays` the condition.
- The gap counter is not a count of missing messages: `Sequences.JumpsAreNotMissing` is an input, the condition is in
  `Sequences.JumpsAreMissingExactlyWhen`, and `Sequences.JumpedExactly` is what the counter is.
- The out-of-order counter also counts a number equal to the highest so far: `Sequences.RepetitionIsLate`,
  `Sequences.LateExactly`.
- The generator does not take every product of 1 to 20 bytes (its message says characters): one that is not UTF-8 makes
  the dump throw. `Fixtures.ProductRefused` is an input; `Fixtures.GenerateFixture` generates iff it is UTF-8.
- Metadata need not be the first line: `Readers.MetadataNeedNotBeFirst`, `Readers.MetadataSeenExactly`. Any `source`
  text is accepted.
- A quantile can exceed the reported maximum: `Histograms.QuantileCanExceedMaximum` is an input,
  `Histograms.QuantileExceedsMaximumExactly` and `Histograms.BelowBucketTopExactly` the condition.
- The checksum does not separate trade id and product id: `Checksums.IdentifiersNotFramed` for every way of moving
  characters between them, `Trades.SerializationExact` for what the hashed bytes do determine.

## Model

| member | source | states |
|---|---|---|
| Decimals.ParseDecimal | src/core.cpp:523-591 | returns a number exactly when the text is a spelling of a number whose multiple by 1e8 fits a signed word, and then that multiple |
| Decimals.ParsedExact | src/core.cpp:523-591 | the reference for the parser is the in-range part of the relation between texts and the numbers they denote |
| Decimals.DenotesUnique | src/core.cpp:537-547 | the grammar is unambiguous: no text spells two numbers |
| Decimals.FromCharsWhole | src/core.cpp:549-557 | the whole part converts completely iff it is one or more digits whose value fits an unsigned word |
| Decimals.ParseFraction | src/core.cpp:558-568 | accepts exactly digits and scales them to units of 1e-8 without wrapping |
| Decimals.Combine | src/core.cpp:570-590 | the two divided checks accept exactly the values in the signed range, the minimum included, and no word wraps |
| Decimals.FormatDecimal | src/core.cpp:593-616 | prints the canonical text of the value |
| Decimals.SignedMagnitude | src/core.cpp:594-598 | negating the unsigned image yields the magnitude for every signed word, the minimum included |
| Decimals.PopZeros | src/core.cpp:609-612 | the pop loop removes the trailing zeros of the fraction and stops before the dot |
| Decimals.PartsCanonical | src/core.cpp:593-616 | what is printed has no plus sign, no negative zero and no redundant zero, and denotes the value |
| Decimals.CanonicalUnique | src/core.cpp:593-616 | a number has only one canonical spelling |
| Decimals.RoundTrip | src/core.cpp:523-616 | every signed 64-bit value survives printing and reading |
| Decimals.ReprintIsCanonical | src/core.cpp:523-616 | two accepted texts reprint alike iff they denote the same number, and the reprint is the only canonical spelling |
| Decimals.ScaledIsReal | src/core.cpp:523-591 | the number a text spells is, as a real, the signed sum of its digits each worth ten times the next, times 1e8 |
| Decimals.SomeNumbers | src/core.cpp:523-616 | 1.25, also with a plus sign, is 125000000 and printed like that again, a dot may end the text, and -0.00000001 is minus one |
| Decimals.SomeTexts | src/core.cpp:523-591 | the empty text, 1x, .5 and 1.000000001 are refused |
| Numerals.DigitsCorrect | src/core.cpp:606 | a printed integer reads back as itself and has no redundant leading zero |
| Numerals.PaddedCorrect | src/core.cpp:608 | a zero-padded print has the asked width and the value printed |
| Calendar.MarchFirstInEra | src/core.cpp:264-273 | with truncating division the shifted year still rounds down, so 400-year eras tile the years on both sides of zero |
| Calendar.DaysFromCivilCounts | src/core.cpp:248-276 | for every valid date of every year the closed form equals the count of days by years and months since 1970-01-01 |
| Calendar.EpochIsDayZero | src/core.cpp:261-276 | 1970-01-01 is day zero |
| Calendar.NextDay | src/core.cpp:261-276 | the next calendar day is always exactly one more |
| Calendar.OrderIsLexicographic | src/core.cpp:261-276 | day numbers are ordered, and equal, exactly as year, month and day are |
| Calendar.EveryDayHasADate | src/core.cpp:261-276 | every integer is the day number of a valid date |
| Timestamps.ParseComponent | src/core.cpp:231-246 | yields the value of a fixed-width field iff it lies inside the text and is all digits |
| Timestamps.ParseCivil | src/core.cpp:280-295 | accepts exactly well-separated fields that form a valid date from 1970 on and a time without leap seconds |
| Timestamps.ScanFraction | src/core.cpp:297-318 | accepts exactly no fraction or a dot with one to nine digits, closed by the last character Z |
| Timestamps.ParseFraction | src/core.cpp:297-322 | scales an accepted fraction to nanoseconds below one second without wrapping |
| Timestamps.Assemble | src/core.cpp:324-338 | no intermediate word wraps, and the divided check accepts exactly the instants that fit in 64 bits |
| Timestamps.ParseTimestampNs | src/core.cpp:278-339 | returns a value exactly when the text spells an instant of the accepted grammar that fits, and then its nanoseconds |
| Timestamps.ParsedExact | src/core.cpp:278-339 | the parser's reference holds of a word iff some valid stamp has this text and these nanoseconds, with days counted by the calendar |
| Timestamps.NanosAreMonotone | src/core.cpp:324-338 | nanoseconds order stamps exactly as date, time and fraction do |
| Timestamps.ParsedMonotone | src/core.cpp:278-339 | the words returned for two accepted texts are ordered as the instants they spell |
| Timestamps.EveryInstantHasAStamp | src/core.cpp:278-339 | every 64-bit word is the nanoseconds of a valid stamp, so with their order the n-th instant has the number n |
| Timestamps.SomeInstant | src/core.cpp:278-339 | 2026-07-05T12:34:56.5Z is 1783254896500000000 |
| Trades.BoundedText.constructor | include/bengal_market/model.hpp:34-36 | a new text is empty and has the given capacity |
| Trades.BoundedText.Assign | include/bengal_market/model.hpp:19-28 | takes the whole value iff it fits and otherwise changes nothing |
| Trades.SerializationExact | src/core.cpp:116-125 | the hashed bytes determine price, size, side, time and the two identifiers run together, and nothing more |
| Trades.WordInjective | src/core.cpp:103-114 | eight little-endian bytes determine the signed or unsigned word |
| Trades.SerializationLayout | src/core.cpp:116-125 | the hashed bytes are, position by position, the two texts, eight bytes of price, eight of size, one of side and eight of source time, low bytes first |
| Checksums.HashBytes | src/core.cpp:96-101 | folds the bytes of a text into the digest in order |
| Checksums.HashInteger | src/core.cpp:103-114 | folds the little-endian bytes of an integer into the digest |
| Checksums.UpdateChecksum | src/core.cpp:116-125 | folds exactly the serialisation of the trade into the digest |
| Checksums.XorCancels | src/core.cpp:98 | exclusive or with the same byte twice restores the state |
| Checksums.MultiplicationUndone | src/core.cpp:99 | wrapping multiplication by the prime can be undone |
| Checksums.StepInjective | src/core.cpp:97-100 | a step is injective in the state and in the byte |
| Checksums.FoldInjective | src/core.cpp:96-101 | digests are equal after a common suffix iff they were equal before it |
| Checksums.OneByteChangesDigest | src/core.cpp:96-114 | streams of equal length that differ in exactly one byte have different digests |
| Checksums.ReplacedTradeDetected | src/core.cpp:205-213 | replacing one trade of a run changes the final checksum iff it changes the running one at that point |
| Checksums.OneByteOfOneTrade | src/core.cpp:205-213 | one changed byte in one trade always changes the checksum of the run |
| Checksums.FlippedSideDetected | src/core.cpp:122 | turning a buy into a sell always changes the checksum |
| Checksums.IdentifiersNotFramed | src/core.cpp:116-125 | moving any number of characters between trade id and product id never changes the checksum of a run |
| Checksums.EveryTradeHasATwin | src/core.cpp:116-125 | for every trade whose ids have room there is a different valid trade with which the run has the same checksum |
| Checksums.ChecksumIsLogical | src/core.cpp:116-125 | the checksum does not depend on enqueue times |
| Checksums.PublishedValues | src/core.cpp:96-101 | the digests of the empty text and of the letter a are those published for 64-bit FNV-1a |
| OrderStatistics.RankUnique | src/benchmark.cpp:261-271 | there is at most one value of a given rank |
| OrderStatistics.NearestRankIsRank | src/benchmark.cpp:261-271 | the nearest-rank percentile of a sorted permutation is the value whose rank is the percentile of the count rounded up |
| Histograms.BucketRange | src/core.cpp:45-52 | a value is in bucket k or an earlier one iff it is at most 2^(k-1); everything falls into the last bucket or an earlier one |
| Histograms.RepresentativeBounds | src/core.cpp:72-88 | the value reported for the bucket of r is zero iff r is, within [r, 2r) up to 2^63 and within (r/2, r) above |
| Histograms.TargetBucketOfRank | src/core.cpp:72-88 | the bucket where the target rank is reached is the bucket of the value of that rank |
| Histograms.LatencyHistogram.constructor | src/core.cpp:90-93 | a new histogram has observed nothing |
| Histograms.LatencyHistogram.Observe | src/core.cpp:45-57 | buckets, sample count, minimum and maximum describe the observed values with one more appended |
| Histograms.LatencyHistogram.Quantile | src/core.cpp:72-88 | when ranks do not wrap the result is the representative of the target bucket: the fall-through and the branch above bucket 64 are not taken |
| Histograms.LatencyHistogram.Summary | src/core.cpp:59-69 | all zero for no samples, otherwise count, extremes and the three quantiles of the observed values |
| Histograms.ExtremesAreExtreme | src/core.cpp:55-56 | minimum and maximum are observed values and bound all others |
| Histograms.QuantileWithinFactorTwo | src/core.cpp:45-88 | every quantile is within a factor of two of the exact nearest-rank value of the sorted samples, in all three ranges |
| Histograms.QuantilesMonotone | src/core.cpp:63-68 | quantiles do not decrease with the percentile, so p50 <= p95 <= p99 |
| Histograms.RepresentativeIs | src/core.cpp:80-88 | bucket k is reported as 2^(k-1), the first as zero and the last as 2^63 |
| Histograms.SummaryExactly | src/core.cpp:59-69 | of the sorted samples a summary reports the count, both ends, and for 50, 95 and 99 percent the sample of that rank rounded up to a power of two |
| Histograms.QuantileCanExceedMaximum | src/core.cpp:80-88 | the single sample 3 has the quantile 4 |
| Histograms.QuantileExceedsMaximumExactly | src/core.cpp:72-88 | a quantile exceeds the maximum iff the ranked value shares the bucket of the maximum and the representative of that bucket is above it |
| Histograms.BelowBucketTopExactly | src/core.cpp:45-52 | a value lies below the representative of its bucket iff it is not zero, not a power of two and below 2^63 |
| Queues.StandardSpscQueue.constructor | src/core.cpp:153-158 | a new queue is empty |
| Queues.StandardSpscQueue.TryPush | src/core.cpp:130-139 | appends to the contents iff they are below capacity and otherwise changes nothing |
| Queues.StandardSpscQueue.TryPop | src/core.cpp:141-151 | takes the oldest value, or reports that there is none |
| Pipelines.Worker.constructor | src/core.cpp:221-228 | the consumer starts with no events, the offset basis and an empty histogram |
| Pipelines.Worker.Handle | src/core.cpp:208-213 | consuming one trade appends it and keeps events, checksum and latency samples those of the consumed trades |
| Pipelines.Worker.Drain | src/core.cpp:205-219 | once nothing more arrives the consumer loop empties the queue in order |
| Pipelines.Worker.Report | src/core.cpp:189-202 | reports the counters of the consumed trades, no drops and one latency sample per event |
| Pipelines.EveryInterleaving | src/core.cpp:161-229 | in every interleaving consumed and queued trades are the accepted ones in order, the queue is at most 4096 long, and the counters describe the consumed trades |
| Pipelines.Measurements | src/core.cpp:173-213 | each latency sample is the time from the submission of its trade to its pop, and backpressure counts the refused pushes |
| Pipelines.SubmittedIsStamped | src/core.cpp:173-179 | submitting stamps a trade with the clock and changes nothing else of it |
| Pipelines.SamplesAreWaits | src/core.cpp:173-213 | the i-th sample added to the reading at the i-th submission is the reading at the i-th pop, in words, and in integers unless the clock ran backwards |
| Pipelines.SampleOf250 | src/core.cpp:209 | a trade submitted at 100 and popped at 350 is observed with 250 |
| Pipelines.FullAt4096 | src/core.cpp:130-139 | a push is refused exactly when 4096 trades are queued |
| Pipelines.LeftBehind | src/core.cpp:205-219 | at exit the unconsumed trades are exactly those pushed after the last empty pop, at most 4096, and none when the done flag preceded that pop |
| Pipelines.DrainedExactlyWhen | src/core.cpp:205-219 | every submitted trade is consumed iff no push succeeded after the last empty pop |
| Pipelines.TradeLostAtExit | src/core.cpp:207-217 | for every trade there is a run that ends with it still queued |
| Pipelines.EveryLossOccurs | src/core.cpp:161-229 | for any trades and any number of them up to a queue full there is a run that submits exactly these, ends, and leaves that many behind |
| Pipelines.ReorderedDrains | src/core.cpp:205-219 | the loop that loads the flag before the pop has consumed every submitted trade whenever it has ended |
| Pipelines.ComparableExactlyWhen | src/core.cpp:700-710 | two reports over the same trades are comparable iff there are no parse errors and both consumed equally many |
| Reports.ComparableIsEquivalence | src/core.cpp:700-710 | comparability is symmetric and transitive, holds of a report and itself iff nothing went wrong in it, and of two such iff frames, events and checksum agree |
| Pipelines.DrainedRunsCompareEqual | src/core.cpp:482-494 | drained runs over a clean input always compare equal, whatever their schedules |
| Lines.ReadBoundedLine | src/core.cpp:341-354 | yields the text up to the next newline or end, throws iff it is longer than 8 MiB, and ends after the last non-empty line |
| Lines.WrittenLinesReadBack | src/core.cpp:341-354 | lines written each with a newline, and a last one perhaps without, are read back unchanged iff each is at most 8 MiB, and otherwise the reader throws |
| Lines.LongestLine | src/core.cpp:341-354 | a line of 8388608 bytes is read and a longer one throws |
| JsonText.EscapeLength | src/live.cpp:282-287 | the escaped text of a message is at least as long as the message and at most six times as long |
| JsonText.RenderPrintable | src/live.cpp:219-226 | a dumped record holds no character below 0x20, so no newline |
| JsonText.RenderBalanced | src/live.cpp:219-226 | a dumped record closes every string and brace it opens |
| JsonText.RenderInjective | src/live.cpp:282-287 | receipt time, connection id and payload can be recovered from the line: different frames are different lines |
| JsonReader.UnescapeEscape | src/live.cpp:282-287 | read as a JSON string by RFC 8259, the dump of every text is that text |
| JsonReader.FrameReads | src/live.cpp:282-287 | a frame's line is one JSON object whose members, under the names of the format, are connection id, payload, receipt time and type |
| JsonReader.MetadataReads | src/live.cpp:219-226 | the metadata line is one JSON object with endpoint, format, products, source, type and version under their names |
| JsonReader.ObjectBalanced | src/core.cpp:374 | a text read as one JSON object closes every string and brace it opens |
| Utf8.ValidExactly | src/live.cpp:282-287 | a text can be dumped iff it is the encoding of some code points, surrogates excluded |
| Utf8.RenderIsValid | src/live.cpp:219-226 | what is dumped of texts in UTF-8 is UTF-8 |
| JsonText.FrameScan | src/live.cpp:282-287 | wherever a value may stand a dumped frame leaves the nesting of braces as it was, and any shorter cut of it leaves a brace open |
| JsonText.GluedSpoils | src/live.cpp:282-287 | a cut frame with anything of another frame behind it on the same line is not JSON |
| JsonText.LimitsDisagree | src/live.cpp:271-287 | a message of 4 MiB of quotation marks is dumped as a line beyond the 8 MiB of the reader |
| Recordings.LeftIsWritten | src/atomic_output.hpp:46-64 | what a line write leaves in the file is exactly the bytes the kernel took |
| Recordings.RecordingReadsBack | src/core.cpp:341-354 | reading the bytes of a recording with cuts yields its physical lines, each cut joined with the line behind it, iff all of them are within 8 MiB |
| Recordings.RecordsRead | src/core.cpp:373-374 | each physical line is either exactly one dumped record or not JSON at all |
| Recordings.LineLostExactly | src/live.cpp:282-311 | a reader gets the record of a whole line iff no cut stands directly before it |
| Recordings.GluedLinesLost | src/live.cpp:282-311 | a reader loses as many whole lines as stand directly behind a cut |
| Recordings.CutsAddBytes | src/live.cpp:282-311 | the bytes of a recording are those of its whole lines iff nothing was cut |
| Sequences.TableBounded | src/core.cpp:422-428 | the stream table never holds more than 4096 connections |
| Sequences.ConnectionAccounts | src/core.cpp:429-439 | highest minus first is advances plus jumped numbers, every later number is an advance or late, and the jump count lies between the missing numbers and those plus the late ones |
| Sequences.MissingStep | src/core.cpp:429-439 | an advance adds exactly the numbers it skips to the missing ones, a late number removes at most one |
| Sequences.JumpsAreNotMissing | src/core.cpp:430-435 | after 1, 3, 2 nothing is missing and one jump is counted |
| Sequences.JumpedExactly | src/core.cpp:429-439 | the jump count is the number of messages that never arrived plus those that arrived after they had been jumped over |
| Sequences.JumpsAreMissingExactlyWhen | src/core.cpp:429-439 | the jump count is the number of missing messages iff every number at or below the highest so far was received before or lies below the first |
| Sequences.LateExactly | src/core.cpp:433-435 | the late count is that of lower numbers plus that of repetitions of the highest one, so it counts lower ones only iff the highest is never repeated |
| Sequences.RepetitionIsLate | src/core.cpp:433-435 | after 5, 5 one number is late and none is lower |
| Sequences.TotalsAreSums | src/core.cpp:422-439 | with at most 4096 connections the table and both counters are those of each connection on its own, summed |
| Sequences.TotalsOfAdmitted | src/core.cpp:420-439 | on any input the table and both counters are those of the first 4096 connections, all of whose numbers count, and no other connection has any effect |
| Sequences.InterleavingIrrelevant | src/core.cpp:422-439 | the totals do not depend on how connections are interleaved |
| Readers.CaptureReader.constructor | src/core.cpp:364-366 | the reader starts with zero metrics, no streams and no metadata |
| Readers.CaptureReader.TrackSequence | src/core.cpp:422-439 | throws iff the connection is new and the table full, and otherwise tracks the number, counters modulo 2^64 |
| Readers.CaptureReader.ReadTrade | src/core.cpp:446-468 | yields a trade iff every field is present and valid, and then the parsed trade |
| Readers.CaptureReader.HandEvent | src/core.cpp:445-470 | hands over the trades of one event up to the first bad one |
| Readers.CaptureReader.HandTrades | src/core.cpp:444-471 | hands over the trades of all events up to the first bad one, and succeeds iff there is none |
| Readers.CaptureReader.HandleFrame | src/core.cpp:406-471 | counts the frame, then checks envelope, sequence number and trades in the order of the original |
| Readers.CaptureReader.HandleMetadata | src/core.cpp:376-398 | accepts the first record of the right format and version with one or more products of 1 to 20 characters |
| Readers.CaptureReader.HandleLine | src/core.cpp:369-475 | one turn of the loop, where an exception adds one parse error and undoes nothing |
| Readers.ReadCapture | src/core.cpp:356-480 | throws iff the file cannot be opened, a record is too long or no metadata was accepted, otherwise returns the metrics; the trades handed over are those of the lines up to there |
| Readers.ValidPrefixMaximal | src/core.cpp:444-471 | the trades handed over are the longest prefix without a bad one |
| Readers.LineAccounts | src/core.cpp:369-479 | non-empty lines are accepted metadata, error-free frames and parse errors, each exactly once |
| Readers.CleanReplay | src/core.cpp:369-479 | a replay has metadata and no parse error iff one metadata record precedes nothing but error-free frames |
| Readers.NothingTakenBack | src/core.cpp:469-474 | trades handed over are never taken back by later lines |
| Readers.TrackingOfObservations | src/core.cpp:406-439 | sequence state depends only on the numbers of accepted envelopes, whatever becomes of their trades |
| Readers.ReportedTotals | src/core.cpp:422-439 | for every file the reported gaps and late numbers are the sums over the first 4096 connections modulo 2^64 |
| Readers.HandedExactly | src/core.cpp:402-471 | the trades handed over are, frame by frame of the trade channel whose number was tracked, the longest valid prefix of its trades, and nothing else |
| Readers.AcceptedExactly | src/core.cpp:446-468 | a trade is accepted as t iff its six texts spell t: price, size and time by their grammars, ids of at most 24 and 20 bytes, BUY or SELL |
| Readers.HandedLineExactly | src/core.cpp:402-471 | line by line, a file hands over what the events of a frame with all its fields spell, in order up to the first that spells no trade, and nothing else |
| Readers.OnlyTheValidPrefixCounts | src/core.cpp:441-474 | two recordings that differ in the events of one frame but not in their valid prefix are read alike, but for one parse error |
| Readers.BadTradeUndoesNothing | src/core.cpp:420-474 | a recording with a bad trade is read to the end like the one whose frame stops right before it, with exactly one more parse error if the frame got as far as its trades |
| Readers.MetadataSeenExactly | src/core.cpp:374-398 | metadata is accepted iff some line is a valid metadata record, wherever it stands |
| Readers.MetadataNeedNotBeFirst | src/core.cpp:376-398 | every valid metadata record is accepted behind a rejected line |
| Readers.VerdictsExactly | src/core.cpp:369-475 | what becomes of each line of a file is decided by that line, the presence of metadata before it and the sequence numbers observed before it |
| Readers.MetadataLineExactly | src/core.cpp:376-398 | the accepted metadata is the first line with every field the format asks for |
| Readers.CleanLineExactly | src/core.cpp:402-471 | a line is an error-free frame iff metadata precedes it, its fields are there, its number is tracked or not asked for, and its trades all spell trades |
| Readers.EmptyLinesIgnored | src/core.cpp:369-372 | an empty line anywhere in a file changes nothing |
| Readers.UntrackedLineStruck | src/core.cpp:402-475 | striking a line whose number is not tracked changes nothing in the rest of the file and at most one count each of frames and errors |
| Readers.DataChannelsNeedSequence | src/core.cpp:412-419 | striking a payload without sequence number from a recording takes away one frame, and one parse error exactly on the data channels, and changes nothing else |
| Fixtures.GenerateFixture | src/core.cpp:628-684 | produces the lines of the fixture iff the run is not empty, the product is 1 to 20 bytes of UTF-8, and the file can be created and written |
| Fixtures.ProductRefused | src/core.cpp:634-650 | the single byte 0xFF is a product of permitted length for which nothing is generated |
| Fixtures.MakeRecord | src/core.cpp:651-680 | one record, and reading it comes across exactly one trade, accepted as the generated one |
| Fixtures.GeneratedLines | src/core.cpp:643-680 | a fixture is the metadata line of the generator and one frame for each event, in order |
| Fixtures.GeneratedNumbers | src/core.cpp:651-680 | record i has the price 30000 + (i mod 10000)/10000, the size 0.001 + (i mod 100)/100000, alternating sides, and ids and numbers that count from one |
| Fixtures.TimeParses | src/core.cpp:664 | the fixture's time parses to 1767225600 seconds |
| Fixtures.InputAccepted | src/core.cpp:651-664 | every generated trade is accepted with its price, size, side and time |
| Fixtures.FixtureReplays | src/core.cpp:628-684 | reading a fixture of n events gives n frames, no error, gap or late number, and exactly the n generated trades |
| Benchmarks.Distribute | src/benchmark.cpp:273-283 | every reported figure is the value of the corresponding rank of the given values, and zero for none |
| Benchmarks.Comparable | src/benchmark.cpp:311-348 | true iff there is a run and every pair of runs, a run with itself included, is comparable and agrees on gaps and late numbers |
| Benchmarks.AllComparableExactly | src/benchmark.cpp:311-348 | the gate passes iff no run has an error, a drop or a missing sample, and frames, events, checksum, gaps and late numbers are those of the first |
| Benchmarks.OrderIrrelevant | src/benchmark.cpp:311-348 | the verdict does not depend on the order of the runs |
| Benchmarks.DrainedBenchmarkIsValid | src/benchmark.cpp:311-348 | any number of drained runs over one clean input passes the gate |
| Benchmarks.MeasuredSchedule | src/benchmark.cpp:537-546 | each iteration runs both engines once and the engine that goes first alternates |
| Benchmarks.ScheduleIsFair | src/benchmark.cpp:537-546 | both engines run equally often, and first equally often or once more |
| Publication.StepKeepsInvariant | src/atomic_output.hpp:19-88 | every call, failure, crash and power loss keeps the invariant of names, files and writers |
| Publication.VisibleMeansComplete | src/atomic_output.hpp:19-88 | for any number of writers a visible destination is the original one or one writer's complete synced content, and the partial name is its writer's file until the unlink |
| Publication.NeverReplaced | src/atomic_output.hpp:79-81 | without a power loss a visible destination never changes, neither its name nor its contents |
| Publication.AtMostOneLink | src/atomic_output.hpp:79-81 | at most one link succeeds, and none when the destination existed, unless a power loss takes a visible destination away |
| Publication.LossWindow | src/atomic_output.hpp:79-88 | a power loss can take a visible destination away iff its name has not been synced since |
| Publication.UnsyncedIsLost | src/atomic_output.hpp:70-77 | after a power loss an unsynced file may hold anything and a synced one is as it was |
| Publication.OriginStopsEveryone | src/atomic_output.hpp:19-35 | when the destination exists no writer creates anything, and the disk stays as it is |
| Publication.DurableDestination | src/atomic_output.hpp:84-88 | a destination whose name has been synced keeps its name and contents in every continuation |
| Publication.SecondLinkAfterPowerLoss | src/atomic_output.hpp:79-88 | a second link is possible after a power loss between the first link and its directory sync |
| Publication.CommittedSurvives | src/atomic_output.hpp:66-88 | a committed recording survives every continuation, power losses included, and no second writer commits |
| Publication.UndisturbedCommits | src/atomic_output.hpp:66-88 | a writer that nothing disturbs commits exactly its data and leaves no partial name |
| AtomicOutputs.AtomicOutput.Open | src/atomic_output.hpp:19-35 | opens a fresh partial file iff the path names a file, neither name is taken and the call succeeds, and otherwise changes nothing |
| AtomicOutputs.AtomicOutput.constructor | src/atomic_output.hpp:19-35 | the writer owns the partial name |
| AtomicOutputs.AtomicOutput.Write | src/atomic_output.hpp:46-59 | despite short counts and interruptions the file grows by a prefix of the data, each byte once, and by all of it iff the call returns |
| AtomicOutputs.AtomicOutput.WriteLine | src/atomic_output.hpp:61-64 | the file grows by a prefix of the line and its newline, complete iff the call returns |
| AtomicOutputs.TornExactly | src/atomic_output.hpp:46-64 | a line write throws iff the kernel refuses before it has taken the last byte, and leaves part of a line iff it refuses after the first |
| AtomicOutputs.WriteAllExactly | src/atomic_output.hpp:46-59 | a write takes what is accepted before the first error or zero count, returns iff that covers the data, and else throws there |
| AtomicOutputs.InterruptionsIrrelevant | src/atomic_output.hpp:50-52 | interrupted calls change neither the outcome nor the bytes written |
| AtomicOutputs.AtomicOutput.Commit | src/atomic_output.hpp:66-88 | returns iff every call succeeds and the destination was free; however it ends, the disk is the one after the calls that succeeded |
| AtomicOutputs.CommitFollowsProtocol | src/atomic_output.hpp:66-123 | the disk after any number of successful calls of a commit is the one the publication protocol reaches with as many steps of the writer |
| LiveCapture.ChunkingIrrelevant | src/live.cpp:237-290 | every split of text messages into fragments and chunks, with control frames anywhere, reassembles to those messages in order |
| LiveCapture.ConnectionRecordsItsMessages | src/live.cpp:237-290 | an unfinished last message contributes nothing, and messages of at most 4 MiB of UTF-8 are all recorded |
| LiveCapture.BinaryRestarts | src/live.cpp:270-273 | a binary frame discards the message begun before it and nothing else |
| LiveCapture.OthersIgnored | src/live.cpp:267-276 | control frames and frames of no known kind may be left out anywhere |
| LiveCapture.KindOfExactly | src/live.cpp:264-276 | a close flag decides first, then a control flag, then binary, then text |
| LiveCapture.CountersInEveryRun | src/live.cpp:228-312 | in every state, exceptions included, reconnects are at most four per frame plus the failures in a row, connection ids at most one above reconnects, and the buffer within 4 MiB |
| LiveCapture.ReturnedCounters | src/live.cpp:228-321 | a returning capture has at most four reconnects per frame and four more, and recorded something or was interrupted |
| LiveCapture.CloseEndsConnection | src/live.cpp:264-266 | in every run a close frame is the last chunk of its connection |
| LiveCapture.ReceivedExactly | src/live.cpp:253-290 | a received chunk ends the attempt iff it is a close frame, takes the message above 4 MiB, or completes one that is not UTF-8 or whose line the kernel refuses; otherwise completed text is one more frame |
| LiveCapture.AttemptsExactly | src/live.cpp:233-300 | reconnects are the attempts that failed, and connection ids count the attempts begun, before the deadline or a stop request |
| LiveCapture.HandleExactly | src/live.cpp:294-311 | the handler ends the capture quietly after deadline or stop request, throws at the fifth failure in a row, and else goes round |
| LiveCapture.PhasesExactly | src/live.cpp:233-252 | both loops go on exactly until deadline or stop request, and a failed connect or receive ends the attempt |
| LiveCapture.FinishExactly | src/live.cpp:313-320 | past the loops the capture throws iff it has no frame and no stop was requested, and else commits, reporting whether one was |
| LiveCapture.EndsOnlyWhenOver | src/live.cpp:233-313 | the loops are left for the commit only after deadline or stop request |
| LiveCapture.EndIsFinal | src/live.cpp:233-312 | after deadline or stop request no attempt is begun or counted and at most one frame is recorded |
| LiveCapture.MetadataExactly | src/live.cpp:219-226 | the capture goes on iff endpoint and products are UTF-8 and the kernel takes the whole metadata line |
| LiveCapture.OutputCallsExactly | src/live.cpp:218-320 | it throws iff the destination or the partial name is taken or a call fails, and returns with the last call of the commit |
| LiveCapture.GivesUpExactly | src/live.cpp:294-305 | the capture gives up in its handler exactly when the fifth attempt in a row has failed without a recorded frame |
| LiveCapture.OutputInEveryRun | src/live.cpp:218-321 | in every state, whatever other writers do, the publication invariant holds and, from the metadata line on, what the capture's writer has written is exactly the bytes its line writes left |
| LiveCapture.FileIsKept | src/live.cpp:218-321 | from the metadata line on, while the capture runs and however it ends, its file holds exactly those bytes and has the partial name or the destination |
| LiveCapture.GivenUpKeepsPartial | src/live.cpp:294-305 | after five failures in a row the partial name is the capture's own file, with exactly the lines it wrote |
| LiveCapture.HistoryInEveryRun | src/live.cpp:218-321 | in every state from the metadata line on, exceptions included, the whole lines written are the metadata and one line for each recordable message received, except those refused |
| LiveCapture.LossExactly | src/live.cpp:282-311 | a message is missing from the recording iff the kernel refused one of its lines, and a line is cut iff it refused after the first byte |
| LiveCapture.ReturnedIsPublished | src/live.cpp:218-321 | a capture that returns has published, synced, every byte its writes left, and there it stays in every continuation, power losses included |
| LiveCapture.RecordingIsExactlyTheMessages | src/live.cpp:218-321 | the bytes of a returning capture are the metadata line and one line per frame, each connection's complete messages in order and none joined across connections, iff the kernel tore no line |
| LiveCapture.MissesExactly | src/live.cpp:282-311 | a recording misses no recordable message iff the kernel refused no line, and otherwise exactly the last one of each connection that lost one |
| LiveCapture.PublishedRecording | src/live.cpp:218-321 | without a torn line the published file is exactly those lines, durable; they are every recordable message iff no line was refused, and otherwise all but the last one of each connection that lost one |
| LiveCapture.ConnectionIdsAscend | src/live.cpp:230-287 | the recorded connection ids start at one or more and never decrease |
| CaptureRuns.TornLineCommitted | src/live.cpp:282-320 | for every endpoint and products there is a run that returns with a line cut after its first byte and the next message behind it |
| CaptureRuns.TornRecording | src/live.cpp:282-320 | of that recording a reader finds the metadata and one line that is not JSON: both messages are lost |
| CaptureRuns.SingleMessageCommitted | src/live.cpp:202-322 | every message of at most 4 MiB of UTF-8 can be the only frame of a published recording |
| LiveCapture.CaptureSession.OnChunk | src/live.cpp:253-290 | the body of the receive loop leaves fields and disk as the step of the protocol leaves its session and disk, and the size check never goes below zero |
| LiveCapture.SendAll | src/live.cpp:103-133 | the bytes sent are a prefix of the payload, all of it iff the call returns |
| EndToEnd.RecordingReplays | src/core.cpp:356-480 | reading a recording returns iff every physical line is at most 8 MiB, and then it has counted one frame per whole line that does not follow a cut, and perhaps one that lacks only its newline, and rejected every spoiled line |
| EndToEnd.DumpedParses | src/core.cpp:374-403 | a parser that understands JSON makes of a dumped line the record that was written, each field found under its name |
| EndToEnd.ParserExists | src/core.cpp:374 | what the replay theorems suppose of the parser is met by some parser |
| EndToEnd.CommittedCaptureReplays | src/live.cpp:218-321 | the published file of a capture, read whatever happened since, replays iff every physical line is at most 8 MiB, with the frames captured less those cuts have cost, and with exactly those and no rejected record when no line was torn |
| EndToEnd.UnpublishedCaptureReplays | src/live.cpp:218-321 | the file of a capture that still runs, has given up or failed to commit replays in the same way, frame by frame |
| EndToEnd.CaptureCannotBeReplayed | src/live.cpp:271-287 | a capture that returns with one frame and whose published file the reader refuses as too long |
| EndToEnd.ReplaysOccur | src/core.cpp:482-494 | every file has replays that finish, with any number of trades up to a queue full left behind |
| EndToEnd.ReplaysComparableExactly | src/core.cpp:482-494 | two replays of one file, scheduled in any way, compare equal iff the recording is well formed and both left equally many trades behind |
| EndToEnd.FixtureReplaysOccur | src/core.cpp:482-494 | every fixture has replays that finish, with any number of events up to a queue full left behind |
| EndToEnd.GeneratedEventsProcessed | src/core.cpp:482-494 | replaying a fixture of n events processes n events iff the run drained, and then with the checksum of the generated trades |

## Left out

- JsonReader.ReadValue: reads strings, unsigned integers, arrays and objects without white space, which is all that is dumped; other JSON is left to the parser.
- JSON parsing: records and payloads are datatypes whose fields may be missing or of a wrong type, and the parser is a parameter of the reader. The dump of a recorded line is modelled character by character.
- EndToEnd.CommittedCaptureReplays: supposes of the parser that a UTF-8 text which is one JSON object with distinct names yields the record of its members, and that it rejects every text without control characters that leaves a string or brace open (`EndToEnd.Understands`); products are those the capture's own argument check admits.
- The 64 KiB receive buffer: a chunk may have any size.
- Fixtures.GenerateFixture: does not model what is left in the file when it throws while writing.
- Numeric conversions of the JSON library: a present number is the word the conversion yields.
- curl, TLS, sockets and polling are an arbitrary sequence of receive, send and error answers.
- The Bengal queue's own algorithm and C++ weak memory: its source is not part of this model; both queues are held to the same bounded first-in first-out contract with sequentially consistent steps.
- The nested loops of `capture_live` and the retry loop of `submit` are actions of a protocol rather than loops of one method, because other threads and the environment act between their steps; the bodies of the receive loop, of the handler and of the consumer are methods on mutable fields.
- Scheduling fairness and termination of the retry loop of `submit`: the protocol theorems are about every finite run.
- Clock values are arbitrary words; elapsed time is only passed through.
- The standard library sort: `Benchmarks.Sorted` is one sort of words on values, any other gives the same list; the vector sorted in place is not modelled as an array.
- Benchmarks.MeasuredSchedule: does not model the unmeasured warm-up runs, which follow the same order.
- Child processes, digests, environment data, manifest and HTML output of the benchmark.
- Counters of the capture loop are unbounded integers: one 64-bit wrap would need 2^64 frames or connections.
- EndToEnd.ReplaysComparableExactly: supposes fewer than 2^64 submitted trades and a file below 2^64 bytes, for the same reason.
- AtomicOutputs.AtomicOutput.Write: the writer's destructor, which closes the descriptor and leaves the partial name, is the action `Stop` of the protocol and no method.
- Pipelines.ComparableExactlyWhen: supposes fewer than 2^64 submitted trades, because equal event counts only mean equal numbers modulo 2^64.
- Histograms.LatencyHistogram.Quantile: promises nothing once the rank arithmetic wraps, which needs more than 2^64 / 99 samples.
- Histograms.QuantileWithinFactorTwo: supposes that the rank arithmetic does not wrap, for the same reason.
- Calendar.DaysFromCivilCounts: years are unbounded integers; 32-bit overflow at the ends of `int` is not modelled.
- Timestamps.ParseComponent: supposes at most nine digits, as every call does, so that a 32-bit word does not wrap.
- Publication.VisibleMeansComplete: other programs that touch the two names, and a second commit call after a failed one, are not modelled; a pre-existing destination is taken to be durable.
- Argument checking of the capture options and the command line, and the installation of signal handlers; the stop flag is a step that can happen at any time and is never undone.
- HTML escaping, `/proc` readers and text trimming, which would add only easy members.
