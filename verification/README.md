# A verified model of the S3 hybrid cache's protocol and scheduling core

A Dafny model of six components of the caching proxy, with proofs of what they promise:

| modules | component |
|---|---|
| `Bytes`, `Text`, `ChunkedFormat`, `ChunkedText`, `ChunkedWhole`, `ChunkedStream`, `ChunkedAgreement`, `ChunkedFailures`, `ChunkedEncoder` | the aws-chunked codec: a whole-buffer decoder, an incremental decoder and an encoder |
| `Scheduler`, `Limiter`, `LimiterRuns`, `Rotation`, `Sums`, `TopK` | download bandwidth: token bucket, deficit round-robin scheduler, per-class byte tracker |
| `Glob`, `GlobBytes`, `Rules`, `Reload` | cache rules: glob translation, per-field resolution, reload with a fallback |
| `RollingScan`, `Correction` | rolling size validation: cyclic cursor and proportional correction |
| `Lz4Frame` | store-mode LZ4 frames and the frame loop of decompression |
| `FlushBuffer` | the cache-hit update buffer and its journal |

`dafny verify dfyconfig.toml` checks the whole project.

Objects that the program updates in place are classes, and its loops are methods. Each is proved
equal to a specification function (`Decode`, `Run`, `Serve`, `Next`, …); the theorems are about those
functions, over every input, every slicing of the input or every run.

**The codec.** `ChunkedFormat` defines the wire format apart from both decoders, as parse trees with a
printer. The whole-buffer decoder accepts exactly the printed well-formed trees, no body has two
readings, and the incremental decoder accepts, under every slicing, exactly those bodies that also fit
its carry-over buffer. The streaming caps are 8191 bytes for the content of a header line and 8191
for all trailer lines; the whole-buffer decoder caps the trailer lines at 8192 and header lines not at
all. `Text` and `ChunkedText` say in characters what headers, trailers and trimming mean, and
`ChunkedFailures` what is reported for a body that is cut short, carries on or breaks off.

**The limiter.** One scheduler pass is characterised in full (`ServeTheorem`). Over every run, each
request is granted or queued exactly once; whatever non-zero ceilings are set meanwhile, the bytes
granted are bounded by tokens and refills and a waiting class earns one quantum per pass; the rotation
goes by how long each class has waited; a bucket nobody waits on is full after one tick; and a backlog
drains within the ticks that cover its bytes.

## Where the code departs from its documentation

The model follows the code. Each departure has the exact condition under which the documented
behaviour holds, and an input at which it does not.

- The two decoders do not accept the same bodies: `DecodersAgree`, `LongHeaderSplitsTheDecoders`.
- The residual of the byte tracker repeats bytes that the table already counts:
  `SnapshotCountsEveryByteOnceIff`, `EvictionIsCountedTwice`.
- A queued request for zero bytes is never granted and holds up its class: `DrainsEventuallyIff`,
  `ZeroByteRequestWaits`. The throttling stream passes empty frames on without asking
  (src/throttle_stream.rs:198-201), so such a request comes only from another caller of the public
  `enqueue_blocked`.
- A request that arrives at a disabled limiter overtakes its own class: `ArrivalOrderIff`,
  `DisablingBreaksOrder`.
- A ceiling below ten bytes a second, which the fleet share may be rounded to, refills nothing, so
  waiters are served only from what the bucket holds: `DrainsEventuallyIff`, `TinyCeilingStarves`.
- Handing bytes back caps the bucket although somebody waits for more than its capacity, which undoes
  the accumulation that the refill allows; with a refund between any two ticks, requests of more than
  twice the capacity are never granted: `RefundTakesTokensIff`, `RefundsStarve`, `RefundUndoesRefill`.
- A pattern with a character of three or four bytes makes the translation panic, although its comment
  says that multi-byte characters are handled: `PanicsIffWide`, `IdeographPanics`.
- `**` does not match across a newline: `NewlineIsTheException` says which keys this concerns, and
  `DoubleStarIsTheException` which patterns.
- Rules that each pass validation can resolve to a page size or a hedge trigger out of bounds:
  `PageSizeEscapesValidationIff`, `HedgeTriggerEscapesValidationIff`, `ValidRulesCanResolveToZero`.
- The count of rules loaded is wrong after a failure that brings rules back: `RulesLoadedIsRightIff`,
  `RestoredRuleIsNotCounted`.
- Decompression stops at an empty frame and drops what follows: `ConcatenationRoundTripIff`,
  `EmptyFrameHidesNext`.
- A flush does not write all buffered entries when the journal cannot be opened, a write to it fails
  half way or an entry does not serialise: they are counted as errors and not put back:
  `NothingIsLostIff`, `FailedOpenLoses`.
- Entries put back after a directory failure go behind newer ones: `PutBackKeepsOrderIff`,
  `RecordingOrderIff`, `PutBackSwaps`.

## Model

| member | source | states |
|---|---|---|
| Bytes.FindCrlf | src/aws_chunked_decoder.rs:340-345 | The first CRLF at or after a position, or none if there is none |
| Text.ValidIsEncoded | src/aws_chunked_decoder.rs:234-235 | The byte sequences taken for text are exactly the UTF-8 encodings of texts |
| Text.TrimIsTextual | src/aws_chunked_decoder.rs:325-326 | Trimming the bytes of a text takes off exactly the white-space characters at both its ends |
| ChunkedText.HeaderMeans | src/aws_chunked_decoder.rs:347-362 | A header announces n bytes if and only if it is a hexadecimal numeral for n in either case, possibly signed, amid white space, before a semicolon and anything; any other text is an invalid size |
| ChunkedText.OnlyTextIsRead | src/aws_chunked_decoder.rs:234-235 | Bytes that encode no text are an invalid header |
| ChunkedText.TrailerMeans | src/aws_chunked_decoder.rs:319-332 | A line reads as a trailer if and only if those are its parts around the first colon, trimmed; without a colon it is refused |
| ChunkedText.TrailerIsTrimmed | src/aws_chunked_decoder.rs:325-326 | The body `0`, `x: 1`, empty line has the trailer `x` with the value `1` |
| ChunkedText.HexIsPlain | src/aws_chunked_decoder.rs:414-417 | Sizes are printed in lower case without leading zeros |
| ChunkedWhole.ParseTrailers | src/aws_chunked_decoder.rs:291-337 | The trailer loop returns the trailers and end position of the section, or the same error, as the grammar's section reader |
| ChunkedWhole.DecodeAwsChunked | src/aws_chunked_decoder.rs:224-285 | The decoding loop computes `Decode`, including every error and the checked additions |
| ChunkedWhole.ParseSound | src/aws_chunked_decoder.rs:224-337 | Whatever is accepted is the printed form of a well-formed tree |
| ChunkedWhole.ParseComplete | src/aws_chunked_decoder.rs:224-337 | The printed form of every well-formed tree is accepted, as that tree |
| ChunkedWhole.DecodeAcceptsExactlyTheFormat | src/aws_chunked_decoder.rs:201-337 | The decoder yields a result if and only if the body prints a well-formed tree with that meaning |
| ChunkedWhole.FormatIsUnambiguous | src/aws_chunked_decoder.rs:203-211 | No two well-formed trees print alike |
| ChunkedFailures.TruncationIsUnexpectedEof | src/aws_chunked_decoder.rs:228-276 | Every proper prefix of a well-formed body is an unexpected end |
| ChunkedFailures.ExtraBytesAreRefused | src/aws_chunked_decoder.rs:247-253 | Bytes after a well-formed body are refused with the length of the body and of the input |
| ChunkedFailures.FaultComesThrough | src/aws_chunked_decoder.rs:228-284 | A fault behind well-formed chunks is reported as it is |
| ChunkedFailures.UnterminatedDataIsRefused | src/aws_chunked_decoder.rs:278-282 | Data not followed by a line end is an invalid header |
| ChunkedFailures.BadHeaderIsRefused | src/aws_chunked_decoder.rs:232-239 | A header that is no size is reported with its own error |
| ChunkedFailures.OversizedTrailersAreRefused | src/aws_chunked_decoder.rs:311-317 | Trailer lines of more than 8192 bytes are refused with the size reached |
| ChunkedStream.IncrementalDecoder.FeedLine | src/aws_chunked_decoder.rs:653-671 | Collecting a header line from a slice is stepping the byte machine, with the line cap |
| ChunkedStream.IncrementalDecoder.FeedTrailers | src/aws_chunked_decoder.rs:682-701 | Collecting the trailer section is stepping the byte machine, with the section cap |
| ChunkedStream.IncrementalDecoder.Push | src/aws_chunked_decoder.rs:550-625 | Pushing a slice runs the byte machine over it and returns exactly the bytes it emits, or its error |
| ChunkedStream.IncrementalDecoder.Finish | src/aws_chunked_decoder.rs:633-641 | Trailers and decoded length if the body was framed to its end, else an error |
| ChunkedStream.DecodeSlices | src/aws_chunked_decoder.rs:511-520 | The documented use of the decoder over a list of slices computes `StreamDecode` |
| ChunkedStream.RunIsHomomorphic | src/aws_chunked_decoder.rs:550-625 | Pushing `a` then `b` gives the state and output of pushing `a + b`; a failure in `a` is the same failure in `a + b` |
| ChunkedStream.CarryOverIsBounded | src/aws_chunked_decoder.rs:485-535 | After every successful run: at most 8192 bytes carried over, `decoded_len` bytes emitted, `total_raw` bytes consumed, output only extended |
| ChunkedStream.SlicingDoesNotMatter | src/aws_chunked_decoder.rs:543-625 | Every slicing of a body has the outcome of the whole body in one push: the same state, or the same error up to the byte count reported with bytes after the end |
| ChunkedStream.SlicingsAgree | src/aws_chunked_decoder.rs:543-625 | Any two slicings of a body have the same outcome in that sense |
| ChunkedAgreement.StreamSound | src/aws_chunked_decoder.rs:550-701 | A body the incremental decoder accepts prints a well-formed tree within the streaming caps, with the data and trailers reported |
| ChunkedAgreement.StreamComplete | src/aws_chunked_decoder.rs:550-701 | Every well-formed tree within the caps is accepted with its meaning |
| ChunkedAgreement.DecodersAgree | src/aws_chunked_decoder.rs:224-337 | Under every slicing the incremental decoder yields a result if and only if the whole-buffer decoder does and the body is within the streaming caps |
| ChunkedAgreement.StreamingRefinesWholeBuffer | src/aws_chunked_decoder.rs:483-509 | What the incremental decoder accepts, the whole-buffer decoder accepts with the same data and trailers |
| ChunkedFailures.StreamTruncationIsUnexpectedEof | src/aws_chunked_decoder.rs:633-641 | Every proper prefix of a well-formed body within the caps is an unexpected end, under every slicing |
| ChunkedFailures.StreamRefusesExtraBytes | src/aws_chunked_decoder.rs:611-620 | Bytes after such a body are refused under every slicing, with the length of the body |
| ChunkedEncoder.Encode | src/aws_chunked_decoder.rs:397-443 | The encoder prints the tree of the data cut into chunks, a zero chunk and the trailer lines |
| ChunkedEncoder.HeaderOfSize | src/aws_chunked_decoder.rs:349-362 | A hexadecimal size, a semicolon and plain text parse as that size |
| ChunkedEncoder.ChunksAreFull | src/aws_chunked_decoder.rs:408-417 | Every chunk but the last has the size asked for, none is empty, and each header carries its own size |
| ChunkedEncoder.SignatureText | src/aws_chunked_decoder.rs:405-417 | The placeholder is `chunk-signature=` and sixty-four zeros |
| ChunkedEncoder.DecodeUndoesEncode | src/aws_chunked_decoder.rs:397-443 | Decoding an encoded body gives back data and trimmed trailers if and only if no key has a colon, no key or value a CRLF, and the lines fit 8192 bytes |
| ChunkedEncoder.StreamingUndoesEncode | src/aws_chunked_decoder.rs:397-443 | The same for the incremental decoder under every slicing, with 8191 bytes |
| ChunkedEncoder.LongHeaderSplitsTheDecoders | src/aws_chunked_decoder.rs:664-668 | A body with a long header line that one decoder accepts and the other rejects under every slicing |
| TopK.TopKTracker.MinEntry | src/bandwidth_limiter.rs:484-488 | An entry with the smallest count |
| TopK.TopKTracker.Record | src/bandwidth_limiter.rs:470-499 | Recording adds to a tracked label, takes a free entry, or takes over a smallest entry and adds its count to the residual |
| TopK.SpaceSavingGuarantee | src/bandwidth_limiter.rs:435-499 | Over every run: at most `cap` labels, counts summing to all bytes, each between the truth and the truth plus the smallest count, untracked labels at most the smallest count |
| TopK.HeavyHittersAreTracked | src/bandwidth_limiter.rs:435-499 | Any label with more than total / cap bytes is in the table |
| TopK.ResidualIsDisplaced | src/bandwidth_limiter.rs:484-497 | Over every run the residual is the sum of the smallest counts at the moments a full table met a new label |
| TopK.SnapshotCountsEveryByteOnceIff | src/bandwidth_limiter.rs:437-456 | Table plus residual equals the bytes recorded if and only if the distinct labels fit the table |
| TopK.EvictionIsCountedTwice | src/bandwidth_limiter.rs:489-493 | Two bytes recorded, three reported |
| Scheduler.ServedIsLongestPrefix | src/bandwidth_limiter.rs:872-904 | The waiters granted are the longest prefix of the queue within deficit and tokens and without zero-byte requests |
| Scheduler.PassFollowsRotation | src/bandwidth_limiter.rs:849-915 | The grants of a pass come class by class in the order of the rotation |
| Scheduler.PassGrants | src/bandwidth_limiter.rs:868-913 | In one pass a class is granted at most its deficit plus a quantum, emptied or not |
| Limiter.BandwidthLimiter.TryAcquire | src/bandwidth_limiter.rs:328-349 | Fails exactly when enabled with fewer than `min` tokens; otherwise grants between `min` and `desired` and takes that much, all there is if that is less than desired; grants `desired` for nothing when disabled |
| Limiter.BandwidthLimiter.GiveBack | src/bandwidth_limiter.rs:352-372 | Handing back adds to the bucket, capped at its capacity, unless disabled |
| Limiter.BandwidthLimiter.ServeHead | src/bandwidth_limiter.rs:872-904 | The inner loop grants exactly the servable prefix, charging deficit and tokens |
| Limiter.BandwidthLimiter.VisitClass | src/bandwidth_limiter.rs:856-925 | A visit adds a quantum, serves, removes an emptied class and caps the bucket once nobody waits, as `Visit` |
| Limiter.BandwidthLimiter.ServeWaiters | src/bandwidth_limiter.rs:843-926 | The rotation loop computes `Serve` |
| Limiter.BandwidthLimiter.OnTick | src/bandwidth_limiter.rs:785-815 | A tick refills, uncapped while somebody waits, and serves; or drains when disabled |
| Limiter.BandwidthLimiter.OnReceive | src/bandwidth_limiter.rs:817-834 | An arrival joins its class, and its class the rotation, and is served; or is granted at once when disabled |
| Limiter.BandwidthLimiter.DrainAll | src/bandwidth_limiter.rs:929-948 | Every waiter is granted, class by class in some order, and counted as a fail-open event |
| LimiterRuns.ServeTheorem | src/bandwidth_limiter.rs:842-926 | A pass keeps structure, histories and relative order; visits every waiting class once; pays for grants with tokens; leaves heads that exceed deficit or tokens |
| LimiterRuns.EveryRequestIsGrantedOrQueued | src/bandwidth_limiter.rs:776-948 | In every reachable state the rotation lists the waiting classes once each, and every request received is granted or queued, exactly once |
| LimiterRuns.CountersFit | src/bandwidth_limiter.rs:797-870 | Over every run tokens and deficits stay unsigned 64-bit numbers |
| LimiterRuns.DisabledTickReleasesAll | src/bandwidth_limiter.rs:787-791 | A disabled tick grants every waiter without tokens and counts each |
| LimiterRuns.DisabledGrantsAtOnce | src/bandwidth_limiter.rs:819-823 | An arrival at a disabled limiter is granted at once without tokens |
| LimiterRuns.FailOpenCounts | src/bandwidth_limiter.rs:929-941 | Over every run the fail-open counter counts the requests so released |
| Rotation.RotationGoesByWait | src/bandwidth_limiter.rs:826-909 | Over every run that is never disabled the rotation lists the waiting classes in the order in which each began to wait |
| Rotation.LongestWaitIsServedFirst | src/bandwidth_limiter.rs:849-915 | Of two classes granted in one pass, the one that has waited longer is granted first |
| LimiterRuns.ArrivalOrderIff | src/bandwidth_limiter.rs:818-834 | Over every run a class is granted in arrival order if and only if none of its requests arrived at a disabled limiter while others of it waited |
| LimiterRuns.DisablingBreaksOrder | src/bandwidth_limiter.rs:818-823 | A run of three steps in which a later request of a class is granted first |
| LimiterRuns.RateBound | src/bandwidth_limiter.rs:785-812 | Over every run at non-zero ceilings, changing or not, tokens left plus bytes granted by both paths less bytes handed back never exceed initial tokens plus the refill of each tick; right after the scheduler runs, idle tokens are within the capacity |
| LimiterRuns.RateBoundAtOneCeiling | src/bandwidth_limiter.rs:785-812 | At one ceiling the refills are ticks times a tenth of it, and idle tokens stay within the capacity |
| LimiterRuns.RateInBytes | src/bandwidth_limiter.rs:583-587 | At one ceiling ten times the bytes granted is at most ten times the initial tokens plus the ceiling per tick, and the refills fall short of that by less than a byte per tick |
| LimiterRuns.NewIsFull | src/bandwidth_limiter.rs:247-248 | A new limiter holds a tenth of a second of its ceiling |
| LimiterRuns.IdleTickFills | src/bandwidth_limiter.rs:792-812 | A tick with nobody waiting leaves exactly a tenth of a second of the ceiling in the bucket |
| LimiterRuns.FullUntilUsed | src/bandwidth_limiter.rs:328-349 | A full bucket stays so until somebody acquires, arrives or changes the ceiling, and any acquire of up to a tenth of the ceiling then succeeds |
| LimiterRuns.NewCeilingTakesEffect | src/bandwidth_limiter.rs:294-296 | After a new ceiling, the next idle tick fills the bucket to a tenth of it |
| LimiterRuns.RefundAdds | src/bandwidth_limiter.rs:352-372 | An enabled refund adds exactly its bytes if they fit the capacity, and else fills it |
| LimiterRuns.RefundUndoesAcquireIff | src/bandwidth_limiter.rs:328-372 | Acquiring and handing the grant back restores the bucket if and only if it was within its capacity or nothing was granted |
| LimiterRuns.RefundTakesTokensIff | src/bandwidth_limiter.rs:352-372 | Handing bytes back lowers the bucket if and only if bytes are handed back, the limiter is enabled and the bucket is above its capacity |
| LimiterRuns.RefundsStarve | src/bandwidth_limiter.rs:352-372 | At one ceiling, from a bucket within its capacity and with bytes handed back between any two ticks, tokens stay within twice the capacity and no request above that is ever granted |
| LimiterRuns.RefundUndoesRefill | src/bandwidth_limiter.rs:794-804 | A run in which a waiter's tokens go from one to two with a tick and back to one with a refund |
| LimiterRuns.TinyCeilingNeverRefills | src/bandwidth_limiter.rs:583-603 | While ceilings are below ten bytes a second, tokens plus bytes granted never rise, refunds included |
| LimiterRuns.DrainsEventuallyIff | src/bandwidth_limiter.rs:785-815 | Ticks empty the queues in the end if and only if no request is for zero bytes and the ceiling is at least ten or the bucket already covers the backlog |
| LimiterRuns.TinyCeilingStarves | src/bandwidth_limiter.rs:583-603 | At nine bytes a second a request for one byte waits through any number of ticks |
| LimiterRuns.CreditOverRun | src/bandwidth_limiter.rs:869-913 | While a class waits, whatever non-zero ceilings are set, deficit plus bytes granted grows by one mebibyte per pass, from nothing for a new class and up to saturation; and it is granted at most its starting deficit plus that, the pass that empties it included |
| LimiterRuns.TicksAreSteps | src/bandwidth_limiter.rs:785-815 | Ticks in a row form a run of the limiter at a fixed ceiling |
| LimiterRuns.ZeroByteRequestStays | src/bandwidth_limiter.rs:873-898 | A queued request for zero bytes is still queued after any number of ticks |
| LimiterRuns.ZeroByteRequestWaits | src/bandwidth_limiter.rs:873-898 | Sent to a new limiter, a request for zero bytes waits through any number of ticks |
| LimiterRuns.BacklogDrainsIff | src/bandwidth_limiter.rs:785-815 | Once refills cover the backlog and quanta the largest class, nobody waits if and only if no request is for zero bytes |
| GlobBytes.GlobToRegex | src/bucket_settings.rs:127-166 | The byte loop refuses blank patterns, panics if and only if some character is U+0800 or above, and otherwise prints the bytes of the anchored translation |
| GlobBytes.PanicsIffWide | src/bucket_settings.rs:135-159 | On well-formed UTF-8 the loop, which takes every lead byte for a character two bytes wide, slices off a boundary if and only if some scalar value takes three or four bytes |
| GlobBytes.TranslationOutcome | src/bucket_settings.rs:133-162 | On every other pattern the bytes printed are the encoding of the translation of its characters |
| GlobBytes.IdeographPanics | src/bucket_settings.rs:154-159 | The pattern of the one character U+4E2D panics |
| Glob.TranslationReadsBack | src/bucket_settings.rs:132-165 | The text printed parses as the pieces of the pattern, escapes included |
| Glob.TranslationPreservesMeaning | src/bucket_settings.rs:122-166 | The printed expression accepts a key if and only if the pattern matches it, for keys without a newline or patterns without `**` |
| Glob.NewlineIsTheException | src/bucket_settings.rs:140-144 | A key is treated by every pattern as documented if and only if it has no newline |
| Glob.DoubleStarIsTheException | src/bucket_settings.rs:140-144 | A pattern treats every key as documented if and only if it has no `**` |
| Glob.SegmentsAreKept | src/bucket_settings.rs:140-153 | Without `**`, an accepted key has as many slashes as the pattern |
| Rules.CachingFieldsResolve | src/bucket_settings.rs:497-520 | Each caching field has the value of the first matching rule that sets it, or the global default of the same name |
| Rules.FetchingFieldsResolve | src/bucket_settings.rs:521-536 | Widening, page size, hedging, trigger and hedge count likewise, with their constants as defaults |
| Rules.RamEligibleIff | src/bucket_settings.rs:516-545 | RAM is eligible if and only if the rules or the global default say so, there is a GET lifetime and reads are cached |
| Rules.SourceIsFirstMatch | src/bucket_settings.rs:491-515 | The source is the first matching rule, or the globals if none matches; compression counts as set by a rule if and only if one sets it |
| Rules.RuleMatchesGlob | src/bucket_settings.rs:488-489 | A rule matches a key if and only if its glob does, for keys without a newline or patterns without `**` |
| Rules.ResolutionIsStacking | src/bucket_settings.rs:497-535 | First match per field equals laying whole rules over the defaults, the first on top |
| Rules.LayeredResolution | src/bucket_settings.rs:487-564 | Resolving `a + b` is resolving `a` with the result of `b` as defaults |
| Rules.AppendingFillsGaps | src/bucket_settings.rs:497-545 | Appended rules change only fields that no earlier matching rule set, and RAM eligibility through TTL and reads |
| Rules.PageBounds | src/bucket_settings.rs:297-314 | A rule that enables widening may set pages of one byte to 64 MiB |
| Rules.PageSizeEscapesValidationIff | src/bucket_settings.rs:292-316 | With every rule valid, widening resolves with a page size out of bounds if and only if the first matching rule to set widening enables it and the matching rule that sets the size first does not itself enable widening and sets it so |
| Rules.HedgeTriggerEscapesValidationIff | src/bucket_settings.rs:318-342 | The same for the hedge trigger, or when no matching rule sets it and the timeout is no longer than the default trigger |
| Rules.ValidRulesCanResolveToZero | src/bucket_settings.rs:292-342 | Two rules that pass validation resolve to widening with a page of zero bytes, two others to hedging with a trigger of zero |
| Reload.RulesCache.LoadRules | src/bucket_settings.rs:739-793 | Each outcome of a load stores the rules or falls back |
| Reload.RulesCache.StoreValid | src/bucket_settings.rs:796-824 | The rules become active; non-empty rules before them become the fallback |
| Reload.RulesCache.UseFallback | src/bucket_settings.rs:828-849 | Non-empty active rules stay; empty ones give way to the fallback |
| Reload.LastGoodIsKept | src/bucket_settings.rs:796-849 | In every reachable state non-empty active rules are the latest non-empty valid ones; when active rules are empty those are the fallback |
| Reload.FailureRestoresLastGood | src/bucket_settings.rs:826-849 | After any failed load the latest non-empty valid rules are active, or none if there never were any |
| Reload.ValidLoadTakesEffect | src/bucket_settings.rs:795-812 | After a valid load exactly those rules are active |
| Reload.CountersCountLoads | src/bucket_settings.rs:599-607 | The health counters count loads and failures, and the rules of the last valid load |
| Reload.RulesLoadedIsRightIff | src/bucket_settings.rs:813-830 | The count of rules loaded matches the active rules except after a failure that restored rules from before a valid empty load |
| Reload.RestoredRuleIsNotCounted | src/bucket_settings.rs:813-849 | One rule loaded, the file removed, a failed load: one rule active, none counted |
| RollingScan.SelectIndices | src/cache_size_tracker.rs:834-846 | The selected indices are the cyclic interval, without repeats; the wrap flag |
| RollingScan.RollingScanner.ScanBatches | src/cache_size_tracker.rs:1546-1661 | The batch loop covers one cyclic interval of at most 256 slots, as many as the estimates allow, and ends exactly at a batch with nothing found, no time left or the round complete |
| RollingScan.RollingScanner.PerformCycle | src/cache_size_tracker.rs:1506-1788 | A cycle advances cursor and rotation counter by the slots covered |
| RollingScan.CursorAndRotations | src/cache_size_tracker.rs:1750-1787 | Over any run of cycles they are remainder and quotient of starting cursor plus slots covered, by 256 |
| RollingScan.CyclesJoinUp | src/cache_size_tracker.rs:1566-1575 | Consecutive cycles cover one unbroken cyclic stretch |
| RollingScan.EverySlotCoveredEvenly | src/cache_size_tracker.rs:1494-1506 | Every slot has been covered ⌊total / 256⌋ or ⌈total / 256⌉ times |
| Correction.CorrectionIsExactIff | src/cache_size_tracker.rs:922-926 | The code computes the formula if and only if its value fits a signed 64-bit integer |
| Correction.CorrectionOverflows | src/cache_size_tracker.rs:922-926 | Where the value does not fit, the code computes it less 2⁶⁴ if that fits, and else zero |
| Correction.FullScanReplaces | src/cache_size_tracker.rs:904-907 | Scanning all 256 shards returns the scanned figure |
| Correction.CorrectionIsMonotone | src/cache_size_tracker.rs:904-907 | More tracked or scanned never gives less |
| Correction.StagedStaysWithinTotal | src/cache_size_tracker.rs:1681-1731 | Staged bytes stay within the total after both are corrected |
| Correction.StaticCacheError | src/cache_size_tracker.rs:897-907 | On a static cache with equal shards the error `e` becomes `e − ⌊e·d / 256⌋` |
| Correction.ErrorShrinks | src/cache_size_tracker.rs:922-926 | An error in [0, 256 / d) stays; any other shrinks and keeps its sign |
| Correction.ErrorSettles | src/cache_size_tracker.rs:897-926 | On a static cache with equal shards, any sequence of corrections over any numbers of shards never enlarges the error, and as many as the error is large, over at least `m` shards each, bring it within [0, 256 / m) |
| Correction.ErrorDecays | src/cache_size_tracker.rs:897-926 | The error decays geometrically: `n` corrections over at least `m` shards each bring it to (1 − m/256)ⁿ of itself, for an excess up to the rounding, and keep its sign |
| Lz4Frame.EncodeStoreModeFrame | src/compression.rs:326-368 | The encoder writes header, stored blocks of at most 4 MiB, end mark and content checksum |
| Lz4Frame.EmptyFrameBytes | src/compression.rs:326-366 | The bytes of a frame without content |
| Lz4Frame.HeaderCheckIsSecondByte | src/compression.rs:340-342 | The header checksum is the second byte of the hash |
| Lz4Frame.FrameRoundTrip | src/compression.rs:310-368 | A reader of the frame format returns every payload, and what follows the frame |
| Lz4Frame.FrameLength | src/compression.rs:344-366 | A frame of n bytes has n + 4·⌈n / 4 MiB⌉ + 15 bytes |
| Lz4Frame.DecompressData | src/compression.rs:463-502 | The frame loop computes `Decompress` |
| Lz4Frame.FramesDecode | src/compression.rs:470-494 | Concatenated frames decode to the payloads before the first empty one |
| Lz4Frame.ConcatenationRoundTripIff | src/compression.rs:470-494 | They decode to all payloads if and only if no non-empty payload follows an empty one |
| Lz4Frame.EmptyFrameHidesNext | src/compression.rs:470-494 | An empty frame and a frame of one byte decode to nothing |
| FlushBuffer.UpdateBuffer.AddToBuffer | src/cache_hit_update_buffer.rs:194-199 | Recording appends to the buffer and counts |
| FlushBuffer.UpdateBuffer.TryBegin | src/cache_hit_update_buffer.rs:228-236 | One flush at a time |
| FlushBuffer.UpdateBuffer.TakeAll | src/cache_hit_update_buffer.rs:242-256 | The buffer is taken whole; an empty one ends the flush |
| FlushBuffer.Serialise | src/cache_hit_update_buffer.rs:279-305 | The content is the entries that serialise, in order |
| FlushBuffer.UpdateBuffer.WriteOut | src/cache_hit_update_buffer.rs:258-395 | Each outcome puts the entries back, appends them, or counts them as errors, and releases the flag |
| FlushBuffer.OutcomeLosesIff | src/cache_hit_update_buffer.rs:258-372 | A flush loses something if and only if the directory is there and an entry does not serialise, the journal cannot be opened or the write stops short |
| FlushBuffer.EveryUpdateIsAccountedFor | src/cache_hit_update_buffer.rs:194-395 | For every interleaving, updates recorded = buffered + held + flushed + errors, and nothing is in two places |
| FlushBuffer.NoUpdateIsJournaledTwice | src/cache_hit_update_buffer.rs:242-368 | The journal holds an update at most as often as it was recorded |
| FlushBuffer.NothingIsLostIff | src/cache_hit_update_buffer.rs:242-372 | Over every run, written, held and buffered updates together are exactly those recorded if and only if no flush met a journal it could not open, an entry that does not serialise or a write that stopped short |
| FlushBuffer.JournalIsExact | src/cache_hit_update_buffer.rs:307-372 | What the counters mean without half-way writes: the journal holds as many entries as were flushed, and no error is counted if and only if nothing is lost |
| FlushBuffer.FailedOpenLoses | src/cache_hit_update_buffer.rs:359-366 | A run in which the journal cannot be opened and the one update recorded is nowhere |
| FlushBuffer.JournalKeepsRecordingOrder | src/cache_hit_update_buffer.rs:242-368 | The journal keeps recording order unless a flush puts entries back behind newer updates |
| FlushBuffer.PutBackKeepsOrderIff | src/cache_hit_update_buffer.rs:266-270 | Putting entries back keeps the order if and only if nothing was recorded since they were taken |
| FlushBuffer.RecordingOrderIff | src/cache_hit_update_buffer.rs:242-368 | Over every run without losses or repeated updates, everything written or waiting is in recording order if and only if no flush put entries back behind newer ones |
| FlushBuffer.PutBackSwaps | src/cache_hit_update_buffer.rs:266-270 | A run of five steps in which two updates change places |

## Left out

- Limiter.BandwidthLimiter.OnTick: refill and capacity are the integer `ceiling / 10`; the rounding of the 64-bit float product is not modelled.
- LimiterRuns.BacklogDrainsIff: the backlog is at most 2⁶⁴ − 1 bytes, beyond which the saturating counters lose credit.
- LimiterRuns.DrainsEventuallyIff: the same bound on the backlog.
- Limiter.BandwidthLimiter.constructor: a limiter created with ceiling zero has no scheduler task in the program, so of the runs that start there only those without ticks and arrivals occur; they are not told apart.
- LimiterRuns.RateBound: each compare-exchange loop, and the load and store of the clamp, is one step; the disabled bypass and the fail-open drain grant without tokens by design and are outside it.
- FlushBuffer.JournalKeepsRecordingOrder: one direction only, since entries put back out of order may later be lost and leave the journal in order; RecordingOrderIff is exact where nothing is lost.
- FlushBuffer.JournalIsExact: leaves out half-way writes, whose lines are in the journal and yet counted as errors; NothingIsLostIff covers every run.
- FlushBuffer.UpdateBuffer.WriteOut: a failed write leaves whole lines in the journal; a line cut short is not modelled.
- ChunkedAgreement.DecodersAgree: does not compare error variants, which do differ between the decoders; ChunkedFailures compares those for bodies cut short or carried on.
- Correction.ErrorSettles: the figures fit a signed 64-bit integer, outside which CorrectionIsExactIff says what is computed.
- Correction.CorrectionIsExactIff: describes builds where integer overflow wraps, not those where it panics.
- TopK.TopKTracker.Record: counts are unbounded integers, and concurrent calls on the shared map are not interleaved.
- RollingScan.RollingScanner.ScanBatches: batch size estimates and the presence of directories are parameters; the float arithmetic behind the estimates is not modelled.
- Header-based detection of aws-chunked bodies, the decoded-length header and the text of error messages.
- Fairness key extraction, the fleet heartbeat, the global limiter instance and the throttling stream.
- JSON parsing of rules, durations, the other validation checks, staleness timing and the single-flight lock.
- `regex` itself: a reader of the fragment that the translation prints stands for it.
- LZ4 block compression, xxHash32 and the frame decoder library: parameters, or the reader written after the LZ4 Frame Format Description.
- Directory traversal, expiry and eviction during validation, and full scans, which reset the rolling state.
- A flush that is cancelled while it runs, the flush interval and durability after `fdatasync`.
- Background recovery, cache initialisation, capacity management: mostly input and output around simple sums.
