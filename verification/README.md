# Verified models of rsync components

This project models the parts of the rsync implementation whose correctness rests on
whole-run or whole-input arguments, and proves those arguments. `dafny verify dfyconfig.toml`
checks everything.

| module | what it models |
|---|---|
| `ReorderBuffers`, `ParallelApply`, `ReceiveDeltaHarness` | the receive-side delta path: the reorder ring, the per-file slot in front of a writer, the parallel applier over all files, and the differential check that compares the applier with a sequential reference on arbitrary input bytes |
| `AppleDouble`, `AppleDoubleWire` | the AppleDouble container of section 5 of RFC 1740: encoder, decoder, and the entry list behind `entry` and `set_entry` |
| `RateLimiter` | the asynchronous token-bucket limiter, as an object and as runs of calls over time |
| `SizeArg`, `SizeTexts`, `BandwidthArg` | size arguments (`1.5MiB-1`) in checked 128-bit arithmetic, and `--bwlimit` on top of them |
| `ShellWords`, `ReplayScript`, `ReplayTexts`, `Heredoc` | the replay script of a batch: quoting, the choice and rewriting of options, the filter here-document; each with a shell reader as its inverse |
| `BatchWriter`, `SimdOverride` | two call protocols: one header before any data, and a one-shot cell set by competing threads |

`StableSort`, `Powers` and `Prelude` are shared vocabulary.

The loops and objects of the source are methods and classes. Each is proved equal to a
specification function, and the lemmas are about those functions. The specification functions
are in turn tied to something that does not mention the code: a grammar, a rational number, a
reader, a map, the *set* of chunks that arrived, a permutation. `AppleDoubleWire`, `SizeTexts`
and `ReplayTexts` say the same once more in literal bytes, characters and numbers.

## What the proofs found

Statements that the code or its documentation suggests, and that are false. Each has a
concrete input and an exact condition.

1. **The differential check of the receive path can fail on a correct applier.** The parallel
   side reports a digest for every registered file, the sequential side only for files that
   have a record. For every input and ring capacity, when the final equality is reached it
   holds if and only if every registered file has a record (`HarnessAssertion`). A 21-byte input
   violates it (`HarnessAssertionFails`). For each file that has a record the two digests agree.
2. **Not every duplicate chunk is refused.** The harness drops duplicates because, its comment
   says, a second insert exceeds the capacity. A repeated number is refused if and only if its
   first copy was already delivered (`DuplicateRefusedIff`); one that is still buffered is
   silently replaced (`BufferedDuplicateTaken`).
3. **The limiter exceeds a token bucket.** The replenish after a sleep credits the time slept,
   although the bytes that the sleep paid for were already granted, and the sleep itself is
   rounded down. The bytes granted keep `burst + rate * t` under every timing if and only if the
   requests fit one burst, or only the last that is not empty goes beyond it, by an amount that
   is paid to the nanosecond (`BytesKeptIff`, and `CallBytesKeptIff` for one call;
   `RoundingDecides` has an input on each side). The bytes granted *and the tokens in hand*
   together keep it if and only if the requests fit one burst (`RunKeptIff`, `PromiseKeptIff`).
   At every rate, requests of one second's worth sustain twice the rate (`SustainedDoubleRate`,
   `DoubleRateBreaks`). Above 10^9 bytes per second the sleep for a byte rounds to nothing and
   there is no limit at all (`UnlimitedAboveNanos`). What every run does keep is a bound with
   sleeping time counted twice, rounding and truncation charged (`LedgerBound`,
   `FixedRateBound`).
4. **Malformed sizes can be reported as too large.** The documentation says malformed text is
   `Invalid`. The code answers `Invalid` if and only if the text is malformed *and* its numeric
   prefix does not overflow (`VerdictExact`). Forty nines and an `X` are the witness
   (`MalformedButTooLarge`).
5. **An empty argument disappears from the replay script.** The options read back exactly if and
   only if no kept argument is empty (`OptionsLossless`, `EmptyArgumentLost`).
6. **The two option writers of the script module differ on a separate batch name.** They agree
   if and only if no kept argument is a bare write-batch option (`WritersAgree`,
   `WritersDiffer`).
7. **An operand can be written to the script.** The right-to-left match may take the value of a
   filter option for the operand. The operands' own places are all elided if and only if no
   operand is repeated before the next operand's place (`OperandsElidedIff`,
   `OperandReemitted`).
8. **A rule line `#E#` cuts the filter document short**, and nothing else does
   (`DocumentReadBack`, `RulesCutShort`). In NUL mode a list is recovered if and only if it is
   non-empty and free of NULs (`NulListReadBack`, `NulEmptyList`, `NulRuleSplits`).
9. **A container's insertion order does not survive a round trip**, as a field comment says it
   does, unless the entries were already sorted by identifier (`OrderSurvivesIff`, `OrderLost`).
   What survives is the stable sort (`RoundTrip`).

## Model

| member | source | states |
|---|---|---|
| `ReorderBuffers.ReorderBuffer.constructor` | crates/engine/src/concurrent_delta/reorder/mod.rs:200-220 | A new ring is an empty window starting at sequence 0 |
| `ReorderBuffers.ReorderBuffer.SlotIndex` | crates/engine/src/concurrent_delta/reorder/mod.rs:328-337 | There is a slot exactly for the sequence numbers inside the window, and it lies the right number of places after the head, around the end of the ring |
| `ReorderBuffers.ReorderBuffer.Insert` | crates/engine/src/concurrent_delta/reorder/mod.rs:353-379 | Refuses exactly the numbers outside the window, changing nothing; otherwise adds (or replaces) that one item of the map and raises the high-water mark to reach it |
| `ReorderBuffers.ReorderBuffer.NextInOrder` | crates/engine/src/concurrent_delta/reorder/mod.rs:456-475 | Delivers the next expected item exactly when it is buffered, moves the window and the high-water mark by one (to zero when the ring empties); otherwise nothing changes |
| `ReorderBuffers.ReorderBuffer.ResizeTo` | crates/engine/src/concurrent_delta/reorder/mod.rs:666-682 | Reallocating to any capacity at or above the high-water mark, larger or smaller, loses and moves no buffered item |
| `ReorderBuffers.ReorderBuffer.Grow` | crates/engine/src/concurrent_delta/reorder/mod.rs:655-661 | The new capacity is the larger of the request and twice the old one, and the contents stay |
| `ReorderBuffers.ReorderBuffer.ForceInsert` | crates/engine/src/concurrent_delta/reorder/mod.rs:612-647 | Never refuses an undelivered number however far ahead, growing exactly when it must and by how much, ignores delivered ones, disturbs no other item |
| `ReorderBuffers.ReorderBuffer.Take` | crates/engine/src/concurrent_delta/reorder/mod.rs:693-705 | Removes exactly the asked item, if buffered, without moving the window |
| `ReorderBuffers.WrapIsMod` | crates/engine/src/concurrent_delta/reorder/mod.rs:328-337 | The modular index is the head plus the offset, wrapped at most once |
| `ReorderBuffers.StoreStep` | crates/engine/src/concurrent_delta/reorder/mod.rs:353-379 | Storing keeps slots, count and high-water mark in agreement with the window for every head position, overwriting included |
| `ReorderBuffers.ClearStep` | crates/engine/src/concurrent_delta/reorder/mod.rs:693-705 | Emptying any slot keeps the ring invariant and the slot held what the window says |
| `ReorderBuffers.AdvanceStep` | crates/engine/src/concurrent_delta/reorder/mod.rs:456-475 | Delivering at the head keeps the invariant with the high-water mark lowered by one, or zeroed when the ring empties |
| `ReorderBuffers.ResizeStep` | crates/engine/src/concurrent_delta/reorder/mod.rs:666-682 | Unrolling the ring from its head keeps the invariant when there is room up to the high-water mark |
| `ParallelApply.FileSlot.constructor` | crates/engine/src/concurrent_delta/parallel_apply/file_slot.rs:61-67 | A fresh slot has written nothing and expects sequence 0 |
| `ParallelApply.FileSlot.DrainReady` | crates/engine/src/concurrent_delta/reorder/mod.rs:482-484 | Draining takes out exactly the contiguous run at the window's start, in order |
| `ParallelApply.FileSlot.Ingest` | crates/engine/src/concurrent_delta/parallel_apply/file_slot.rs:82-96 | Succeeds exactly when the number is inside the window; then the slot is the accepted state, bytes in order on the writer; otherwise it is untouched |
| `ParallelApply.FileSlot.WriteAll` | crates/engine/src/concurrent_delta/parallel_apply/file_slot.rs:98-105 | Appends the drained chunks in order and keeps the byte counter equal to the bytes written |
| `ParallelApply.DrainReachesGap` | crates/engine/src/concurrent_delta/parallel_apply/file_slot.rs:82-96 | Draining stops precisely at the first missing sequence number |
| `ParallelApply.AcceptCanonical` | crates/engine/src/concurrent_delta/parallel_apply/file_slot.rs:82-96 | The slot is a function of the chunks so far: a further chunk is accepted exactly when its number lies in the window from their first gap, new or still buffered, and leads to the canonical state of the chunks with it |
| `ParallelApply.AnyOrderIsCanonical` | crates/engine/src/concurrent_delta/parallel_apply/file_slot.rs:82-96 | For every run of chunks, of any length and with repetitions: nothing is refused if and only if each chunk arrives inside its window, and then the slot is the canonical state of the chunks |
| `ParallelApply.ArrivalOrderIrrelevant` | crates/engine/src/concurrent_delta/parallel_apply/file_slot.rs:82-96 | Any two accepted orders of the same distinct chunks, or with the same last arrival under each number, give the same slot, byte for byte |
| `ParallelApply.RoomForAll` | crates/engine/src/concurrent_delta/parallel_apply/file_slot.rs:82-96 | With a ring as large as the numbers, no order of distinct chunks is refused |
| `ParallelApply.InOrderAlwaysFits` | crates/engine/src/concurrent_delta/parallel_apply/file_slot.rs:82-96 | Chunks sent in order fit a ring of any positive capacity, however long the file |
| `ParallelApply.DuplicateRefusedIff` | fuzz/fuzz_targets/parallel_receive_delta_adversarial.rs:127-129 | After any accepted run a repeated number is refused if and only if it was already delivered; otherwise its chunk is replaced |
| `ParallelApply.BufferedDuplicateTaken` | fuzz/fuzz_targets/parallel_receive_delta_adversarial.rs:127-129 | Sequence 1 sent twice before sequence 0: the second copy is taken |
| `ParallelApply.ApplyAllSplits` | crates/engine/src/concurrent_delta/parallel_apply/applier.rs:365-391 | The applier over all files is the independent product of its slots: it succeeds exactly when every record names a registered file and each file's subsequence is accepted, and each slot ends as if its file were alone |
| `ReceiveDeltaHarness.ParseInput` | fuzz/fuzz_targets/parallel_receive_delta_adversarial.rs:97-125 | The input is rejected exactly when no whole record fits; otherwise the records are those at the fixed offsets, up to the record limit |
| `ReceiveDeltaHarness.ParsedBytes` | fuzz/fuzz_targets/parallel_receive_delta_adversarial.rs:97-125 | Every parse, byte by byte: file count, payload size, record places, low byte first in the sequence number, at most 64 records |
| `ReceiveDeltaHarness.ParseUnique` | fuzz/fuzz_targets/parallel_receive_delta_adversarial.rs:97-125 | Every input has exactly one parse: the record count is determined by the length and the limit |
| `ReceiveDeltaHarness.RecordsBounds` | fuzz/fuzz_targets/parallel_receive_delta_adversarial.rs:97-125 | Every parsed record names a registered file and a 16-bit sequence number |
| `ReceiveDeltaHarness.Deduplicate` | fuzz/fuzz_targets/parallel_receive_delta_adversarial.rs:130-136 | The loop with the seen-set computes first occurrences |
| `ReceiveDeltaHarness.DedupCorrect` | fuzz/fuzz_targets/parallel_receive_delta_adversarial.rs:130-136 | No two survivors share file and number, every survivor was there, and every original is represented |
| `ReceiveDeltaHarness.DedupKeepsFirst` | fuzz/fuzz_targets/parallel_receive_delta_adversarial.rs:127-136 | Exactly the first copies survive, in order |
| `ReceiveDeltaHarness.IndexSorted` | fuzz/fuzz_targets/parallel_receive_delta_adversarial.rs:149-155 | The index given to a number is how many numbers do not exceed it, less one, in 16 bits |
| `ReceiveDeltaHarness.GroupNumbers` | fuzz/fuzz_targets/parallel_receive_delta_adversarial.rs:141-148 | Groups hold each file's numbers in arrival order, and only files with records have a group |
| `ReceiveDeltaHarness.Renumber` | fuzz/fuzz_targets/parallel_receive_delta_adversarial.rs:141-164 | Every record keeps place, file and payload and gets the rank of its number within its file |
| `ReceiveDeltaHarness.RankCorrect` | fuzz/fuzz_targets/parallel_receive_delta_adversarial.rs:141-164 | On deduplicated records ranks are below the file's record count, never above the number, and preserve order both ways, so the 16-bit cast loses nothing |
| `ReceiveDeltaHarness.RenumberedKeeps` | fuzz/fuzz_targets/parallel_receive_delta_adversarial.rs:141-164 | Renumbering keeps number, place, file and payload of the records and the order of numbers within a file, both ways |
| `ReceiveDeltaHarness.RenumberedDense` | fuzz/fuzz_targets/parallel_receive_delta_adversarial.rs:141-164 | After renumbering, each file's numbers are distinct and fill 0..n-1 |
| `ReceiveDeltaHarness.HashInOrder` | fuzz/fuzz_targets/parallel_receive_delta_adversarial.rs:173-182 | The digest is of the payloads joined in stable sequence order |
| `ReceiveDeltaHarness.GroupRecords` | fuzz/fuzz_targets/parallel_receive_delta_adversarial.rs:168-172 | Groups are the per-file subsequences, for exactly the files that occur |
| `ReceiveDeltaHarness.SequentialReference` | fuzz/fuzz_targets/parallel_receive_delta_adversarial.rs:168-184 | The oracle maps exactly the files that occur to the digest of their ordered stream |
| `ReceiveDeltaHarness.StreamKept` | fuzz/fuzz_targets/parallel_receive_delta_adversarial.rs:141-184 | Renumbering changes no file's byte stream |
| `ReceiveDeltaHarness.StreamIgnoresOrder` | fuzz/fuzz_targets/parallel_receive_delta_adversarial.rs:168-184 | No permutation of arrival changes a file's byte stream |
| `ReceiveDeltaHarness.DenseSlot` | crates/engine/src/concurrent_delta/parallel_apply/file_slot.rs:82-105 | A slot fed a dense file of any length is never refused exactly when the chunks arrive inside the window, and then ends empty with exactly the sorted payloads written; a ring as large as the file takes every order |
| `ReceiveDeltaHarness.DestinationsMatchReference` | fuzz/fuzz_targets/parallel_receive_delta_adversarial.rs:217-271 | For every record list and ring capacity the pipeline (deduplicate, renumber, parallel apply) succeeds exactly when every file arrives inside its window, always so in rings as large as the list; then every destination equals the sequential stream and nothing is left buffered |
| `ReceiveDeltaHarness.HarnessAssertion` | fuzz/fuzz_targets/parallel_receive_delta_adversarial.rs:253-271 | For every input byte string and ring capacity: the final equality is reached exactly when every file arrives inside its window, always with rings of 64; once reached it holds if and only if every registered file has a record |
| `ReceiveDeltaHarness.HarnessAssertionFails` | fuzz/fuzz_targets/parallel_receive_delta_adversarial.rs:253-271 | A 21-byte input, two files with one record, on which the equality is reached and fails for every ring of at least 64 |
| `AppleDouble.ReadWriteU32` | crates/apple-fs/src/apple_double.rs:299-301 | Big-endian 32-bit fields are read back as written |
| `AppleDouble.ReadWriteU16` | crates/apple-fs/src/apple_double.rs:216 | Big-endian 16-bit fields are read back as written |
| `AppleDouble.Encode` | crates/apple-fs/src/apple_double.rs:256-296 | The encoder's loops produce the layout of the sorted entries, or the error of the first guard that fails |
| `AppleDoubleWire.EncodedBytes` | crates/apple-fs/src/apple_double.rs:256-296 | For every encodable container, byte by byte: `00 05 16 07 00 02 00 00`, sixteen zeros, the entry count, then identifier, offset and length of each entry in id order, high byte first, and the payloads tiling the rest |
| `AppleDouble.WriteTable` | crates/apple-fs/src/apple_double.rs:281-291 | Past the early guards the per-entry length and offset checks never fire, and the descriptors carry the prefix sums |
| `AppleDouble.ReadEntry` | crates/apple-fs/src/apple_double.rs:229-241 | A descriptor yields its payload exactly when its range lies in the input |
| `AppleDouble.Decode` | crates/apple-fs/src/apple_double.rs:203-243 | The decoder accepts exactly well-framed input and returns what the descriptors point at, in table order |
| `AppleDoubleWire.DecodedVerdict` | crates/apple-fs/src/apple_double.rs:203-243 | For arbitrary input, by byte: which inputs are accepted (either magic number `00 05 16 07` or `00 05 16 00`, version `00 02 00 00`, table and ranges inside) and which of the five errors every other one gets |
| `AppleDoubleWire.DecodedBytes` | crates/apple-fs/src/apple_double.rs:203-243 | Whatever is decoded is, entry by entry, the identifier and the payload that the descriptor's twelve bytes name, high byte first |
| `AppleDouble.EncodeSucceedsIff` | crates/apple-fs/src/apple_double.rs:256-296 | Encoding succeeds if and only if there are at most 65535 entries and 26 + 12n + payload fits 32 bits; that is then the length |
| `AppleDoubleWire.EncodesIff` | crates/apple-fs/src/apple_double.rs:256-275 | Which of the two errors an encoding gets, with the limits 65535 and 4294967295 |
| `AppleDouble.RoundTrip` | crates/apple-fs/src/apple_double.rs:203-296 | Decoding an encoding gives the stable sort by id, for any ids and payloads, duplicates included |
| `AppleDouble.OrderSurvivesIff` | crates/apple-fs/src/apple_double.rs:152-154 | Insertion order survives a round trip if and only if the entries were sorted by id |
| `AppleDouble.OrderLost` | crates/apple-fs/src/apple_double.rs:152-154 | Two entries in descending id order come back swapped |
| `AppleDouble.Canonical` | crates/apple-fs/src/apple_double.rs:256-296 | Two containers encode alike if and only if, id by id, they hold the same payloads in the same order |
| `AppleDouble.OrderIrrelevant` | crates/apple-fs/src/apple_double.rs:256-263 | Reordering entries with distinct ids never changes the bytes |
| `AppleDouble.Normalised` | crates/apple-fs/src/apple_double.rs:203-296 | Whatever decodes and re-encodes is a fixed point of decode-then-encode from then on |
| `AppleDouble.RangesTile` | crates/apple-fs/src/apple_double.rs:265-294 | The descriptors' ranges tile the bytes after the table, without gap or overlap, to the end |
| `AppleDouble.FindIsFirst` | crates/apple-fs/src/apple_double.rs:165-168 | Lookup finds the first entry with the id, and nothing exactly when there is none |
| `AppleDouble.LookupSurvives` | crates/apple-fs/src/apple_double.rs:165-296 | Lookup after a round trip equals lookup before it, duplicates included |
| `AppleDouble.Container.FindEntry` | crates/apple-fs/src/apple_double.rs:165-168 | The search loop returns the first match |
| `AppleDouble.Container.SetEntry` | crates/apple-fs/src/apple_double.rs:184-191 | Replaces the payload of the first match in place, or appends |
| `AppleDouble.PutMembers` | crates/apple-fs/src/apple_double.rs:184-191 | On distinct ids, setting keeps them distinct and changes the content of that id only |
| `AppleDouble.PutInPlace` | crates/apple-fs/src/apple_double.rs:165-191 | The first entry with the id is found, and replaced where it stands; without one, a new entry goes to the end |
| `AppleDouble.PutAllIsMap` | crates/apple-fs/src/apple_double.rs:184-191 | Any sequence of `set_entry` calls from empty behaves as a map: one entry per id, the last payload wins |
| `AppleDouble.SameContentSameBytes` | crates/apple-fs/src/apple_double.rs:184-296 | Histories of calls that mean the same map encode to the same bytes |
| `StableSort.SortIsStable` | crates/apple-fs/src/apple_double.rs:262-263 | The specification of `sort_by_key`: sorted, a permutation, and elements of equal key in their old order |
| `StableSort.SortEqualIff` | crates/apple-fs/src/apple_double.rs:262-263 | Two lists have the same stable sort if and only if they agree key by key |
| `RateLimiter.AsyncRateLimiter.constructor` | crates/bandwidth/src/async_limiter.rs:52-62 | Rate, burst and tokens are all the given number |
| `RateLimiter.AsyncRateLimiter.ReplenishNow` | crates/bandwidth/src/async_limiter.rs:146-157 | Tokens are what was held plus the floor of rate times elapsed time over 10^9, up to the burst |
| `RateLimiter.AsyncRateLimiter.ConsumeBytes` | crates/bandwidth/src/async_limiter.rs:73-96 | A covered call does not sleep and takes exactly its bytes; any other sleeps for the shortfall at the rate, cut to 64 bits, and is left with what the whole time slept earned, lateness included |
| `RateLimiter.AsyncRateLimiter.ResetNow` | crates/bandwidth/src/async_limiter.rs:99-102 | Tokens equal the burst, the rate stays, and the clock restarts |
| `RateLimiter.AsyncRateLimiter.ChangeRate` | crates/bandwidth/src/async_limiter.rs:113-122 | Earns at the old rate first and keeps what was held, up to the new burst |
| `RateLimiter.ReplenishExact` | crates/bandwidth/src/async_limiter.rs:146-157 | The saturating 64-bit arithmetic never changes the result: tokens are exactly min(burst, tokens + floor) |
| `RateLimiter.Run` | crates/bandwidth/src/async_limiter.rs:52-122 | In every state reachable by new, consume, reset and set_rate: tokens <= burst = rate |
| `RateLimiter.LedgerBound` | crates/bandwidth/src/async_limiter.rs:73-122 | For every run, set_rate, reset and truncated sleeps included, bytes granted plus tokens held are bounded by the opening burst plus resets plus each interval at its own rate, sleeping intervals counted twice, what the 64-bit cast cut off, and less than a rate's worth of nanobytes per sleep |
| `RateLimiter.FixedRateBound` | crates/bandwidth/src/async_limiter.rs:73-96 | At a fixed rate: 10^9 (granted + tokens) <= 10^9 burst + rate (elapsed + sleeping time + time cut off) + (rate - 1) sleeps; nothing is cut off while the sleeps fit 64 bits |
| `RateLimiter.CutMatters` | crates/bandwidth/src/async_limiter.rs:82-95 | At rate 1 a request for 2^64 - 1 bytes breaks the bound without the cut-off term |
| `RateLimiter.PromiseKeptIff` | crates/bandwidth/src/async_limiter.rs:64-96 | The bytes a call grants and the tokens it leaves, together, stay within its allowance under every timing if and only if the tokens in hand cover the request |
| `RateLimiter.QuietRunKept` | crates/bandwidth/src/async_limiter.rs:64-96 | Every run without a sleep keeps burst + rate * t, tokens in hand included |
| `RateLimiter.RunKeptIff` | crates/bandwidth/src/async_limiter.rs:64-96 | For a list of requests at a fixed rate, bytes granted and tokens in hand together keep burst + rate * t under every timing if and only if the total fits one burst |
| `RateLimiter.CallBytesKeptIff` | crates/bandwidth/src/async_limiter.rs:64-96 | The bytes of a call alone stay within its allowance under every timing if and only if the tokens in hand cover it or the shortfall takes a whole number of nanoseconds that fits 64 bits |
| `RateLimiter.BytesKeptIff` | crates/bandwidth/src/async_limiter.rs:64-96 | For a list of requests at a fixed rate, the bytes granted keep burst + rate * t under every timing if and only if the requests fit one burst, or only the last that is not empty goes beyond it and is paid to the nanosecond |
| `RateLimiter.RoundingDecides` | crates/bandwidth/src/async_limiter.rs:82-95 | Two bytes at rate 1 meet that condition, four bytes at rate 3 do not |
| `RateLimiter.UnlimitedAboveNanos` | crates/bandwidth/src/async_limiter.rs:82-95 | For every rate above 10^9 and every n, n single bytes beyond the burst are granted in zero time |
| `RateLimiter.SustainedDoubleRate` | crates/bandwidth/src/async_limiter.rs:73-96 | For every rate and n there is a run that grants 2n + 1 seconds' worth in n seconds |
| `RateLimiter.DoubleRateBreaks` | crates/bandwidth/src/async_limiter.rs:64-96 | Those runs break burst + rate * t from the first second on, in bytes alone |
| `RateLimiter.ReplenishManyExact` | crates/bandwidth/src/async_limiter.rs:146-157 | After any sequence of replenishes tokens are min(burst, start + sum of per-interval floors) |
| `RateLimiter.FrequentReplenish` | crates/bandwidth/src/async_limiter.rs:146-157 | n replenishes never earn more than one over the whole span, and fall short by at most n - 1 tokens |
| `SizeArg.PowU128` | crates/bandwidth/src/size_arg.rs:39-55 | Repeated squaring in checked 128 bits is exact, and fails exactly when the true power does not fit |
| `SizeArg.Scan` | crates/bandwidth/src/size_arg.rs:79-88 | Stops at the longest prefix of digits with at most one separator, and knows whether it saw a digit |
| `SizeArg.ParseDecimal` | crates/bandwidth/src/size_arg.rs:182-216 | On every slice the scan hands over the answer is the exact accumulators or TooLarge, never Invalid |
| `SizeArg.MantissaExact` | crates/bandwidth/src/size_arg.rs:182-216 | The accumulators denote the mantissa exactly: all its digits over ten to the number of fraction digits |
| `SizeArg.ParseRemainder` | crates/bandwidth/src/size_arg.rs:96-159 | The branch chain recognises exactly the optional letter, the optional `B`/`iB` and the optional `+1`/`-1`, and reports power, base and unit |
| `SizeArg.ParseTreeExact` | crates/bandwidth/src/size_arg.rs:72-159 | Reading and printing are inverse on the grammar: it is unambiguous, and the left-to-right reading finds the one tree |
| `SizeArg.Evaluate` | crates/bandwidth/src/size_arg.rs:161-174 | The chain of checked steps gives the floor plus adjustment, and fails exactly when the exact product, the denominator or the adjusted result is out of range |
| `SizeArg.ParseSizeArg` | crates/bandwidth/src/size_arg.rs:72-177 | The parser computes the meaning of the text under the default suffix |
| `SizeTexts.SizeAnswer` | crates/bandwidth/src/size_arg.rs:72-177 | Every spelled text is answered with the floor of its decimal number times the literal multiple of its unit, adjusted, and TooLarge exactly beyond 2^128 - 1 or below 0 |
| `SizeTexts.PlainUnits` | crates/bandwidth/src/size_arg.rs:108-142 | Each letter in either case, alone, with `B`, with `iB`, or as the default, for every number: multiples of 1, 1024, 1048576, ... and 1000, 1000000, ..., with the reported unit |
| `SizeTexts.InvalidIff` | crates/bandwidth/src/size_arg.rs:72-177 | With the grammar in literal characters: a text is malformed exactly when nothing spells it and its longest numeric prefix is not too large; no other text is answered |
| `SizeArg.GrammaticalMeaning` | crates/bandwidth/src/size_arg.rs:161-176 | A grammatical text gives exactly the floor plus adjustment, or TooLarge precisely when an exact intermediate leaves 128 bits or the result is negative |
| `SizeArg.AnswerIsFloor` | crates/bandwidth/src/size_arg.rs:72-216 | Every Ok answer less its adjustment is the floor of mantissa times base^reps, as rationals |
| `SizeArg.VerdictExact` | crates/bandwidth/src/size_arg.rs:66-177 | Ok only on grammatical text; Invalid if and only if the text is malformed and its numeric prefix does not overflow |
| `SizeArg.MalformedButTooLarge` | crates/bandwidth/src/size_arg.rs:66-90 | Forty nines and an unknown letter: malformed, reported as TooLarge |
| `SizeArg.ShortMantissaFits` | crates/bandwidth/src/size_arg.rs:161-174 | With at most 23 digits a grammatical size fails if and only if the floor is 0 and the adjustment is -1 |
| `BandwidthArg.ParseBandwidthArgument` | crates/bandwidth/src/parse.rs:53-112 | Sign, minimum, rounding and range policy on top of the size argument |
| `BandwidthArg.LimitGranted` | crates/bandwidth/src/parse.rs:53-112 | A limit is returned if and only if it is the positive multiple of 1024 within -511..+512 of a parsed count of at least 512, unsigned or plus-signed, in 64 bits |
| `BandwidthArg.LimitVerdicts` | crates/bandwidth/src/parse.rs:53-112 | When a text is unlimited (zero), too small (1 to 511 bytes), malformed, or out of range, each if and only if |
| `BandwidthArg.NearestMultiple` | crates/bandwidth/src/parse.rs:94-107 | The rounding is characterised: the only multiple of 1024 in -511..+512 |
| `BandwidthArg.RoundingMonotone` | crates/bandwidth/src/parse.rs:94-107 | Larger requests never get smaller limits |
| `BandwidthArg.LimitReadBack` | crates/bandwidth/src/parse.rs:53-112 | A returned limit printed in decimal with `B` parses to itself |
| `ShellWords.ShellQuote` | crates/batch/src/script.rs:341-358 | The character loop produces the quoted form |
| `ShellWords.UnquotedIff` | crates/batch/src/script.rs:341-358 | A string is printed as it is exactly when every character is a letter, a digit, one of `-_/.:=` or alphanumeric beyond ASCII; otherwise in single quotes with each quote as `'\''`; and no such character is special to the shell |
| `ShellWords.ReadQuotedWord` | crates/batch/src/script.rs:341-358 | In any context a shell reader, which stops at every special character, takes the quoted form as exactly the original characters of one word, for every string; only the empty string starts no word |
| `ReplayScript.ClassifiersAgree` | crates/batch/src/script.rs:195-332 | The two writers test an argument in different orders and still classify every argument alike |
| `ReplayScript.ElideOperands` | crates/batch/src/script.rs:280-289 | The backward loop marks exactly the greedy right-to-left match |
| `ReplayScript.ElisionIsLongestRightmost` | crates/batch/src/script.rs:280-289 | No other embedding of an operand suffix is longer, none of equal length lies further right at any position, all operands go when they can, and index 0 never does |
| `ReplayScript.OperandsElidedIff` | crates/batch/src/script.rs:261-289 | Wherever the operands really stand, all their places are elided if and only if no operand is repeated before the next operand's place |
| `ReplayScript.OperandsStayOutIff` | crates/batch/src/script.rs:261-332 | Operands that, by the argument vector alone, are not filter options or values of one stay out of the script if and only if none is repeated before the next operand |
| `ReplayScript.OperandReemitted` | crates/batch/src/script.rs:261-289 | An `--exclude` value equal to an operand is elided in its place, and the operand is written |
| `ReplayScript.SelectOptions` | crates/batch/src/script.rs:292-332 | The index loop keeps exactly the arguments that are neither elided, nor filter options, nor the value of one, in order |
| `ReplayScript.WriteReplayOptions` | crates/batch/src/script.rs:273-334 | The whole writer: elision, selection and text |
| `ReplayTexts.ScriptWords` | crates/batch/src/script.rs:273-358 | From the literal option texts: the shell reads exactly the arguments that are not elided, not `--files-from*`, `--filter*`, `--include*`, `--exclude*` or `-f`, and not the value of one without `=`, with `--write-batch=n` and `--only-write-batch=n` read as `--read-batch=n`; no forbidden option is among the words |
| `ReplayTexts.ScriptText` | crates/batch/src/script.rs:292-332 | The first writer's text, character by character, from the literal option texts |
| `ReplayScript.OptionsReadBack` | crates/batch/src/script.rs:273-358 | A shell reads back from the text, in order, the kept arguments with write-batch forms rewritten, less the empty ones, for every argument vector |
| `ReplayScript.OptionsLossless` | crates/batch/src/script.rs:273-358 | Nothing is lost if and only if no kept argument is empty |
| `ReplayScript.EmptyArgumentLost` | crates/batch/src/script.rs:341-358 | The vector `rsync ""`: the empty word is kept by the writer and not seen by the shell |
| `ReplayScript.NothingForbiddenSurvives` | crates/batch/src/script.rs:292-332 | No emitted word is an option the writer recognises as filter, include, exclude, files-from, `-f` or a write-batch form |
| `ReplayScript.AttachedRuleSurvives` | crates/batch/src/script.rs:312-316 | The attached form `-fRULE` is not recognised, for any rule, and passes through |
| `ReplayScript.SelectOptionsWithArgs` | crates/batch/src/script.rs:195-230 | The other writer's loop, with its own treatment of a separate batch name |
| `ReplayScript.WriteOptionsWithArgs` | crates/batch/src/script.rs:195-230 | The other writer as a whole: classification in its own order, selection and text |
| `ReplayTexts.ScriptWordsWithArgs` | crates/batch/src/script.rs:195-230 | What the shell reads from the second writer, from the literal option texts, and no forbidden option among it |
| `ReplayTexts.ScriptTextWithArgs` | crates/batch/src/script.rs:195-230 | The second writer's text, character by character |
| `ReplayScript.WritersAgree` | crates/batch/src/script.rs:195-332 | For every argument vector the texts that the two writers are proved to produce, without operands, are equal if and only if no kept argument is a bare write-batch option |
| `ReplayScript.WritersDiffer` | crates/batch/src/script.rs:195-332 | On `rsync --write-batch b` one writer keeps the name separate and the other attaches it |
| `Heredoc.WriteFilterHeredoc` | crates/batch/src/script.rs:130-150 | The text `<<'#E#'` with its newline, the body, and `#E#`, in newline and in NUL mode; with the closing newline that is the opening line and the text the reader is given |
| `Heredoc.DocumentReadBack` | crates/batch/src/script.rs:130-150 | A here-document always closes, and gives back the text if and only if no line is the delimiter |
| `Heredoc.RulesReadBack` | crates/batch/src/script.rs:142-147 | In newline mode the rules, with a final newline added exactly when they lack one, come back if and only if no line is the delimiter |
| `Heredoc.RulesCutShort` | crates/batch/src/script.rs:142-147 | Rules that begin with a line `#E#` are read as none, whatever follows |
| `Heredoc.NulDocumentReadBack` | crates/batch/src/script.rs:133-141 | In NUL mode the body can never be mistaken for the delimiter, whatever the rules |
| `Heredoc.NulFinalNewline` | crates/batch/src/script.rs:133-141 | In NUL mode a final newline makes no difference |
| `Heredoc.NulListReadBack` | crates/batch/src/script.rs:133-141 | A list of newline-free rules is recovered if and only if it is non-empty and NUL-free |
| `Heredoc.NulEmptyList` | crates/batch/src/script.rs:133-141 | The empty list comes back as one empty rule |
| `Heredoc.NulRuleSplits` | crates/batch/src/script.rs:133-141 | A rule with a NUL inside comes back as two rules |
| `BatchWriter.Writer.constructor` | crates/batch/src/writer.rs:31-50 | An open, empty file without header |
| `BatchWriter.Writer.PutHeader` | crates/batch/src/writer.rs:61-86 | One step of the protocol: refuses a second header, otherwise appends it and records the flags |
| `BatchWriter.Writer.Put` | crates/batch/src/writer.rs:93-111 | One step of the protocol: refuses before the header, otherwise appends |
| `BatchWriter.Writer.Finalize` | crates/batch/src/writer.rs:195-201 | Closes without changing the bytes |
| `BatchWriter.FileIsHeaderThenWrites` | crates/batch/src/writer.rs:61-201 | After any run the file is empty, or the first header, under the configuration of that moment, followed by the accepted writes in order, and the recorded flags are the header's |
| `BatchWriter.RefusedExactly` | crates/batch/src/writer.rs:61-176 | After any run, a header is refused as a second one exactly when there was one, a write as early exactly when there was none, and nothing else is refused |
| `SimdOverride.LevelRoundTrip` | crates/checksums/src/cpu_features.rs:129-151 | Levels survive the byte encoding |
| `SimdOverride.StepKeepsInv` | crates/checksums/src/cpu_features.rs:164-188 | Every atomic step of every thread keeps the agreement of cell, log and threads in flight |
| `SimdOverride.OneShot` | crates/checksums/src/cpu_features.rs:164-177 | Over every interleaving of any number of threads the cell is written at most once; a call returns Ok exactly when it asked for the installed level, and otherwise carries that level |
| `SimdOverride.LogIsHistory` | crates/checksums/src/cpu_features.rs:164-188 | For every schedule the whole log follows from the threads' own steps: the first to exchange installs the level it asked for, every call answers its own request against it, every read reports it |
| `SimdOverride.ReadsAgree` | crates/checksums/src/cpu_features.rs:181-188 | A read before the write sees `Auto`, every later read sees the installed level |

## Left out

- `ReorderBuffers.ReorderBuffer.Insert`, `ReorderBuffers.ReorderBuffer.NextInOrder`, `ReorderBuffers.ReorderBuffer.ForceInsert`, `ReorderBuffers.ReorderBuffer.Take`: the passthrough mode (a plain queue) and, for `Insert`, the resizing of an adaptive buffer before and after it. The applier's slots use neither.
- `ReorderBuffers.ReorderBuffer.Grow`: the rule without an adaptive policy; with one, a single extra slot is enough.
- Reorder buffer: metrics, histograms, counters and stall timers.
- `ParallelApply.FileSlot.Ingest`, `ParallelApply.FileSlot.WriteAll`: failures of the writer in the middle of a drained run, and overflow of the 64-bit byte counter.
- `ParallelApply.ApplyAllSplits`: checksum mismatch and writer failures of a chunk.
- Parallel applier: the concurrent map, locks, condition variables and worker pool, and the digest check of a chunk. Records are applied one at a time in an arbitrary order, on values; only a single file's slot is modelled in place.
- Widths of sequence numbers, byte counters and lengths in memory: unbounded, except where the source casts or checks (16-bit ranks, the container's fields, the limiter's sleep, 128-bit sizes).
- `RateLimiter.AsyncRateLimiter.ReplenishNow`: an idle time so long that rate times nanoseconds leaves 128 bits.
- `ReplayScript.NothingForbiddenSurvives`: speaks of the spellings the writer recognises; `AttachedRuleSurvives` names one it does not.
- The clock and the asynchronous runtime: idle time before a call and lateness of a wake-up are chosen by the environment.
- SHA-256: a function parameter; the results hold for every digest function.
- The pair-keyed map inside `renumber` is a map of maps.
- `BandwidthArg`: the `RATE:BURST` form and the limit components of the bandwidth crate. Text is a sequence of characters; every non-ASCII character is refused, as its bytes are.
- `ReplayScript`: each writer's loop is modelled as choosing the options and then printing them. The program name, the `${1:-dest}` placeholder and finding the destination are not part of this model.
- `ShellWords`: expansions and every other shell feature; the reader refuses unquoted special characters instead. Which characters beyond ASCII are alphanumeric is a parameter.
- `BatchWriter`: I/O faults, buffering and permissions. The encodings of header, statistics and file entries are parameters, so the three data-writing calls are one `Put`.
- `SimdOverride`: command-line spellings, the table of features a level allows, and the test-only resets.
- AppleDouble: accessors for particular entry kinds, and everything that touches a file system.
- The transfer protocol, file lists, filters, checksums and the rest of the repository.
