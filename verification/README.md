# uvperf transfer pipeline, modelled in Dafny

uvperf is a USB throughput benchmark. It opens one pipe for reading and/or one
for writing. Each pipe gets a worker thread that runs transfers in a loop: one at
a time (synchronous mode), or through a ring of up to ten overlapped transfer
handles (asynchronous mode). A reporter thread prints running throughput. Data
read from the device can be checked against a reference byte pattern.

This project models that pipeline with the USB driver abstracted away. Each driver
call becomes an input outcome: a submission's status and last error, a wait
result, an overlapped result with its byte count and isochronous packets, an
allocation's success. Each operation is then a deterministic function of its
inputs.

The single-file tool `uvperf.c` is the canonical revision. Three others are
modelled as variants where they differ:
- `src/transfer_p.c` / `src/transfer.c`, the split Windows tool;
- `src/param.c`;
- `linux/src/transfer.cc`, the libusb port.

| file | module | what it models |
|---|---|---|
| `wrappers.dfy` | `Wrappers` | `Option` and `Result` |
| `usb.dfy` | `Usb` | byte and integer widths, C conversions, endpoint descriptor fields, Windows error codes |
| `verify_codec.dfy` | `VerifyCodec` | `CreateVerifyBuffer` (both patterns); `VerifyData`, the chunked, resynchronising stream check |
| `loop_prefill.dfy` | `LoopPrefill` | the loop-test pre-fill of the backing store with self-describing frames |
| `slot_ring.dfy` | `SlotRing` | `TransferAsync`'s slot ring, `IsoTransferCb`, the drain passes at the end of `TransferThread` |
| `worker.dfy` | `Worker` | `TransferThread`'s failure policy and statistics update, Windows and libusb |
| `reporter.dfy` | `Reporter` | `GetAverageBytesSec`, `GetCurrentBytesSec`, `ShowRunningStatus` |
| `session.dfy` | `Session` | `CreateTransferParam`: pipe lookup, length resolution, isochronous checks, slot layout, pre-fill; the libusb `createTransferParam` |
| `params.dfy` | `Params` | `SetParamsDefaults` and the `GetDeviceParam` vendor/product ID matcher |

Representation choices:
- Timestamps are nanosecond counts. The value 0 means "unset", as the source
  tests `tv_nsec == 0`, and clock readings are positive.
- Throughput is kept as the exact pair it is computed from (bytes, whole
  seconds), or as a marker that the divisor was zero.
- `VerifyData` returns 0 and only logs in the source. The model also returns the
  indices of the chunks that failed to match and, in detail mode, every
  differing byte.

## Model

| member | source | states |
|---|---|---|
| `Usb.EndpointType` | uvperf.c:281 | each of the four transfer types corresponds to exactly one value of bits 1..0 of the attributes byte |
| `Usb.DirectionBits` | uvperf.c:273-275 | `address & 0x80` is 0 or 0x80, and 0x80 exactly for an IN endpoint |
| `Usb.NumberBits` | uvperf.c:1342 | `address & 0x0F` is the address modulo 16 |
| `Usb.Int32Of` | uvperf.c:769 | storing a 32-bit unsigned count in an `int` keeps it modulo 2^32; the result is negative exactly for counts of 2^31 and above |
| `Usb.U32Of` | uvperf.c:763 | storing an `int` in an unsigned 32-bit variable keeps it modulo 2^32 |
| `Usb.SignedRoundTrip` | uvperf.c:763-769 | converting an `int` to unsigned and back restores it |
| `VerifyCodec.CreateVerifyBuffer` | uvperf.c:1289-1307 | status is -1 exactly when allocation fails, else 0; on success the size is the request, byte 0 is 0, byte i is ((i-1) mod 255)+1, and no later byte is 0 |
| `VerifyCodec.LinuxCreateVerifyBuffer` | linux/src/transfer.cc:103-119 | status 0; the size is the request; byte i is i mod 256 |
| `VerifyCodec.PatternsDivergeAt256` | linux/src/transfer.cc:114-116 | the two patterns agree below index 256 and differ at 256, where the libusb one repeats 0; the Windows pattern has no 0 after index 0 |
| `VerifyCodec.PatternGainsOnePerWrap` | uvperf.c:1289-1307 | byte i of the Windows pattern is i plus the number of completed 255-byte rounds, mod 256, so it gains one on i mod 256 at every wrap (bytes 256, 511, 512 are 1, 1, 2) |
| `VerifyCodec.Chunks` | uvperf.c:548-551 | every chunk the walk takes holds at least 2 bytes and at most the pattern length |
| `VerifyCodec.Unchecked` | uvperf.c:548 | the walk stops with at most one byte left over |
| `VerifyCodec.ChunksCover` | uvperf.c:548-590 | the chunks followed by the leftover are exactly the data: nothing skipped, nothing repeated |
| `VerifyCodec.TrailingByteUnchecked` | uvperf.c:548-590 | one byte is left unchecked exactly when the length is at least 1 and length-1 is a multiple of the chunk length; otherwise none is |
| `VerifyCodec.BadChunksMembers` | uvperf.c:567-571 | the reference list of failed chunks holds exactly the failing chunk indices, strictly increasing |
| `VerifyCodec.VerifyData` | uvperf.c:537-592 | returns 0 whatever the data; the failed chunks are exactly those whose bytes differ from the pattern prefix keyed by the rolling-key rule; in detail mode exactly the differing bytes of failed chunks are reported; only byte 1 of the verify buffer changes |
| `VerifyCodec.VerifyChunk` | uvperf.c:553-583 | one pass computes the rolling key, stores it in byte 1 of the verify buffer, and agrees with the reference verdict for that chunk |
| `VerifyCodec.ChunkDifferences` | uvperf.c:575-582 | the detail loop lists exactly the offsets where received and expected bytes differ |
| `VerifyCodec.FrameIsKeyedPattern` | uvperf.c:1453-1479 | a pre-fill frame is the reference pattern with byte 1 replaced by the packet index mod 256 |
| `VerifyCodec.ChunksOfStream` | uvperf.c:548-590 | walking consecutive frames with the frame length as chunk length cuts them back into those frames |
| `VerifyCodec.FramesFrom` | uvperf.c:553-571 | after a re-seed, consecutive frames all match, each checked with its own packet index as key |
| `VerifyCodec.ConsecutiveFramesMatch` | uvperf.c:1450-1455 | consecutive frames, checked with a verify buffer of the frame length, produce no failed chunk |
| `VerifyCodec.SingleCorruptionReported` | uvperf.c:553-571 | when only chunk j of a frame run is corrupted, chunk j is the only failed chunk: the next chunk re-seeds and matches |
| `LoopPrefill.PacketsFit` | uvperf.c:1463-1464 | the packets written fit in the bytes the read lengths of all buffers occupy |
| `LoopPrefill.PrefillLoopBuffer` | uvperf.c:1459-1481 | the first packetCount*MPS bytes become the frames 0, 1, ..., packetCount-1 and every later byte is unchanged |
| `LoopPrefill.WritePacket` | uvperf.c:1466-1479 | the inner loop writes exactly the frame for the packet index at its offset and leaves every other byte alone |
| `LoopPrefill.PrefilledPacketsVerify` | uvperf.c:1450-1452 | echoed pre-filled packets pass VerifyData with a packet-sized verify buffer |
| `LoopPrefill.PrefillPacket` | uvperf.c:1465-1476 | packet p occupies bytes [p*MPS, (p+1)*MPS) and equals the reference pattern of MPS bytes keyed with p & 0xFF |
| `SlotRing.IsoTransferCb` | uvperf.c:614-633 | every packet adds one to the total; at most one of good and bad grows; the length never shrinks |
| `SlotRing.EnumPackets` | uvperf.c:751-752 | enumerating packets keeps good + bad <= total |
| `SlotRing.EnumPacketsCounts` | src/transfer_p.c:113-132 | enumeration yields the packet count, the good and bad counts and the good packets' summed length, as defined independently of the callback |
| `SlotRing.IncRoll` | uvperf.c:277-279 | INC_ROLL advances an index below the rollover value to (index+1) mod rollover |
| `SlotRing.InitialRing` | uvperf.c:1375 | a fresh bulk or interrupt session's handles are all unused and have no event |
| `SlotRing.IsoInitialRing` | uvperf.c:1408-1415 | a fresh isochronous session's first buffer-count handles have an event and are not in use, handle i's data starts at i buffer lengths as in the session's slot layout, and the other handles stay zero |
| `SlotRing.IsoInitialRingPlaced` | uvperf.c:1408-1415 | that ring satisfies the ring invariant, every used handle already has its event, and the data sits at a stride of one buffer length |
| `SlotRing.InitialRingValid` | uvperf.c:1375 | the zeroed ring satisfies the ring invariant for every buffer count from 1 to 10 |
| `SlotRing.SubmitCode` | uvperf.c:689-694 | a submission counts as accepted exactly when it is pending or reports no error |
| `SlotRing.SubmitOne` | src/transfer_p.c:143-211 | an accepted submit marks the next slot in use, grows the window by one and advances the next index with wrap; a rejected one leaves the slot unused and both counters alone, and returns the negated code; other slots are untouched |
| `SlotRing.SubmitAppends` | src/transfer_p.c:205-211 | a submission keeps the ring invariant and, when accepted, appends its slot to the queue of outstanding transfers |
| `SlotRing.SubmitLoop` | uvperf.c:643-713 | submitting stops either with the window full or at the first rejection with a negative code; the existing queue stays its prefix |
| `SlotRing.FailureCode` | uvperf.c:725-746 | a failed wait or result returns the negated last error, except in src/transfer.c without a user abort, which returns it un-negated |
| `SlotRing.Reap` | uvperf.c:715-784 | the reap always acts on the wait-index slot; a completion with a non-negative count frees it, shrinks the window by one and advances the wait index; a failure or negative count changes neither counter nor the in-use flag; a completion returns the driver's byte count as a signed int on a bulk or interrupt pipe, the good packets' total length on an isochronous read (whose slot and session counters grow by the total, good and bad packet counts and good length of its packets), and the slot's request length on an isochronous write (whose session counts grow by the packet count) |
| `SlotRing.ReapRemovesOldest` | src/transfer_p.c:214-281 | reaping keeps the ring invariant; a completed reap removes exactly the head of the queue, any other outcome leaves the queue unchanged |
| `SlotRing.SubmitPlaces` | uvperf.c:652-660 | a slot's data offset is fixed when its event is first created, at index times the configured stride |
| `SlotRing.StridedSlotsDisjoint` | uvperf.c:654-656 | with a stride of one buffer length, two different in-use slots' regions do not overlap, and a slot's requested transfer, no longer than the stride, ends before the next slot's data begins |
| `SlotRing.ZeroStrideAliases` | uvperf.c:132 | with the stride the session actually has (0), a full window of two or more slots has slots 0 and 1 in flight on the same offset |
| `SlotRing.TransferAsync` | uvperf.c:635-788 | a call keeps the ring invariant, and a negative return or a window that is not full always comes with a handle; a rejected submission returns its code with the submitted state; a completed reap returns the driver's count, or on an isochronous read the good packets' length, and adds the packets' counts to the session's isochronous totals |
| `SlotRing.TransferAsyncSized` | uvperf.c:662-766 | every in-use slot asks for the direction's request length, and a completed isochronous write returns the write length |
| `SlotRing.TransferAsyncPlaces` | uvperf.c:652-660 | no call ever moves a slot's data, either at the submission stride or, in an isochronous session whose handles all have events, at the set-up's stride; no call closes an event |
| `SlotRing.ReapIsFifo` | uvperf.c:715-722 | a completed call reports the slot at the old wait index, and the queue after it is the queue after submission minus its head, whatever order the hardware finished in |
| `SlotRing.SplitWaitFailureLooksLikeData` | src/transfer.c:167-187 | in src/transfer.c a failed wait without user abort returns the positive last error while nothing is reaped |
| `SlotRing.CanonicalWaitFailure` | uvperf.c:725-734 | in the canonical revision a failed wait returns a negative code for any nonzero last error and reaps nothing |
| `SlotRing.DrainSlots` | src/transfer_p.c:728-763 | after both drain passes every slot below the buffer count has no event and is not in use, later slots are untouched, and isRunning is false; pass two waits with the full timeout on exactly the slots that were in use with an event and whose abort failed without a user abort |
| `Worker.TimeoutBranchDead` | src/transfer.c:350-362 | under `ret < 0` the comparison with the positive timeout codes never holds, not even for a negated timeout code |
| `Worker.NegatedTimeoutCodes` | src/transfer.c:354-355 | the corrected test accepts exactly -121, -995 and -1223 |
| `Worker.UpdateStatistics` | src/transfer.c:392-412 | an update stamps the last tick, starts the clock when it was unset, keeps a started clock, and never touches the error or timeout counters |
| `Worker.UpdateAccumulates` | src/transfer.c:394-411 | the first update zeroes the byte and packet counts and discards ret; later ones add ret to both byte counters and one packet, restarting a cleared window at the last tick |
| `Worker.FailurePolicy` | src/transfer.c:350-390 | user abort stops untouched; a timeout or error bumps its two counters and stops once the running one exceeds retry, else is absorbed as 0 bytes (an error resets the pipe, also when it then stops); success clears both running counts and is verified on an IN pipe when verify is on and the test is not a loop test |
| `Worker.WorkerStep` | src/transfer.c:350-390 | with the timeout test as written, every non-aborted failure is an error: it stops exactly when the running error count exceeds retry, and never touches timeout counters |
| `Worker.WorkerStepCorrected` | src/transfer.c:354-362 | with the evidently intended test, a negated timeout code counts a timeout and leaves the error counters alone; every other code is classified as written |
| `Worker.TimeoutCountedAsError` | src/transfer.c:354-373 | a transfer returning -ERROR_SEM_TIMEOUT counts as an error as written and as a timeout when corrected |
| `Worker.RunWorker` | src/transfer.c:327-415 | the loop consumes ticks until one stops it, and never changes the total timeout count |
| `Worker.StartedRunTotals` | src/transfer.c:402-411 | once the clock runs, an unstopped run adds the absorbed bytes to the total and one packet per iteration, absorbed failures included |
| `Worker.FirstUpdateDiscarded` | src/transfer.c:394-401 | from a fresh session the first iteration's bytes are lost: n iterations count n-1 packets and the bytes of iterations 2..n |
| `Worker.SuccessesNeverStop` | src/transfer.c:377-379 | a run of non-negative codes never stops the loop |
| `Worker.UniformRun` | src/transfer.c:394-411 | n equal successful transfers of len bytes report (n-1)*len bytes and n-1 packets |
| `Worker.ThousandTransfersScenario` | src/transfer.c:394-411 | 1000 successful 512-byte transfers report 999*512 bytes and 999 packets |
| `Worker.StopNeedsConsecutiveFailures` | src/transfer.c:363-379 | an error stop needs retry+1 consecutive failures (counting those before the run), and every one of the last retry+1 consumed ticks failed |
| `Worker.ConsecutiveFailuresStop` | src/transfer.c:363-376 | retry+1 consecutive non-aborted failures stop the loop for errors, at the last of them |
| `Worker.LinuxWorkerStep` | linux/src/transfer.cc:226-266 | user abort stops untouched; errors stop once the running count exceeds the fixed limit 5; success clears it; the initialising update sets packets to 1; verifyData runs twice for a positive count on an IN pipe |
| `Worker.LinuxStatistics` | linux/src/transfer.cc:250-266 | the libusb update stamps the last tick and keeps the error counters |
| `Worker.LinuxInitialisesOnce` | linux/src/transfer.cc:250-256 | the initialising branch runs at most once per run, and never once packets is positive |
| `Reporter.ElapsedSeconds` | src/transfer.c:661-663 | the elapsed whole seconds are the truncated nanosecond difference |
| `Reporter.AverageBytesSec` | src/transfer.c:652-676 | a nonzero average needs a set start tick strictly before the last tick, and is the total bytes over at least one whole elapsed second |
| `Reporter.BytesOnlyAverage` | src/transfer_p.c:482-501 | the src/transfer_p.c average is 0 exactly for an unset or non-advancing clock or zero bytes, and divides by zero exactly when bytes arrived within a second after a set start tick |
| `Reporter.GuardedAverage` | src/transfer.c:665-671 | the guarded average never divides by zero, and is 0 exactly when the clock is unset, under a second has passed, or no bytes were counted |
| `Reporter.UnguardedAverageDividesByZero` | uvperf.c:1492-1508 | the canonical average divides by zero exactly when the last tick is within a second after a set start tick |
| `Reporter.CurrentBytesSec` | src/transfer.c:677-695 | the instantaneous rate is 0 exactly for a cleared or non-advancing window, divides by zero exactly within its first second, and otherwise is the window's bytes over at least one second |
| `Reporter.ShowRunningStatus` | src/transfer.c:224-300 | a synchronizing write worker suppresses the summary and leaves both workers alone; otherwise each present worker has its instantaneous window cleared, and the summary holds each present worker's average and current rate (0 for an absent one), the number of present workers whose window holds no bytes, and the sum of their packet counts |
| `Reporter.ReportRestartsWindow` | src/transfer.c:278 | after a report, the next update opens a window at the previous last tick that holds only its own bytes, while the session totals keep growing |
| `Reporter.WindowAccumulates` | src/transfer.c:403-411 | between reports, the window keeps its start and accumulates each update's bytes |
| `Session.FindPipe` | uvperf.c:1341-1360 | the lookup returns the first matching entry below the scan limit, and none exactly when no entry there matches |
| `Session.InclusiveScanFindsPhantom` | src/transfer.c:507 | with the `<=` scan, asking for any OUT pipe on an interface with only IN pipes finds the zeroed entry past the end; the `<` scan finds nothing |
| `Session.ScansAgreeOnRealPipes` | src/transfer.c:507 | whenever the `<` scan finds a pipe, the `<=` scan finds the same one |
| `Session.EffectiveLength` | uvperf.c:1367-1368 | the resolved buffer length is one of the three lengths and at least each of them |
| `Session.IsoGeometryIsMultipleOfEightIntervals` | uvperf.c:1394-1406 | the isochronous checks accept exactly the buffer lengths that are a positive multiple of eight intervals |
| `Session.SlotOffsets` | uvperf.c:1413-1415 | isochronous slot i's data starts i buffer lengths into the backing store |
| `Session.SlotRegionsDisjoint` | uvperf.c:1408-1415 | isochronous slots' regions lie inside the backing store and do not overlap |
| `Session.FirstFailure` | uvperf.c:1408-1437 | the first isochronous handle whose set-up fails, or none exactly when all succeed |
| `Session.CreateTransferParam` | uvperf.c:1333-1490 | each error is tied to its cause (the first failing handle for a set-up failure), and the call succeeds exactly when the pipe is found, allocation succeeds, an isochronous pipe's interval size, geometry and every handle's set-up succeed, the thread starts and no pre-fill divides by zero; it fails exactly when the pipe is missing, allocation fails, the isochronous interval size is 0 or the geometry check fails, a handle set-up fails, the thread fails, or a loop OUT pipe has packet size 0; only the buffer length (once the pipe is found) and the transfer mode (forced to async for an isochronous pipe once allocation succeeds) of the parameters change; a created session has the resolved length times the buffer count of zeroed bytes, pre-filled with frames exactly for a loop test on an OUT pipe |
| `Session.LinuxCreateTransferParam` | linux/src/transfer.cc:125-155 | packet size 0 does nothing; otherwise the length becomes length times count; isochronous forces async and appends one handle per buffer, stopping without a thread at the first failed allocation |
| `Session.AppendHandles` | linux/src/transfer.cc:142-151 | the handle loop appends handles sized to the new length up to and including the first failed allocation, which stays appended without data |
| `Params.SetParamsDefaults` | uvperf.c:822-842 | the defaults: IDs 0x1004/0xA000, or 0/0 in src/param.c; read and write lengths equal the buffer length; no interface or alternate setting; sync mode; verify on; retry and the slot stride stay 0 |
| `Params.DefaultsStopOnFirstError` | src/param.c:58-79 | with the default retry of 0, the first failure that is not a user abort stops the worker |
| `Params.DefaultsResolveLength` | src/param.c:71-76 | the defaults resolve to one 1024-byte buffer |
| `Params.LowerChar` | uvperf.c:933 | lower-casing maps exactly the ASCII capitals to their small letters |
| `Params.Lower` | uvperf.c:933 | the lowered ID has the same length, character by character |
| `Params.FindFrom` | uvperf.c:935 | strstr: the first position at or after the start where the pattern occurs, or none when it occurs nowhere |
| `Params.ScanHex4` | uvperf.c:936 | `%04x` yields a value below 0x10000, and fails exactly when the text does not start with a hex digit |
| `Params.TagValue` | uvperf.c:935-938 | the value after the first occurrence of a tag, or -1 exactly when the tag is missing or no hex digit follows |
| `Params.GetDeviceParam` | uvperf.c:916-949 | returns ERROR_SUCCESS and enables an entry exactly when both IDs read from its device ID equal the configured ones |
| `Params.MatchIgnoresCase` | uvperf.c:933-938 | an upper-cased device ID reads the same IDs as the original |
| `Params.MissingTagNeverMatches` | uvperf.c:922-945 | a device ID with no `vid_` tag never matches a non-negative configured vendor ID |
| `Params.ScanHex4Formatted` | uvperf.c:936 | four formatted hex digits scan back to their value, whatever follows |
| `Params.FormattedIdRoundTrip` | uvperf.c:933-938 | the IDs read from `USB\VID_xxxx&PID_yyyy...` are the ones written into it |
| `Params.FormattedIdEnabledIff` | uvperf.c:942-945 | a device with such an ID, in any case, is enabled exactly when both IDs are the configured ones |

## Left out

- Driver and OS calls (pipe reads and writes, isochronous handles, events,
  `WaitForSingleObject`, `libusb_*`) are input outcomes. Event and handle
  semantics are not modelled.
- Threads, the critical section and `WaitForTestTransfer` are left out. The
  worker and reporter interaction is sequential: a report is a function of the
  workers' statistics.
- `AppendLoopBuffer` (a list that is only ever appended to) and the
  `VerifyLoopData` stub are left out: neither affects any counter or return code.
- `TransferSync`, `ResetPipe` and `AbortPipe` are not modelled as operations.
  The worker takes a synchronous transfer's return code as input. A reset is a
  flag in the step result. An abort's result is an input to `SlotRing.DrainSlots`.
- Floating-point throughput and the Mbps printing are left out. Only the
  divisor conditions are kept, over integer nanosecond timestamps.
- `Reporter.ElapsedSeconds` works on one nanosecond count per timestamp, not the
  source's separate seconds and nanoseconds fields. Only the truncation to
  whole seconds is kept.
- `Reporter.ShowRunningStatus`: its local error counter can reach at most 2, so
  its `> 5` exit is dead and not modelled. The isochronous packet totals it
  prints are not modelled.
- Device, interface and endpoint discovery, `ParseArgs`, the `Show*` printers,
  logging, file I/O and the one-off scripts are left out. They are thin
  enumeration, CLI or output code.
- The libusb `transferAsync` and `transferSync` are left out. The async one
  indexes its handle vector one past the end.
- `Params.ScanHex4`: only the hex-digit run of `%04x` is modelled. `sscanf`'s
  skipping of leading white space, its optional `0x` prefix and its sign are
  not, because device IDs never contain them after a tag.
- `Params.GetDeviceParam`: the `strcpy_s` copy into a `MAX_PATH - 1` buffer is
  not modelled. For a device ID that does not fit it does not truncate: it
  empties the destination and calls the invalid-parameter handler, which ends
  the process by default. The model reads the whole ID. The `mi_` interface number it also parses is
  unused and left out.
- `Usb.Int32Of` and the `ErrorCode` type: error codes are assumed below 2^31.
  In that range `-labs(code)` and `-(int)code` agree; the Windows codes the
  benchmark meets are all small.
- `Worker.LinuxWorkerStep`: `verifyCalls` counts the `verifyData` call sites
  reached. Both pass `handle->data`, and in synchronous mode the handle stays
  null, so on an IN pipe with a verify buffer a successful transfer dereferences
  a null handle. The model has no transfer-mode input and does not model that.
- Timestamps: the source treats a timestamp as unset when its `tv_nsec` is 0, so
  a real clock reading that falls exactly on a whole second also reads as unset.
  The model's positive nanosecond counts cannot express that reading.
- `Session.CreateTransferParam`: lengths and the buffer count are natural
  numbers. The source parses `-b`, `-l` and `-w` with `strtol`, so negative
  values can reach it; the model does not cover them.
- `Session.CreateTransferParam`: the backing-store size is an exact product. The
  source computes `allocSize` as a 32-bit `int` product, which can overflow for
  large lengths and counts; that overflow is not modelled.
- `SlotRing.Reap`: the session's isochronous packet and length counters are
  unbounded integers. The source's 32-bit `UINT` counters wrap around, and that
  wrap-around is not modelled.
- `Worker.UpdateStatistics`: the byte and packet counters are unbounded
  integers. The source's 32-bit and 64-bit wrap-around after very long runs is
  not modelled.
- `VerifyCodec.VerifyData` requires a verify buffer of at least 2 bytes. With 0
  bytes the source's loop never advances; with 1 it writes the key past the end
  of the buffer.
- `LoopPrefill.PrefillLoopBuffer` requires a positive packet size. The source
  divides by it; `Session.CreateTransferParam` reports that case as the error
  `PrefillDivideByZero` instead.
- `SlotRing.TransferAsync` requires a buffer count from 1 to 10, which nothing
  in the source checks. Larger counts index past the fixed handle array.
- `SlotRing.IsoInitialRing` requires a buffer count of at most 10 for the same
  reason: the isochronous set-up loop writes one handle per buffer into the
  10-entry handle array.
- `Session.CreateTransferParam` accepts any buffer count. With more than 10
  buffers the source's isochronous set-up writes past the handle array; the
  model only lays out the slot offsets and does not model that overflow.
- `Session.CreateTransferParam` requires fewer than 32 endpoints, the size of the
  pipe table.
- `VerifyCodec.LinuxCreateVerifyBuffer` always returns 0. The libusb port's
  allocation throws on failure instead of returning null, so its -1
  branch cannot be reached.
- The source's negative transfer lengths (a `DataMaxLength` below 0) are kept as
  signed `int` values, but no property is stated about them.

## Behaviour worth knowing

- The first statistics update of a run discards its bytes and leaves the packet
  count at 0. So 1000 successful 512-byte transfers report 999*512 bytes over
  999 packets (`Worker.ThousandTransfersScenario`), not 512000 bytes over 1000.
- The Windows verify pattern uses a counter that skips 0 when it wraps, so byte i
  is ((i-1) mod 255)+1, not i mod 256. It gains one on i mod 256 at each wrap:
  bytes 256, 511 and 512 are 1, 1 and 2 where i mod 256 gives 0, 255 and 0
  (`VerifyCodec.PatternGainsOnePerWrap`). The libusb code uses plain i mod 256 and does repeat 0
  (`VerifyCodec.PatternsDivergeAt256`). The model follows each revision's code.

## Findings

| source | as written | input that shows it | evidently intended | confidence | as-written member | corrected member |
|---|---|---|---|---|---|---|
| src/transfer.c:167-187 | a failed wait or overlapped result without user abort returns `GetLastError()` un-negated | a wait that times out with last error 121 returns +121 while nothing was reaped | return the negated code, as the other revisions do | high, not executed | `SlotRing.SplitWaitFailureLooksLikeData` | `SlotRing.CanonicalWaitFailure` |
| src/transfer.c:350-362 | the timeout branch compares a negative `ret` with the positive codes 121, 995 and 1223 | a transfer returning -121 is counted as an error and resets the pipe | compare `-ret` with the timeout codes | high, not executed | `Worker.TimeoutBranchDead` | `Worker.WorkerStepCorrected` |
| src/transfer.c:507 | the pipe scan runs to `<= bNumEndpoints` | endpoint ID 0 (any OUT pipe) on an interface with only IN pipes finds the zeroed entry past the end: address 0, packet size 0 | scan to `< bNumEndpoints`, as the other revisions do | high, not executed | `Session.InclusiveScanFindsPhantom` | `Session.ScansAgreeOnRealPipes` |
| uvperf.c:1492-1508 | `GetAverageBytesSec` divides by the elapsed whole seconds without checking them for 0 | start tick 1 ns, last tick 2 ns: 0 whole seconds, so the first second's reports divide by zero | report 0 when fewer than one second has passed, as src/transfer.c does | high, not executed | `Reporter.UnguardedAverageDividesByZero` | `Reporter.GuardedAverage` |
| uvperf.c:654-656 | an async bulk or interrupt slot's data address is `Buffer + index * allocBufferSize`, and `allocBufferSize` is never assigned, so it stays 0 | buffer count 2 in async mode on a bulk pipe: slots 0 and 1 are both in flight on offset 0 | a stride of one buffer length, as the isochronous set-up uses | medium, not executed | `SlotRing.ZeroStrideAliases` | `SlotRing.StridedSlotsDisjoint` |
