# Infuse-IoT SDK: verified models of its stateful cores

This project models the parts of the Infuse-IoT SDK whose behaviour is hardest to see from the code, and proves what
they promise. `dafny verify dfyconfig.toml` checks everything.

Each component has a specification in terms of values (datatypes, functions) with the theorems about it, and, where the
C code works by updating state, a class whose methods follow the C functions loop by loop and are proved equal to the
specification.

| component | specification and theorems | state-changing code |
|---|---|---|
| Data logger: circular block log over erase-before-write storage | `DataLogger`, `DataLoggerBoot`, `DataLoggerRuns`, `DataLoggerFaults` | `DataLoggerDevice`, `RamBuffer` |
| Tagged Data Format writer, parser and difference coding | `TdfDiff`, `TdfWire`, `Tdf`, `TdfRoundTrip` | `TdfBuffer`, methods of `TdfDiff` |
| RPC bulk transfer: flow control and chunking | `RpcFlow`, `RpcChunks` | `RpcEndpoints`, methods of `RpcChunks` |
| Binary patch interpreter | `Cpatch`, `CpatchDisassembly` | `CpatchRunner` |
| UBX stream framing | `Ubx` | `UbxModem` |
| Task schedules and task runner | `TaskSchedule`, `TaskRunner`, `TaskRunnerRuns`, `TaskRunnerTiming` | `TaskRunnerDevice` |
| Timed application states | `AppStates` | `AppStatesDevice` |
| Running statistics, resampling, integer square roots | `Statistics`, `Resample`, `SquareRoot` | `Statistics.Accumulator`, `ResampleDevice`, methods of `SquareRoot` |

`Arithmetic`, `Bytes` and `Options` hold what they share: division, wrap-around, little-endian numbers, missing values.

The main results, one per component:

- **Crash recovery.** Whatever was written to a blank data logger, whatever failed, and wherever the run stopped,
  initialisation recovers the exact block count and window from storage, with one exactly stated exception for a torn
  write that was never repeated; every block between the earliest and the current one is readable in every state that
  runs with such restarts reach, and reads return exactly the logical bytes (`BootRecovers`, `BootExact`,
  `RestartExact`, `AlwaysReadable`, `BlockRead`).
- **TDF round trip.** Any sequence of requests is parsed back, in order, with exact times, periods, indices and
  readings, including difference arrays (`RoundTrip`).
- **RPC flow control.** In every interleaving the window is bounded, everything arrives in order, every run ends, and it
  ends complete (`WindowBound`, `InOrder`, `StepsEnd`, `QuietMeansDone`); queued packets are exactly the aligned chunks
  of the source (`DataQueueAutoLoad`).
- **Patch programs.** The byte interpreter executes exactly the programs: every program is interpreted as its
  instructions, every successful run that stays inside the stored bytes is a program, and it is known which runs do not
  stay inside them, or inside the announced length (`InterpretsProgram`, `Disassembles`, `LeavesExact`,
  `AnnouncedExact`).
- **UBX framing.** Frames handed on do not depend on how the bytes arrive (`FifoReadRunner`, `ChunkIndependence`,
  `TwoReceivers`).
- **Task runner.** Ownership in every reachable state, an order-free account of every evaluation, nothing started
  between a reload request and the reload, lockouts and timeouts kept over whole runs (`EvaluateExact`, `StartsOnce`,
  `QuietUntilReload`, `LockoutSpacing`, `TimeoutStops`).
- **Timed states.** A state set for `n` ticks is seen by exactly the next `n` evaluations (`SeenByEvaluations`).
- **Arithmetic.** Exact online mean and variance and when they overflow, a resampled signal independent of how the input
  is split, and integer square roots (`VarianceExact`, `OverflowExact`, `SplitIndependent`, `DownsampleAll`, `Sqrt16`,
  `Sqrt32`, `Sqrt64`).

Where the code does not meet a property everywhere, the model keeps the code, gives an input that fails, and proves when
the property holds:

- Reading blocks (`subsys/data_logger/data_logger.c:468-494`): the last block number of a request is computed in 32
  bits. An accepted request is inside the window if and only if that number does not wrap (`AcceptedExact`,
  `WrappedRequestAccepted`).
- Torn writes (`subsys/data_logger/data_logger.c:607-742`): a failed write that programmed the wrap byte of its slot can
  be taken for a block (`TornAsWritten`, `TornFirstWrite`). A restart recovers both counters if and only if the slot at
  the write position is clean (`BootExact`, `RestartExact`), which a successful retry (`RetryRepairs`) and most resets
  (`ResetBlank`) make it again, and a full logger always is (`FullClean`).
- Repeated erases (`subsys/data_logger/data_logger.c:112-126`): when a write fails, or power is lost, after the erase
  that precedes it, the next attempt erases again and moves the earliest block again. A restart recovers the larger,
  true window; the two agree if and only if, since boot, no write erased a unit again that a failed write of the same
  block had erased (`WindowsAgree`, `RepeatedErase`).
- TDF space (`subsys/tdf/tdf.c:369-378`): with two-byte readings and one payload byte free, reclaiming the array header
  stores two readings where one fits. Records stay inside the buffer if and only if this case is avoided (`FitsExactly`,
  `CornerExample`).
- TDF counts and times: the six-bit count is exact if and only if there are at most 63 differences (`CountExact`), which
  a precomputed array may exceed (`CountLost`); an absolute time survives if and only if it is below 2^48
  (`AbsoluteTimeExact`).
- TDF periods: a period survives if and only if it is below 2^28 ticks (`PeriodExact`, `ReportMatches`). Larger ones are
  accepted for an index array with the precomputed flag, which is stored as a time array although its period was never
  checked (`subsys/tdf/tdf.c:164-182`, `subsys/tdf/tdf.c:265-281`; `PeriodLost`).
- RPC acknowledgements: a period above eight is never acknowledged, so a transfer completes if and only if the period is
  supported or the initial tokens suffice (`QuietMeansDone`).
- RPC acknowledgement slots (`subsys/rpc/server.c:160-171`): an acknowledgement that finds no room keeps its packets
  stored. The next packet has a slot if and only if at most eight less the period have failed in a row (`SlotExact`,
  `RoomlessSlots`).
- UBX: the byte behind a first sync byte is not looked at again, so behind noise a frame is received if and only if the
  noise ends in an even number of first sync bytes (`NoisyFrame`).
- Patches, stored bytes: a nested patch may read its final zero beyond the end of the stored bytes, where the length
  keeps an undefined value (`subsys/cpatch/patch.c:118-123`). This happens if and only if the patch is a program
  followed by a nested patch without terminator and that value is zero; it never reads further (`LeavesExact`,
  `LeavesExample`).
- Patches, announced length: the checksum of a patch covers the length its header announces, but the last instruction
  may read on behind it (`ReadsOn`). A successful run reads exactly the announced bytes if and only if they are a
  program (`AnnouncedExact`).
- Lockouts are kept, fixed or scaled by the battery (`LockoutSpacing`), except by permanent schedules
  (`PermanentRestarts`). The ignore-first flag shortens the first wait only (`ExcuseExact`); battery lockouts have 16
  bits and no room for it.
- Statistics: sums are exact in unbounded arithmetic. In the widths of the code, up to 2^31 samples within an interval
  never overflow if and only if the interval is at most 3037000499 wide (`OverflowExact`, `FarApart`).
- Resampling: the 8-bit phase suffices if and only if multiplier plus divider less their greatest common divisor is at
  most 255 (`SplitIndependent`, `OverflowLoses`).
- 64-bit square root: `Sqrt64` states exactly which operands the 32-bit variables serve; all those below 2^60 are among
  them (`SmallCovered`), 2^62 - 4 is not (`NotCovered`), and none from 2^62 on is.

Storage is a sequence of blocks, the file being patched and the patch are byte sequences, channels are first-in
first-out queues without loss, and the pipe of the GNSS modem delivers any number of bytes per read. What the outside
world decides (faults, ended tasks, battery charge, uptime, loaded schedules, snapshots) is a parameter, and the
theorems hold for all its values.

## Model

| member | source | states |
|---|---|---|
| DataLogger.Stored | subsys/data_logger/data_logger.c:128-140 | a successful write leaves the wrap count of its logical block in byte 0, the type in byte 1 and the caller's bytes behind them |
| DataLogger.BlankInv | subsys/data_logger/data_logger.c:94-156 | an erased device satisfies the storage invariant with an empty history |
| DataLogger.OldestBounds | subsys/data_logger/data_logger.c:112-126 | the blocks still stored never span more than the device; an erase moves their start by exactly one erase unit |
| DataLogger.OldestStep | subsys/data_logger/data_logger.c:112-151 | completing the write that follows an erase does not move the stored window again |
| DataLogger.EraseKeeps | subsys/data_logger/data_logger.c:112-126 | erasing the next unit leaves every block of the new window as it was written |
| DataLogger.EraseClears | subsys/data_logger/data_logger.c:112-126 | the erased unit covers exactly the slots that the next blocks will use |
| DataLogger.PreparedInv | subsys/data_logger/data_logger.c:112-126 | the erase before a write keeps the invariant, also when it repeats an erase that had already happened |
| DataLogger.CommittedInv | subsys/data_logger/data_logger.c:128-151 | a completed write appends its block to the history and keeps the invariant |
| DataLogger.TornInv | subsys/data_logger/data_logger.c:136-155 | a failed write, whatever it leaves in its slot, keeps every block of the window |
| DataLoggerBoot.WrapExact | subsys/data_logger/data_logger.c:128-134 | below the logical limit the one-byte wrap count is exact and never equals an erase value |
| DataLoggerBoot.LayoutOf | subsys/data_logger/data_logger.c:607-673 | every reachable device reads as this pass, then erased slots, then the previous pass |
| DataLoggerBoot.SearchFinds | subsys/data_logger/data_logger.c:627-641 | the binary search returns the last slot of the current pass from any bracket that contains the boundary |
| DataLoggerBoot.ScanFinds | subsys/data_logger/data_logger.c:649-672 | the forward scan stops at the first slot that is not erased, within its limit of two erase units |
| DataLoggerBoot.WholePasses | subsys/data_logger/data_logger.c:720-734 | block counts at a multiple of the device size are recovered by the comparison of the first and last slot alone |
| DataLoggerBoot.SearchRecovers | subsys/data_logger/data_logger.c:607-673 | all other block counts, and the first stored block, are recovered by search and scan |
| DataLoggerBoot.BootRecovers | subsys/data_logger/data_logger.c:607-742 | on every device whose write position is clean, however it got there, initialisation recovers the exact number of blocks written and the first block still stored; a storage read error makes it fail rather than recover anything else |
| DataLoggerBoot.TornAsWritten | subsys/data_logger/data_logger.c:607-742 | a failed write that left the wrap count of its block in the slot is counted as written by the next initialisation |
| DataLoggerBoot.BootExact | subsys/data_logger/data_logger.c:607-742 | with the slots behind the write position erased, initialisation recovers both counters if and only if the slot at the write position is clean: on an empty device its first and last slot look erased alike, in the first pass no vacant slot carries wrap count one, later the slot looks erased |
| DataLoggerBoot.BlankBoot | subsys/data_logger/data_logger.c:709-742 | a device is taken for empty exactly when its first and last slot look erased alike |
| DataLoggerRuns.Step | subsys/data_logger/data_logger.c:94-156 | every write, whatever fails in it, every reset, and every restart that finds a clean device or a torn block it takes for written keeps the invariant |
| DataLoggerRuns.Run | subsys/data_logger/data_logger.c:94-156 | the invariant holds after every sequence of such events on a device that started blank |
| DataLoggerRuns.AlwaysReadable | subsys/data_logger/data_logger.c:94-156 | in every state so reached, failed writes included, each block between the earliest and the current one is stored as written and the window fits the device |
| DataLoggerRuns.RestartRecovers | subsys/data_logger/data_logger.c:607-742 | after any run that left the write position clean, failed writes included, a restart recovers the number of blocks written and the first block still stored, never a smaller window than was advertised |
| DataLoggerFaults.RestartExact | subsys/data_logger/data_logger.c:607-742 | after any run that left the slots behind the write position erased, full loggers included, a restart recovers both counters if and only if the write position is clean |
| DataLoggerFaults.RetryRepairs | subsys/data_logger/data_logger.c:94-156 | on such a device, after a torn write of whatever kind, a successful retry leaves no trace: a restart recovers one block more |
| DataLoggerFaults.TornFirstWrite | subsys/data_logger/data_logger.c:709-742 | a concrete run whose restart counts a block that was never completed |
| DataLoggerFaults.StepSettled | subsys/data_logger/data_logger.c:94-156 | every event keeps the slots behind the write position erased, except exactly a partial reset that ends right before a torn slot |
| DataLoggerFaults.TidySettled | subsys/data_logger/data_logger.c:530-575 | the slots behind the write position are erased after every run without such a reset since the device last wrapped or was erased as a whole |
| DataLoggerFaults.ResetAllSettled | subsys/data_logger/data_logger.c:530-575 | a reset of the whole device erases those slots whatever happened before |
| DataLoggerFaults.AddsClean | subsys/data_logger/data_logger.c:94-156 | whatever adds a block, a completed write or a restart that counts a torn one, leaves the device clean |
| DataLoggerFaults.FullClean | subsys/data_logger/data_logger.c:407-466 | after such a run a full logger is always clean, so a restart recovers it |
| DataLoggerFaults.AheadExact | subsys/data_logger/data_logger.c:112-126 | a unit is erased ahead of the block count exactly when a write of the current block failed after the erase |
| DataLoggerFaults.WindowsAgree | subsys/data_logger/data_logger.c:112-126 | a restart brings back the advertised window if and only if, since boot, no write erased a unit again that a failed write of the same block had erased |
| DataLoggerFaults.RepeatedErase | subsys/data_logger/data_logger.c:112-126 | a concrete run for every geometry in which the advertised window has lost a unit that a restart finds |
| DataLoggerRuns.ResetInv | subsys/data_logger/data_logger.c:530-575 | erasing all blocks, or only those that may hold data, keeps the invariant with an empty history |
| DataLoggerFaults.ResetBlank | subsys/data_logger/data_logger.c:530-575 | every slot looks blank afterwards if and only if everything was erased, the device had wrapped, the write position is not at the start of an erase unit, or its slot was not torn |
| DataLoggerRuns.AcceptedExact | subsys/data_logger/data_logger.c:468-494 | an accepted read lies inside the stored window if and only if the number of its last block does not wrap in 32 bits |
| DataLoggerRuns.WrappedRequestAccepted | subsys/data_logger/data_logger.c:468-494 | a concrete request that wraps, and is accepted on a device holding one block |
| DataLoggerDevice.WrapTest | subsys/data_logger/data_logger.c:496-504 | comparing the physical end points detects exactly the reads that cross the end of the device |
| DataLoggerDevice.DirectBlocks | subsys/data_logger/data_logger.c:512-516 | blocks of the window before the end of the device lie side by side |
| DataLoggerDevice.CrossingRead | subsys/data_logger/data_logger.c:496-522 | the two parts of a read that crosses the end of the device join up to the logical bytes |
| DataLoggerDevice.Logger.DoBlockWrite | subsys/data_logger/data_logger.c:94-156 | the write as executed, with its erase, header stamp and failures, equals the write step of the model |
| DataLoggerDevice.Logger.BlockWrite | subsys/data_logger/data_logger.c:407-466 | over-long blocks and a full logger are refused, writes during an erase are dropped, everything else is one write step |
| DataLoggerDevice.Logger.BinarySearch | subsys/data_logger/data_logger.c:620-640 | the loop computes the search of the model, and its upper bound never drops below zero |
| DataLoggerDevice.Logger.ScanForward | subsys/data_logger/data_logger.c:649-672 | the loop computes the scan of the model |
| DataLoggerDevice.Logger.CurrentBlockSearch | subsys/data_logger/data_logger.c:607-673 | both counters are set as the search of the model says, or the search fails |
| DataLoggerDevice.Logger.CommonInit | subsys/data_logger/data_logger.c:675-770 | initialisation sets exactly the counters derived from the storage |
| DataLoggerDevice.Logger.Erase | subsys/data_logger/data_logger.c:530-575 | a successful erase clears the rounded-up extent and both counters; a failed one changes nothing |
| DataLoggerDevice.Logger.BlockRead | subsys/data_logger/data_logger.c:468-528 | every accepted read returns exactly the contiguous logical bytes, in one or two parts; the other requests get the busy or no-entry error |
| RamBuffer.HeaderAt | subsys/data_logger/data_logger.c:244-255 | a stored header gives back the type and the exact extent of its block |
| RamBuffer.Buffered.Flush | subsys/data_logger/data_logger.c:233-259 | a flush replays the queued blocks in order by parsing the stored headers, and empties the buffer although the logger stamps headers into it |
| RamBuffer.Buffered.Write | subsys/data_logger/data_logger.c:261-288 | a block is queued when it fits with its header, otherwise the queue is flushed and the block passed on directly |
| RamBuffer.RunOps | subsys/data_logger/data_logger.c:233-288 | over any run of submissions and flushes, the backend calls made followed by the queue are exactly the submissions in order |
| TdfDiff.ApplyStep | subsys/tdf/diffs.c:37-58 | adding the stored differences to a reading gives the next reading in modular field arithmetic |
| TdfDiff.ReconstructExact | subsys/tdf/tdf.c:580-607 | applying groups of differences one after another reaches every reading over diffable steps |
| TdfDiff.PairsAt | subsys/tdf/tdf.c:114-160 | a pair of neighbouring readings is diffable exactly when each of its fields is |
| TdfDiff.Selection | subsys/tdf/tdf.c:114-160 | two or more differences are chosen exactly when the first two pairs are diffable, namely the longest valid prefix capped at 63; otherwise all readings up to the first two consecutive diffable pairs are logged plainly |
| TdfDiff.CheckReading | subsys/tdf/diffs.c:15-36 | the field loop accepts exactly the diffable pairs of readings |
| TdfDiff.EncodeFields | subsys/tdf/diffs.c:37-48 | the loop writes exactly the truncated field differences and nothing else |
| TdfDiff.ApplyFields | subsys/tdf/diffs.c:49-58 | the loop adds one group of differences in place |
| TdfDiff.ReconstructReading | subsys/tdf/tdf.c:580-607 | the loops leave the requested reading in the output array |
| TdfDiff.NumValidDiffs | subsys/tdf/tdf.c:114-160 | the scan over readings returns the selection |
| TdfWire.HeaderRoundTrip | subsys/tdf/tdf.c:488-510 | the header word and length survive encoding |
| TdfWire.TimeRoundTrip | subsys/tdf/tdf.c:450-486 | absolute, relative and extended timestamps survive encoding |
| TdfWire.BodyRoundTrip | subsys/tdf/tdf.c:524-576 | array header and payload survive encoding |
| TdfWire.RecordRoundTrip | subsys/tdf/tdf.c:488-576 | any valid record followed by any bytes is parsed back exactly, and what follows is left unread |
| Tdf.Choose | subsys/tdf/tdf.c:306-335 | difference coding is chosen only for more than two readings and at most 63 differences unless they were precomputed |
| Tdf.FitBounds | subsys/tdf/tdf.c:342-387 | no more readings are stored than asked for, and they fit the payload space unless the array header is reclaimed |
| Tdf.ReclaimBounds | subsys/tdf/tdf.c:369-378 | reclaiming the array header makes room for one reading, or for two of two bytes |
| Tdf.CountExact | subsys/tdf/tdf.c:424 | the count byte holds format and number of differences if and only if there are at most 63 |
| Tdf.StampExact | subsys/tdf/tdf.c:286-305 | times below 2^48 survive in whichever form is chosen, under 64-bit wrap-around of the difference |
| Tdf.TimeExact | subsys/tdf/tdf.c:184-214 | parsed time and running base time of writer and parser agree |
| Tdf.AbsoluteTimeExact | subsys/tdf/tdf.c:202-208 | an absolute time survives if and only if it is below 2^48 |
| Tdf.FitsExactly | subsys/tdf/tdf.c:331-398 | an accepted record stays inside the buffer if and only if the request is not in the two-byte reclaim corner |
| Tdf.CornerExample | subsys/tdf/tdf.c:369-378 | a request in that corner writes ten bytes to a seven-byte buffer |
| TdfRoundTrip.PeriodExact | subsys/tdf/tdf.c:216-249 | a period is stored, rounded down to its scale, if and only if it is below 2^28 ticks |
| TdfRoundTrip.PeriodLost | subsys/tdf/tdf.c:265-281 | an accepted request, an index array marked as precomputed, whose period is parsed back as zero |
| TdfRoundTrip.CountLost | subsys/tdf/tdf.c:391-434 | an accepted request of 65 precomputed differences of which the parser reports one and takes the rest for another record |
| TdfRoundTrip.RebuildExact | subsys/tdf/tdf.c:580-607 | every reading of a difference array is rebuilt to its original bytes |
| TdfRoundTrip.ReportMatches | subsys/tdf/tdf.c:251-434 | what the parser reports for an accepted request is what was asked to be stored, if and only if the format can hold its period |
| TdfRoundTrip.StepParses | subsys/tdf/tdf.c:488-576 | one accepted request followed by anything is parsed back with matching base times |
| TdfRoundTrip.RoundTrip | subsys/tdf/tdf.c:488-576 | for any sequence of requests, parsing yields the accepted ones in order with id, length, count, time, data, index and period, and then reports that nothing is left |
| TdfRoundTrip.FreshRoundTrip | subsys/tdf/tdf.c:488-576 | the same for a fresh buffer |
| TdfBuffer.Writer.AddHeader | subsys/tdf/tdf.c:184-214 | appends the header word, length and timestamp and moves the base time |
| TdfBuffer.Writer.AddArrayHeader | subsys/tdf/tdf.c:216-249 | appends count and period word and sets the array flags in the header already written |
| TdfBuffer.Writer.Payload | subsys/tdf/tdf.c:391-434 | the data bytes are a piece of the input, or one reading and the differences that the encode loop computes |
| TdfBuffer.Writer.AddRecord | subsys/tdf/tdf.c:391-434 | the bytes appended piecewise, with differences computed by the encode loop and the count patched afterwards, are the encoding of the record |
| TdfBuffer.Writer.ChooseForm | subsys/tdf/tdf.c:306-330 | the form and number of readings are the choice of the model |
| TdfBuffer.Writer.AddCore | subsys/tdf/tdf.c:251-434 | result and new buffer are those of the model, for every request; a refused request changes nothing |
| TdfBuffer.Parser.ParseNext | subsys/tdf/tdf.c:488-576 | parsing in place consumes exactly the record and updates the base time; without a record nothing changes, and after a malformed one the unread bytes and base time are stated |
| TdfBuffer.Stopped | subsys/tdf/tdf.c:450-576 | where parsing stops in a malformed record: a proper suffix of what was unread |
| TdfBuffer.DiffReconstruct | subsys/tdf/tdf.c:580-607 | the reconstruction returns the rebuilt reading, or an error for an index or type that does not exist |
| RpcFlow.RunInv | subsys/rpc/client.c:286-330 | in every interleaving, every packet is in one place and every token is accounted for |
| RpcFlow.WindowBound | subsys/rpc/client.c:286-330 | sent minus received never exceeds the initial tokens plus those of acknowledgements already under way |
| RpcFlow.InOrder | subsys/rpc/server.c:160-171 | packets arrive in order and are confirmed in order |
| RpcFlow.StepsEnd | subsys/rpc/client.c:286-330 | every step uses up work, so no run goes on for ever |
| RpcFlow.QuietMeansDone | subsys/rpc/server.c:160-171 | when nothing can move, all packets were sent if and only if the server supports the period or the initial tokens suffice; the total need not be a multiple of the period |
| RpcEndpoints.Client.StartTransfer | subsys/rpc/client.c:286-302 | the semaphore is emptied and loaded with one period per outstanding window |
| RpcEndpoints.Client.AckReceived | subsys/rpc/client.c:85-103 | an acknowledgement releases one period of tokens |
| RpcEndpoints.Client.AckWait | subsys/rpc/client.c:239-247 | takes one token, or fails without one |
| RpcEndpoints.Server.AckData | subsys/rpc/server.c:160-171 | a packet is remembered, and a full period is acknowledged with exactly the packets since the last acknowledgement |
| RpcEndpoints.SlotExact | subsys/rpc/server.c:160-171 | the next packet has a slot in the eight-entry array if and only if at most eight less the period acknowledgements in a row have found no room |
| RpcEndpoints.RoomySlots | subsys/rpc/server.c:160-171 | while every acknowledgement finds room, less than one period is ever stored |
| RpcEndpoints.RoomlessSlots | subsys/rpc/server.c:160-171 | without any room packets pile up one by one, so the ninth has no slot, whatever the period |
| RpcEndpoints.Server.SendAck | subsys/rpc/server.c:124-153 | on an interface without room nothing is sent and nothing is reset |
| RpcEndpoints.Server.PullDataReset | subsys/rpc/server.c:66-69 | forgets the packets of an earlier transfer |
| RpcEndpoints.ServerStep | subsys/rpc/server.c:160-171 | one packet at the server object is one acknowledgement step of the flow model |
| RpcChunks.ChunksJoin | subsys/rpc/client.c:304-370 | the payloads of the packets join up to the source bytes |
| RpcChunks.ChunkAt | subsys/rpc/client.c:304-370 | packet `i` carries its own position as offset, starts `i` full payloads into the transfer, and only the last may be short |
| RpcChunks.DataQueueAutoLoad | subsys/rpc/client.c:249-376 | for any length, loader buffer and packet room, the queued packets are exactly those chunks; with a failing loader or missing acknowledgement, a prefix of them |
| RpcChunks.AddPiece | subsys/rpc/client.c:345-370 | adding a piece keeps what is queued and what is left equal to the chunks of the source |
| Cpatch.HeadDecodes | subsys/cpatch/patch.c:158-233 | every opcode and argument encoding is fetched as the operation it stands for |
| Cpatch.NestedRuns | subsys/cpatch/patch.c:115-150 | the nested interpreter executes exactly the copy and write pairs up to the terminating zero, in both of its forms |
| Cpatch.InstrRuns | subsys/cpatch/patch.c:158-266 | one assembled instruction has the effect of the instruction and consumes exactly its bytes |
| Cpatch.InterpretsProgram | subsys/cpatch/patch.c:321-348 | interpreting the bytes of any program has the effect of its instructions one after another, or fails exactly when they do |
| CpatchDisassembly.NestedBack | subsys/cpatch/patch.c:115-150 | a nested patch that ends inside its bytes is made of pairs and a terminator with the same effect |
| CpatchDisassembly.InstrBack | subsys/cpatch/patch.c:158-266 | an operation that runs inside the bytes is an instruction with the same bytes and effect |
| CpatchDisassembly.Disassembles | subsys/cpatch/patch.c:321-348 | every successful run that stays inside the stored bytes is the run of a program whose bytes it read |
| CpatchDisassembly.NestedExtent | subsys/cpatch/patch.c:115-150 | a nested patch can end beyond its bytes only by one, and only if the length byte it cannot read happens to hold zero |
| CpatchDisassembly.LeavesExact | subsys/cpatch/patch.c:321-348 | a successful run reads beyond the stored bytes if and only if they are a program and a nested patch without terminator, reached within the announced length, and the length byte was zero before; it then reads one byte more |
| CpatchDisassembly.StaysInsideExact | subsys/cpatch/patch.c:115-150 | whatever that byte held, successful runs stay inside the stored bytes if and only if the patch is not cut off like that |
| CpatchDisassembly.StaysInside | subsys/cpatch/patch.c:321-348 | with any other value of the length byte every successful run stays inside, whatever length the header announced |
| CpatchDisassembly.LeavesExample | subsys/cpatch/patch.c:115-150 | the opcode of a nested patch alone is such a patch |
| CpatchDisassembly.AnnouncedExact | subsys/cpatch/patch.c:321-348 | a successful run reads exactly the announced length if and only if the announced bytes are a program that runs |
| CpatchDisassembly.ReadsOn | subsys/cpatch/patch.c:92-113 | a write announced without its literal byte reads one byte more than was announced |
| CpatchRunner.CopySplit | subsys/cpatch/patch.c:69-90 | copying in buffer-sized pieces equals copying at once |
| CpatchRunner.PutSplit | subsys/cpatch/patch.c:92-113 | writing in buffer-sized pieces equals writing at once |
| CpatchRunner.Runner.DoCopy | subsys/cpatch/patch.c:69-90 | the 64-byte loop copies the slice, or fails exactly when input or output is too short |
| CpatchRunner.Runner.DoWrite | subsys/cpatch/patch.c:92-113 | the 64-byte loop writes the literal bytes and advances both positions |
| CpatchRunner.Runner.DoCpatch | subsys/cpatch/patch.c:115-150 | the loop over pairs computes the nested interpreter of the model and terminates by growth of the patch position |
| CpatchRunner.Runner.OpcodeFetch | subsys/cpatch/patch.c:158-233 | fetches exactly the operation of the model |
| CpatchRunner.Runner.OpcodeRun | subsys/cpatch/patch.c:235-266 | runs exactly the operation of the model |
| CpatchRunner.Runner.PatchApply | subsys/cpatch/patch.c:321-369 | succeeds if and only if the interpreter does and the output has the announced length and checksum, and then the output is that of the interpreter |
| Ubx.RunConcat | drivers/gnss/gnss_ubx_modem.c:201-267 | the reference automaton may be fed in pieces |
| Ubx.FrameReceived | include/infuse/gnss/ubx/protocol.h:847-910 | an idle receiver hands on exactly the frame that was finished and sent |
| Ubx.StreamReceived | drivers/gnss/gnss_ubx_modem.c:201-267 | back-to-back frames are all received, in order |
| Ubx.NoiseSkipped | drivers/gnss/gnss_ubx_modem.c:178-199 | bytes other than the first sync byte are skipped while idle |
| Ubx.NoisyFrame | drivers/gnss/gnss_ubx_modem.c:178-199 | behind noise without a sync pair a frame is received if and only if the noise ends in an even number of first sync bytes, whatever the frame contains |
| UbxModem.Modem.ReadToSync | drivers/gnss/gnss_ubx_modem.c:178-199 | pulls single bytes until both sync bytes are buffered, in step with the reference |
| UbxModem.Modem.PullSync | drivers/gnss/gnss_ubx_modem.c:178-199 | one byte before synchronisation, in step with the reference |
| UbxModem.Modem.ReadHeader | drivers/gnss/gnss_ubx_modem.c:216-242 | pulls the rest of the header in any pieces and gives up on frames that cannot fit |
| UbxModem.Modem.ReadPayload | drivers/gnss/gnss_ubx_modem.c:244-265 | pulls the rest of the frame in any pieces and hands on exactly complete frames |
| UbxModem.Modem.FifoReadRunner | drivers/gnss/gnss_ubx_modem.c:201-267 | after any worker run, buffer and frames handed on are those of the one-pass reference over the bytes delivered, and the run ends only when the pipe is empty or at an oversize frame |
| UbxModem.ChunkIndependence | drivers/gnss/gnss_ubx_modem.c:201-267 | of two receivers of one stream, in whatever pieces, the one that got less has handed on the first frames of the other, and with equally much left both have the same frames and buffer |
| UbxModem.TwoReceivers | drivers/gnss/gnss_ubx_modem.c:201-267 | the same for two fresh receivers, each run any number of times; once all bytes are delivered the frames are those of the reference |
| TaskSchedule.StatesEval | subsys/task_runner/schedule.c:26-64 | the loop over state conditions computes the left-to-right fold with inversion and OR, whatever the operator of the first condition |
| TaskSchedule.EvalMeans | subsys/task_runner/schedule.c:26-64 | without OR flags all conditions in use must hold, with OR flags any of them; without conditions the default applies |
| TaskSchedule.NoFlapping | subsys/task_runner/schedule.c:112-224 | under the inputs that started it, a schedule with separated battery ranges is asked to stop only by its timeout or its terminate conditions |
| TaskSchedule.InterpolateBounds | lib/math/common.c:162-173 | a battery-scaled lockout lies between its two end values, and its product never overflows the signed 32-bit variables |
| TaskRunner.FindTask | subsys/task_runner/runner.c:221-227 | a schedule is bound to the first task with its identifier, or to none exactly when there is none |
| TaskRunner.InitStatesAt | subsys/task_runner/runner.c:204-246 | initialisation treats every schedule on its own: unusable, or valid and bound with cleared counters |
| TaskRunner.LoadShaped | subsys/task_runner/runner.c:204-246 | loading schedules while nothing runs leaves a consistent runner |
| TaskRunner.Iterate | subsys/task_runner/runner.c:428-501 | every iteration keeps each running task owned by one valid schedule that resolves to it |
| TaskRunnerRuns.EvaluateExact | subsys/task_runner/runner.c:454-500 | an evaluation starts exactly the first startable schedule of every free task, and signals exactly the owners that should stop; said without the order of evaluation |
| TaskRunnerRuns.StartsOnce | subsys/task_runner/runner.c:454-500 | in one iteration every schedule and every task starts at most once, and only a task that nothing is running |
| TaskRunnerRuns.FinishExact | subsys/task_runner/runner.c:436-445 | tasks that ended stop counting as running and exactly their schedules note the time |
| TaskRunnerRuns.IterateCases | subsys/task_runner/runner.c:428-501 | an iteration waits for tasks to end, reloads, or evaluates the schedules it has |
| TaskRunnerRuns.TriggerStopsAll | subsys/task_runner/runner.c:391-403 | a reload request reaches the owner of every task still running, and starts nothing |
| TaskRunnerRuns.ReloadExact | subsys/task_runner/runner.c:389-421 | a pending reload happens if and only if no task is left running |
| TaskRunnerRuns.ReloadQuiesced | subsys/task_runner/runner.c:404-419 | after a reload every running task was started by a schedule just loaded |
| TaskRunnerRuns.Final | subsys/task_runner/runner.c:428-501 | ownership holds after every run |
| TaskRunnerRuns.QuietUntilReload | subsys/task_runner/runner.c:389-421 | in every run, nothing starts between a reload request and the reload |
| TaskRunnerRuns.StartRecorded | subsys/task_runner/runner.c:307-321 | without a reload the time of the last run moves exactly with the starts, each of which met the start conditions |
| TaskRunnerTiming.AlwaysPast | subsys/task_runner/runner.c:307-321 | in every run from boot no schedule claims a last run in the future |
| TaskRunnerTiming.LockoutSpacing | subsys/task_runner/schedule.c:146-172 | in every run with non-decreasing uptime and no reload, two starts of a schedule with a lockout, fixed or scaled by the battery, are at least the lockout apart, whatever the ignore-first flag says |
| TaskRunnerTiming.ExcuseExact | subsys/task_runner/schedule.c:146-172 | a schedule that has not run yet always waits its lockout if and only if the ignore-first flag is clear or the lockout at most a second |
| TaskRunnerTiming.PermanentRestarts | subsys/task_runner/runner.c:476-483 | permanent schedules restart at once whatever their periodicity, so the spacing cannot hold for them |
| TaskRunnerTiming.RunCounted | subsys/task_runner/runner.c:485-492 | a running schedule counts iterations and is asked to stop exactly when it should |
| TaskRunnerTiming.TimeoutStops | subsys/task_runner/schedule.c:190-224 | a task still running as many iterations after its start as its timeout says is asked to stop then |
| TaskRunnerDevice.Device.constructor | subsys/task_runner/runner.c:169-202 | after boot no task runs, tasks with a missing device are skipped and the runner is consistent |
| TaskRunnerDevice.Device.InitSchedules | subsys/task_runner/runner.c:204-246 | the loops compute the initial states of the model |
| TaskRunnerDevice.Device.FinishTasks | subsys/task_runner/runner.c:436-445 | the loop over tasks computes the model |
| TaskRunnerDevice.Device.TerminateAll | subsys/task_runner/runner.c:394-401 | the loop signals exactly the owners of running tasks |
| TaskRunnerDevice.Device.ServeReload | subsys/task_runner/runner.c:389-421 | flags, schedules and states change as the reload step of the model says |
| TaskRunnerDevice.Device.TaskStart | subsys/task_runner/runner.c:307-343 | ownership and counters of a start |
| TaskRunnerDevice.Device.EvaluateSchedule | subsys/task_runner/runner.c:454-500 | one pass of the schedule loop is one evaluation step |
| TaskRunnerDevice.Device.Iterate | subsys/task_runner/runner.c:428-501 | the whole iteration in place equals the iteration of the model |
| AppStates.Apply | lib/states/application_states.c:70-213 | every operation keeps timed states set, with time left, and no more of them than slots |
| AppStates.StaysFor | lib/states/application_states.c:182-213 | a state with `n` ticks left is set if and only if fewer than `n` ticks have seen it, under any operations on other states |
| AppStates.SetFor | lib/states/application_states.c:91-125 | the same counted from an accepted set with timeout |
| AppStates.UntimedStays | lib/states/application_states.c:70-89 | a state without timeout stays as it is until an operation names it |
| AppStates.SeenByEvaluations | include/infuse/states.h:188-201 | a state set for `n` ticks is seen by exactly the next `n` evaluations of the loop that snapshots, evaluates and ticks |
| AppStatesDevice.Sizes | lib/states/application_states.c:41-68 | slots in use correspond one to one to timed states |
| AppStatesDevice.Device.FindTimeoutState | lib/states/application_states.c:41-55 | the loop over mask bits finds the slot of a state, or none exactly when it has none |
| AppStatesDevice.Device.ClearTimeoutState | lib/states/application_states.c:57-68 | forgets the timeout of one state and leaves the others |
| AppStatesDevice.Device.SetState | lib/states/application_states.c:70-89 | sets the state, drops its timeout, and tells whether it was set |
| AppStatesDevice.Device.SetStateTimeout | lib/states/application_states.c:91-125 | records the timeout in the state's slot or a free one; without a free slot, or with timeout zero, nothing changes |
| AppStatesDevice.Device.GetTimeout | lib/states/application_states.c:127-146 | reports the ticks left |
| AppStatesDevice.Device.ClearState | lib/states/application_states.c:148-168 | clears state and timeout and tells whether it was set |
| AppStatesDevice.Device.TickStates | lib/states/application_states.c:182-213 | the loop over mask bits decrements exactly the timed states of the snapshot and clears exactly those that reach zero |
| AppStatesDevice.LowestFree | lib/states/application_states.c:107-108 | a free slot exists and is found whenever fewer slots are used than there are |
| Statistics.UpdateTracks | lib/math/statistics.c:11-48 | every update keeps count times mean plus remainder equal to the sum, and likewise for the squared deviations, with remainders below their divisors |
| Statistics.FedTracks | lib/math/statistics.c:11-48 | so after any samples |
| Statistics.Recentre | lib/math/statistics.c:36-42 | moving the centre changes the sum of squares as the update assumes |
| Statistics.MeanInRange | include/infuse/math/statistics.h:98-114 | the rough mean lies between smallest and largest sample and within one of the true mean |
| Statistics.MeanExact | include/infuse/math/statistics.h:62-77 | the mean formula gives the true mean |
| Statistics.VarianceExact | include/infuse/math/statistics.h:79-96 | the variance formula gives the sample variance around the true mean |
| Statistics.NeverOverflows | lib/math/statistics.c:11-48 | with samples at most 3037000499 apart and at most 2^31 of them, every 64-bit intermediate and every 32-bit and 64-bit field fits |
| Statistics.FarApart | lib/math/statistics.c:26-39 | two samples any further apart overflow the square |
| Statistics.OverflowExact | lib/math/statistics.c:11-48 | samples within an interval never overflow if and only if the interval is at most 3037000499 wide |
| Statistics.Accumulator.Update | lib/math/statistics.c:11-48 | the update in place is the update of the model |
| Statistics.RoughNear | include/infuse/math/statistics.h:116-137 | the integer kept by the state is less than three above and less than one below the sample variance |
| Statistics.Accumulator.VarianceRough | include/infuse/math/statistics.h:116-137 | the rough variance is that integer, and zero for less than two samples |
| Resample.LerpBounds | drivers/imu/resample.c:33-36 | an interpolated value lies between its two neighbours |
| Resample.OutputBetween | drivers/imu/resample.c:19-57 | output `k` is the input at time `k` times divider over multiplier, and lies between the two samples around it |
| Resample.CountIff | include/infuse/drivers/imu.h:249-263 | after `n` inputs exactly the outputs exist whose time has been reached |
| Resample.StepExact | drivers/imu/resample.c:19-60 | one more input extends the outputs to the resampled signal of the longer input |
| Resample.SplitIndependent | drivers/imu/resample.c:11-66 | however the samples are split into calls, and wherever full buffers interrupt them, the outputs are the input interpolated at multiples of the period |
| Resample.OverflowLoses | drivers/imu/resample.c:44-57 | when multiplier plus divider less their greatest common divisor exceeds 255, the 8-bit phase wraps and an output is lost, whatever the samples |
| ResampleDevice.Resampler.Process | drivers/imu/resample.c:19-57 | one sample in place: emit when due, advance the phase modulo 256 |
| ResampleDevice.Resampler.Downsample | drivers/imu/resample.c:11-66 | consumes samples until they run out or the buffers are full, and writes exactly the outputs of the model behind those already there |
| ResampleDevice.Resampler.DownsampleAll | drivers/imu/resample.c:11-66 | calling again after every full buffer yields the whole resampled signal |
| SquareRoot.Isqrt | lib/math/common.c:14-60 | the reference: the largest number whose square is not above the operand |
| SquareRoot.DigitsExact | lib/math/common.c:18-27 | steps that do not overflow their variables compute the root of the digits seen |
| SquareRoot.RootLoop | lib/math/common.c:14-60 | the shifting loop feeds exactly the digits of the operand to those steps |
| SquareRoot.Sqrt16 | lib/math/common.c:14-28 | the result is the integer square root of every 16-bit operand |
| SquareRoot.Sqrt32 | lib/math/common.c:30-44 | the result is the integer square root of every 32-bit operand |
| SquareRoot.Sqrt64 | lib/math/common.c:46-60 | the result is the integer square root if and only if the operand is below 2^62 and the last remainder fits 32 bits or exceeds the compared root after wrapping |
| SquareRoot.SmallCovered | lib/math/common.c:46-60 | every operand below 2^60 meets that condition |
| SquareRoot.NotCovered | lib/math/common.c:46-60 | 2^62 - 4 does not |

## Left out

- DataLoggerRuns.Step: a failed erase, of one unit or of the whole device, is taken to change nothing; runs go on
  after a restart from a clean device and after one that takes a torn block for written, not after one that a foreign
  wrap byte misled (`BootExact`).
- DataLogger.Program: a write replaces what a torn write left in its slot. NOR flash can only clear bits until the
  next erase, so there a retried block may be the bitwise AND of both; `RetryRepairs` and `AlwaysReadable` assume
  storage that overwrites, or a torn write that left its slot erased.
- DataLoggerBoot.BootExact: counters beyond 2^32 that damaged storage would yield are not wrapped.
- DataLoggerDevice.Logger.BlockRead: backend read errors are not modelled; accepted requests whose last block number
  wraps, which lie outside the window (`AcceptedExact`), are excluded.
- DataLoggerDevice.Logger.CommonInit: more than 2^31 physical blocks, where the midpoint of the search would wrap, are
  excluded.
- DataLoggerBoot.BootRecovers: geometries whose erase unit does not divide the device are excluded from the theorems.
- Data logger offload thread, burst writes, search hints of drivers, power management, callbacks, and the logical limit
  under RAM buffering, which does not count queued blocks.
- Tdf.WireFor: `net_buf_simple` assertions on overflow are not modelled; `FitsExactly` says when they could fire.
- TdfDiff.EncodeFields: the three field widths share one loop over field values with the widths as parameters; unaligned
  access to the packed data is left out.
- RpcFlow.WindowBound: lossless channels; acknowledgements already under way when a transfer starts are counted by a
  parameter, and an acknowledgement period of zero, which disables flow control, is excluded.
- RpcEndpoints.Server.AckData: the packet that would be stored behind the eight entries of the array is excluded; for a
  transfer with one period, `SlotExact` says when it cannot occur.
- RpcChunks.DataQueueAutoLoad: one room for all packets of a transfer; packets with less than four free bytes, for which
  the loop would not advance, and loader buffers that are no multiple of four bytes, which the alignment assertion
  forbids, are excluded.
- RPC command lifetime, timeouts, callbacks and the server's data pull loop.
- Cpatch.Nested: the undefined value of a length byte that cannot be read is one constant for a whole run.
- CpatchRunner.Runner.PatchApply: the checksum is any byte-wise fold; flash write buffering, progress callbacks and
  checking the patch header and input file are left out.
- UbxModem.Modem.ReadHeader: what follows an oversize frame depends on how much the pipe happens to hold, so the
  reference stops there; payloads that wrap the 16-bit message length count as oversize.
- TaskRunnerDevice.Device.TerminateAll: a schedule that resolves to no task is skipped; the code reads the task state at
  index 255 for it.
- TaskRunner.Iterate: whether a task has ended is an input; threads, work queues, the key-value store behind a reload,
  event callbacks and persistent schedule storage are left out.
- TaskRunnerTiming.LockoutSpacing: uptime below 2^32 seconds.
- AppStatesDevice.Device.TickStates: callbacks, which may call back into the states, and the spinlock.
- Statistics.Updated: unbounded integers; `OverflowExact` says when the machine integers agree, up to 2^31 samples.
- Statistics.VarianceExact: floating-point rounding.
- ResampleDevice.Resampler.Downsample: integer values before the floating-point scale; calls without samples, which the
  code does not guard against, and buffers that are already full are excluded; products are unbounded, as 16-bit samples
  cannot overflow them.
- Drivers for sensors, LEDs and fuel gauges, key derivation, geodesy and inverse square root in floating point, Hamming
  codes, and applications: register access, wrappers, rounding or small finite facts.
