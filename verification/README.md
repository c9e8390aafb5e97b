# Models of the measurement tools

Dafny models of the parts of the repository that have state worth proving things about,
with proofs over every input, every interleaving or every run.

- **Acquisition** (`RingBuffer.dfy`, `Acquisition.dfy`): the circular buffer that the USB
  thread fills and the main loop of `daqflex` drains one half at a time without a lock.
  `RingBuffer` is a state machine over the thread's three steps (fill, count, wrap) and the
  main loop's poll, in any order the code allows, with transfers of any byte count, odd ones
  too; slots hold stream positions, so a torn half is told apart from a whole one whatever the
  sample values are. `quarter` is a quarter of numPoints. `Acquisition.Session` is the
  real buffer and loop variables; its `Valid` ties memory and output file to the state after
  the run of events it has gone through.
- **Capture files** (`Quantities.dfy`, `Floats.dfy`, `CaptureFile.dfy`, `DumpBinary.dfy`,
  `Debounce.dfy`, `CapturePipeline.dfy`): the binary file at the level of bytes and IEEE 754
  patterns, its printer, the one-frame-delay glitch filter, and the programs in a row. Short
  reads, and variables that keep their old bytes after one, are modelled. A NaN compares as
  neither more nor less, and spreads through sums.
- **Traces and energy** (`TraceMachine.dfy`): the four-state machine against an offline
  segmentation defined by counting highs and searching lows.
- **Watts Up? meter** (`CStrings.dfy`, `WattsupPacket.dfy`, `WattsupSimple.dfy`,
  `WattsupRetry.dfy`): the packet printer, the parser that writes NULs over separators in
  place, the second, comma-counting reader, and the retry, reset and give-up loop.
- **Performance counters** (`TenBillion.dfy`, `PmuCounters.dfy`, `CountedWorkload.dfy`): a
  small-step semantics of the ARM workload, the 64-bit totals over 32-bit counters, and the
  one measured by the other.
- **USB descriptors** (`Descriptors.dfy`): three walks over length-prefixed records against
  one list of the records.

Points where the code is not what its comments, or a first reading, suggest:

- `numPoints/2` is passed as a sample count but used as a byte length, so one transfer is a
  quarter of the buffer (mc1208fs-plus/daqflex.c:359, mc1208fs-plus/poll_thread.c:43).
- "Only half the buffer is read at a time to avoid collisions" (mc1208fs-plus/daqflex.c:398)
  is true whenever transfers are full or empty. With partial ones a first half is torn exactly
  when the last wrap left a remainder, and a second half exactly when a transfer in flight has
  reached it; `FirstHalfCanBeTorn` and `SecondHalfCanBeTorn` give runs. Whole halves never
  share a sample; `TornHalfRepeats` gives a run where a torn one does.
- With attentive polling the output lags by at most three quarters of the buffer exactly while
  no other half has been filled behind one that is due for display, so always between
  transfers; otherwise it lags by the whole buffer, which `LagReachesBufferSize` shows happens.
- The display loop counts channels from 0 in every half, which is right exactly when the
  channel count divides half the buffer; at 3 channels and 50 Hz it does not.
- `getBulkPacketSize` ignores the transfer's length, so it agrees with the list exactly when
  there is an IN endpoint (mc1208fs-plus/mccdevice.c:132-148).
- A packet without fields is printed without the comma the parser needs after the count, so it
  reads back exactly when it has a field; the comma-counting reader needs two.
- The comment on the shunt says 0.0033, the code 0.00333; the code is followed.

## Model

| member | source | states |
|---|---|---|
| RingBuffer.StepInv | mc1208fs-plus/poll_thread.c:37-72 | every step of thread and main loop keeps currIndex in range and the slots in stream order: this lap's samples up to the writing position, the lap before in the rest of the second half |
| RingBuffer.PollDisplaysWhatIsDue | mc1208fs-plus/daqflex.c:399-422 | a poll leaves the first half read last whenever currIndex is past the middle and the second whenever it is before, by however little, does nothing at the middle, and displays a half, that one from its own slots, exactly when the half read last changes |
| RingBuffer.DisplayWholeExactly | mc1208fs-plus/daqflex.c:392-425 | after any run, with full, partial, odd or empty transfers, the half about to be displayed is consecutive samples if and only if, for a first half, the last wrap left currIndex 0, and for a second half, no transfer in flight, nor its odd byte, has passed the middle |
| RingBuffer.TargetInsideBuffer | mc1208fs-plus/poll_thread.c:37-70 | whatever byte counts up to those asked for are transferred, odd ones too, and whenever the main loop polls, every transfer starts below numPoints and its target lies in the allocated bytes |
| RingBuffer.FirstHalfCanBeTorn | mc1208fs-plus/poll_thread.c:63-70 | a run with a partial transfer whose next first half is torn |
| RingBuffer.SecondHalfCanBeTorn | mc1208fs-plus/daqflex.c:411-422 | a run with a partial transfer whose next second half is torn |
| RingBuffer.DisplaysInOrder | mc1208fs-plus/daqflex.c:399-422 | in every run the displayed halves of the buffer alternate from a first half, and no half of the same or an earlier lap follows |
| RingBuffer.WholeHalvesInOrder | mc1208fs-plus/daqflex.c:392-425 | of what they show: in every run, whatever the transfers deliver, each sample of a whole half comes before every sample of any later whole half, so they are in stream order and share no sample |
| RingBuffer.TornHalfRepeats | mc1208fs-plus/daqflex.c:411-422 | a run with partial transfers in which a torn half shows a stream position that a later half shows again |
| RingBuffer.SkipsAreEven | mc1208fs-plus/daqflex.c:399-422 | the number of halves passed over before each displayed one is even |
| RingBuffer.FullTransfersShowWholeHalves | mc1208fs-plus/daqflex.c:392-425 | over every interleaving of full or empty transfers with polls, also polls that see currIndex equal to the size, each display is a whole half of the stream and currIndex stays on quarters and wraps to 0 |
| RingBuffer.HalfStartIs | mc1208fs-plus/daqflex.c:402-419 | half h of the stream starts at sample h times half the buffer |
| RingBuffer.HalfIsWhole | mc1208fs-plus/daqflex.c:402-419 | a display that is half h of the stream is not torn |
| RingBuffer.AttentivePollingLosesNothing | mc1208fs-plus/daqflex.c:395-422 | if every visit of currIndex above or below the middle sees a poll, display k is half k of the stream; the lag is at most the size, at most three quarters of it if and only if no half is full behind one that is due, and the whole size otherwise |
| RingBuffer.LagReachesBufferSize | mc1208fs-plus/poll_thread.c:39-46 | for every size the lag of a whole buffer is reached by an attentive run |
| Acquisition.BufferPoints | mc1208fs-plus/daqflex.c:207-218 | numPoints is a multiple of 128, at least 128 and channels times rate, and the least such |
| Acquisition.VoltsOfChannel | mc1208fs-plus/daqflex.c:58-76 | a voltage is the conversion of a sample on a channel if and only if its height above the minimum, times the full count, is the sample with that channel's slope and offset, times the range |
| Acquisition.DisplayAndWriteData | mc1208fs-plus/daqflex.c:79-106 | the nested loops write, for any channel count, as many samples as asked for up to the end of the last round of channels, sample j in volts by the slope and offset of channel j mod channels |
| Acquisition.Session.constructor | mc1208fs-plus/daqflex.c:264-271 | a session starts with a cleared buffer and no events, for any number of points in whole quarters, with the second half marked as read |
| Acquisition.CreateSession | mc1208fs-plus/daqflex.c:207-271 | main sets one up with a buffer of the size it computes |
| Acquisition.Session.BulkTransfer | mc1208fs-plus/poll_thread.c:39-45 | the bytes that arrive, an even or odd number, land in the buffer from currIndex on as little-endian samples, an odd last one in the low byte of the sample it falls on; memory matches the run extended by the transfer, and no other sample changes |
| Acquisition.Session.CountTransferred | mc1208fs-plus/poll_thread.c:46 | the addition to currIndex; memory matches the run extended by it |
| Acquisition.Session.WrapIndex | mc1208fs-plus/poll_thread.c:63-70 | the wrap; the wrapping error is reported exactly when currIndex was beyond the size, so when the new lap starts off 0 |
| Acquisition.Session.PollBuffer | mc1208fs-plus/daqflex.c:399-422 | one pass of the main loop: which half is read last follows from currIndex and numPoints/2, and exactly when that changes the samples of that half are added to the output, in volts; memory and file match the run extended by a poll |
| Acquisition.ChannelsAlignedExactly | mc1208fs-plus/daqflex.c:86-103 | counting channels from 0 in each half is the channel each sample was scanned on, in all halves, if and only if the channel count divides half the buffer |
| Acquisition.ThreeChannelsMisaligned | mc1208fs-plus/daqflex.c:207-218 | three channels at 50 Hz give 256 points, and the second half, scanned from channel 2 on, is converted from channel 0 on |
| Acquisition.FileOfFullTransfers | mc1208fs-plus/daqflex.c:392-425 | with full or empty transfers and any channel count, the file is the displayed halves in order, sample i of each converted as channel i modulo the count; if the count divides half the buffer, without gaps and each sample as its own channel |
| Acquisition.FileOfAttentivePolling | mc1208fs-plus/daqflex.c:392-425 | with attentive polling and such a channel count, the file is the start of the received stream in volts, short of it by at most three quarters of the buffer under the exact condition above |
| Acquisition.OutputHoldsHalves | mc1208fs-plus/daqflex.c:392-425 | the same of the output a session really wrote |
| Acquisition.OutputIsPrefix | mc1208fs-plus/daqflex.c:392-425 | the same of the output a session really wrote under attentive polling, sample j in volts by the slope and offset of channel j modulo the count |
| Floats.NegateIsMinus | mc1208fs-plus/debounce_serial.c:87-91 | flipping the sign bit negates the value, exchanges positive and negative, and undoes itself |
| Floats.MinusFive | mc1208fs-plus/debounce_serial.c:15 | the pattern the filter starts from decodes to -5 |
| Floats.MagnitudeLaws | mc1208fs-plus/debounce_serial.c:62 | the magnitude of every pattern: evenly spaced from 0 up to exponent 1, doubled by each further exponent, and 1 at 0x3f80_0000 |
| Floats.SpecialPatterns | mc1208fs-plus/debounce_serial.c:69 | the infinities are the patterns 0x7f80_0000 and 0xff80_0000, the NaNs those beyond them of either sign, and the top bit of every other is its sign |
| CaptureFile.LittleEndianRoundTrip | mc1208fs-plus/daqflex.c:367-384 | reading little-endian bytes back gives the number, for any width that holds it |
| CaptureFile.BytesOfNumber | mc1208fs-plus/daqflex.c:367-384 | a number's bytes by value, lowest first, four or eight of them |
| CaptureFile.NumberOfBytes | mc1208fs-plus/dump_binary.c:27-43 | the number of four bytes by value, in two's complement for an int |
| CaptureFile.WriteCapture | mc1208fs-plus/daqflex.c:363-386 | the writes of header, samples and trailer produce the capture's bytes |
| CaptureFile.CaptureLayout | mc1208fs-plus/daqflex.c:363-386 | the offset of every header field, of every sample, of the infinity 00 00 80 7f and of the stop time |
| CaptureFile.CaptureReadsBack | mc1208fs-plus/daqflex.c:436-449 | reading a written capture recovers the header, every frame and the stop time, for any frames without an infinity |
| CaptureFile.Input.ReadFrame | mc1208fs-plus/dump_binary.c:45-65 | the channel loop stops at a full frame, a short read or an infinity, and leaves the rest of the file |
| CaptureFile.LineExactly | mc1208fs-plus/dump_binary.c:45-65 | on any bytes a pass takes the samples at offsets 0, 4, 8 up to the channel count, the end of the file or an infinity of either sign, and says which by what it leaves |
| CaptureFile.StopTimeCases | mc1208fs-plus/dump_binary.c:68-71 | the trailer read complete, cut in its second value, and cut in its first, with the old bytes that then remain |
| DumpBinary.Print | mc1208fs-plus/dump_binary.c:27-74 | the program prints the header, a line for each pass including the one that breaks off, with its tick as time if and only if it has a sample, and the stop time, for any file with a header; line k holds frame k and tick k |
| DumpBinary.DumpsWhatWasWritten | mc1208fs-plus/dump_binary.c:27-74 | of a file daqflex wrote it prints that header, those frames, an empty line and that stop time |
| Debounce.FilterKeepsFrames | mc1208fs-plus/debounce_serial.c:85-98 | as many frames come out; only channel 3 changes, by a sign, exactly where three raw samples strictly alternate, and never in the last frame |
| Debounce.FlipsExactly | mc1208fs-plus/debounce_serial.c:85-98 | in volts: a frame has channel 3 negated if and only if it has a successor, that sample and its neighbours, -5 before the first, are numbers, and both neighbouring products are negative; nothing else changes |
| Debounce.IsolatedExactlyInAlternation | mc1208fs-plus/debounce_serial.c:85-101 | in every capture, zeros and NaNs included, a sample before the last comes out isolated if and only if it and both neighbours were flipped |
| Debounce.LoneGlitchesVanish | mc1208fs-plus/debounce_serial.c:85-101 | if no two neighbouring samples are flipped, no isolated sample is left before the last |
| Debounce.FilterFrames | mc1208fs-plus/debounce_serial.c:58-106 | the streaming loop with its delayed write equals the filter of the whole capture, and writes prev once even with no frame |
| Debounce.Run | mc1208fs-plus/debounce_serial.c:33-118 | the whole program, framing included, for any file with a four-channel header |
| Debounce.OutputIsCapture | mc1208fs-plus/debounce_serial.c:33-116 | a non-empty capture comes out as a capture with the same header, frame count and stop time |
| Debounce.DumpOfDebounced | mc1208fs-plus/dump_binary.c:27-74 | dump_binary after debounce_serial shows exactly the filtered frames of what daqflex wrote |
| TraceMachine.HighAndLow | mc1208fs-plus/dump_watts_ddr3.c:85-124 | high is beyond 4 volts, low beyond -4, and a NaN neither |
| TraceMachine.WattsInNumbers | mc1208fs-plus/dump_watts_ddr3.c:133-146 | watts times 300 and 0.00333 are channel 0 times channel 1, joules times the rate are watts, and both are there exactly when no channel is a NaN |
| TraceMachine.EnergyInNumbers | mc1208fs-plus/dump_watts_ddr3.c:132-148 | over any ticks the energy is there exactly when no NaN is among them, and then is the sum of the products of channels 0 and 1 to that scale |
| TraceMachine.SteadyEnergy | mc1208fs-plus/dump_watts_ddr3.c:132-148 | with steady channels it is their product to that scale, times the number of ticks over the rate |
| TraceMachine.NthHighIs | mc1208fs-plus/dump_watts_ddr3.c:85-92 | the search for the n-th high finds the tick with n-1 highs before it, or tells that there are fewer |
| TraceMachine.SegmentationIsComplete | mc1208fs-plus/dump_watts_ddr3.c:85-128 | each closed trace runs from the first low after threshold+1 highs to the threshold+1-th high after it, lasts at least threshold+1 ticks, and no trace is missed |
| TraceMachine.TracesAreSpaced | mc1208fs-plus/dump_watts_ddr3.c:123-128 | the next start is at least threshold+3 ticks after an end |
| TraceMachine.RestMoves | mc1208fs-plus/dump_watts_ddr3.c:85-128 | each transition leaves to be found exactly what the offline search finds from the next tick on |
| TraceMachine.InsideNow | mc1208fs-plus/dump_watts_ddr3.c:132-148 | the machine is in a trace at a tick if and only if the segmentation puts that tick inside one |
| TraceMachine.LinesAreTraces | mc1208fs-plus/dump_watts_ddr3.c:93-121 | lines 2k and 2k+1 announce and report trace k at its start and end, with end minus start ticks and the energy of exactly those; an open trace is announced last |
| TraceMachine.AveragesExactly | mc1208fs-plus/dump_watts_ddr3.c:112-158 | every average printed gives back its energy over its own time; those of closed traces are always defined, the final two exactly when a trace closed, unless a NaN is in the energy; the total time is the sum of the traces' ticks over the rate |
| TraceMachine.DumpWatts | mc1208fs-plus/dump_watts_ddr3.c:63-158 | for every capture, NaNs included, what is printed is the report of the offline segmentation with elapsed ticks end minus start, energies, averages and the final summary, and total plus open energy is the sum over exactly the ticks inside a trace |
| CapturePipeline.ChannelsUsed | mc1208fs-plus/dump_watts_ddr3.c:85-138 | in the patterns of a frame: high and low are those of channel 3, and watts to scale the product of channels 0 and 1 |
| CapturePipeline.DumpCapture | mc1208fs-plus/dump_watts_ddr3.c:44-158 | for every four-channel file with a rate other than 0, whatever its samples, what is printed and summed is the offline report of the frames the file holds |
| CapturePipeline.DebouncedFrames | mc1208fs-plus/debounce_serial.c:33-116 | the debounced file of a capture reads as the filtered frames, under the same header |
| CapturePipeline.DebouncingKeepsPower | mc1208fs-plus/debounce_serial.c:85-98 | debouncing leaves every tick's watts as they were, and negates the DTR voltage exactly at glitches |
| CStrings.FindsFirst | wattsup/wattsup.c:551-620 | strchr and strpbrk find the first stop before any NUL, or there is none |
| CStrings.SpacesAre | wattsup/wattsup.c:633 | isspace holds of exactly the six white-space characters of the C locale |
| CStrings.TrimsExactly | wattsup/wattsup.c:633-635 | what is skipped is white space, and what is left does not begin with any |
| CStrings.DecimalDigits | wattsup/wattsup.c:503 | a count is printed in decimal |
| CStrings.AtoiOfDigits | wattsup/wattsup.c:600 | atoi undoes the decimal printing of the count |
| CStrings.AtoiReads | wattsup/wattsup.c:600 | atoi reads a number behind any white space, with or without a sign, before anything but a digit |
| WattsupPacket.FittingIsMost | wattsup/wattsup.c:507-516 | m fields are printed if and only if the text with them leaves room for three characters more |
| WattsupPacket.PrintedExactly | wattsup/wattsup.c:502-518 | a packet is printed without overflow if and only if its text before the semicolon is shorter than 253 characters or it has no field; then the text is exactly that, otherwise a beginning of it |
| WattsupPacket.Packet.Write | wattsup/wattsup.c:495-525 | the buffer holds head and fields up to the first that does not fit, and the semicolon if all do; then exactly that text is sent and 0 or the device's error returned, otherwise nothing is sent and -1 returned |
| WattsupPacket.Packet.ParsePacket | wattsup/wattsup.c:539-639 | the in-place parse leaves the members, and NULs at exactly the places, that the parse of the buffer as it was gives, on success and on every error path |
| WattsupPacket.ParseOutcome | wattsup/wattsup.c:575-639 | for every buffer with a '#' and three commas: cmd, sub_cmd and count are what stands there, and the parse succeeds if and only if the count is at most 18 and at least count-1 separators follow; else EFAULT, or an overrun past 18 fields |
| WattsupPacket.NoHeadFails | wattsup/wattsup.c:551-606 | for every other buffer it is EFAULT |
| WattsupPacket.FieldIsKth | wattsup/wattsup.c:618-637 | field k of any parse begins behind exactly k separators and the white space after the last of them |
| WattsupPacket.FieldsAreSlices | wattsup/wattsup.c:618-636 | on success the field pointers number the count, strictly increase, each names a NUL-terminated slice of the original without separators that ends before the next begins, and later NULs never change it |
| WattsupPacket.PacketReadsBack | wattsup/wattsup.c:544-639 | printed text anywhere behind characters other than '#' and NUL, with or without its semicolon and whatever follows it, parses back to the same cmd, sub_cmd, count and fields without leading white space |
| WattsupPacket.PrintedReadsBackExactly | wattsup/wattsup.c:503-516 | of the packets that print without overflow, exactly those with at least one field parse back |
| WattsupSimple.ExtractWatts | wattsup/wattsup-simple.c:225-241 | the two loops return what stands between the third comma of the string and the next one, or tell that a comma is missing |
| WattsupSimple.WattsExactly | wattsup/wattsup-simple.c:225-241 | on any buffer: nothing is set if and only if the text has fewer than three commas; otherwise what is found runs from its third comma to the next of the buffer, if there is one |
| WattsupSimple.ReadersAgree | wattsup/wattsup-simple.c:225-241 | on every printed packet with two fields or more, whatever follows, it gives the untrimmed field 0, so the same watts as parse_packet after trimming |
| WattsupSimple.ScanNeedsSecondField | wattsup/wattsup-simple.c:230-239 | in a cleared buffer it finds field 0 exactly when a second field follows; with one it runs off the buffer |
| WattsupRetry.ReadData | wattsup/wattsup.c:889-922 | the loop's prints, resets and giving up are those that each read's two predecessors determine, up to the first third failure in a row or the wu_count-th record |
| WattsupRetry.EventExactly | wattsup/wattsup.c:889-916 | a good read is printed and nothing else; a failure does nothing if it is the first in a row, resets if the second, gives up if later |
| WattsupRetry.StopsExactly | wattsup/wattsup.c:895-920 | the loop stops if and only if the last three reads failed, or the last one gave the record that fills a positive wu_count |
| WattsupRetry.PrintsTheRecords | wattsup/wattsup.c:911-916 | what is printed is exactly the successful reads, in order |
| WattsupRetry.NoThreeFailuresBefore | wattsup/wattsup.c:895-910 | only the read that ends the loop can be the one that gives up |
| WattsupRetry.OneResetPerRun | wattsup/wattsup.c:895-910 | a stretch of failures resets the meter exactly at its second failure and gives up from the third on |
| TenBillion.StepCounts | rasp-pi-pmu/tenbillion.S:14-34 | every instruction brings the system call exactly one instruction, and each conditional branch one branch, nearer |
| TenBillion.ExecutedUntilExit | rasp-pi-pmu/tenbillion.S:10-34 | from every state of the program and for every n, the instructions executed in n cycles are n up to those that remain before the system call, and those from then on |
| TenBillion.ReachesExitExactly | rasp-pi-pmu/tenbillion.S:2-37 | for all 32-bit literals, 0 standing for 2^32, the program first stands at its swi after 1+(4+3x)y+2 instructions, with (x+1)y conditional branches; by n cycles it has executed n instructions up to those |
| TenBillion.ShippedProgramRunsTenBillion | rasp-pi-pmu/tenbillion.S:36-37 | the shipped literals give ten billion executed instructions and 3076923076 branches, after any number of cycles from that on |
| TenBillion.Execute | rasp-pi-pmu/tenbillion.S:10-34 | the fetch-and-execute loop terminates and counts the same |
| PmuCounters.IncrementIsDistance | rasp-pi-pmu/rasp-pi-pmu.c:74-79 | what an update adds is the true difference less 2^32 for each time round but the one it notices |
| PmuCounters.TotalFallsShort | rasp-pi-pmu/rasp-pi-pmu.c:70-103 | after any updates the total is short of the truth by 2^32 for each wrap not noticed |
| PmuCounters.TotalExactly | rasp-pi-pmu/rasp-pi-pmu.c:70-103 | the total is at most the true count and congruent to it, and total and overflow count are exact if and only if fewer than 2^32 events come between updates |
| PmuCounters.Driver.UpdateCounters | rasp-pi-pmu/rasp-pi-pmu.c:70-103 | one update of the static variables extends the three histories they stand for |
| PmuCounters.ReportIsExact | rasp-pi-pmu/rasp-pi-pmu.c:158-162 | the reported totals and overflows are exact together, if and only if all three counters are polled in time |
| CountedWorkload.WorkloadIsCountedExactly | rasp-pi-pmu/rasp-pi-pmu.c:105-109 | however updates are spaced below 2^32 cycles, once the program has halted its executed instructions are reported as 10^10 with two wraps and its branches as 3076923076 with none |
| Descriptors.GetEndpointInAddress | mc1208fs-plus/mccdevice.c:62-91 | on every chain of records, ended by the transfer, which may cut the last, or by a zero length, the walk terminates with the first IN endpoint's address or 0, its bytes being type 5 and an address with bit 7 |
| Descriptors.GetEndpointOutAddress | mc1208fs-plus/mccdevice.c:94-123 | the same for the first OUT endpoint, its bytes being type 5 and an address without bit 7 |
| Descriptors.FirstInIs | mc1208fs-plus/mccdevice.c:76-82 | the list's IN address is 0 with no record of type 5 and bit 7 set, or the address byte of the first such record |
| Descriptors.FirstOutIs | mc1208fs-plus/mccdevice.c:108-114 | the same of OUT, with bit 7 clear |
| Descriptors.GetBulkPacketSize | mc1208fs-plus/mccdevice.c:126-150 | on every chain with an IN endpoint, wherever it ends, the little-endian packet size of the first one; on any buffer, what the walk that ignores the length comes to |
| Descriptors.SizeAgreesExactly | mc1208fs-plus/mccdevice.c:126-150 | in a buffer of any given size that holds the chain, it gives the list's packet size, whatever bytes lie behind, if and only if the chain has an IN endpoint |
| Descriptors.SizeStopsAtZero | mc1208fs-plus/mccdevice.c:136 | a chain stopped by a zero length gives the list's packet size in any case |
| Descriptors.StaleEndpointIsTaken | mc1208fs-plus/mccdevice.c:132-148 | a chain without an IN endpoint and bytes behind it whose packet size is returned |
| Descriptors.SameEndpoint | mc1208fs-plus/mccdevice.c:168-170 | address and size found are byte 2 and bytes 4 and 5, low first, of one record, the first IN endpoint |

## Left out

- Acquisition.Session.BulkTransfer: at most the bytes asked for; what the device sent between an odd byte and the next transfer is not related to what is stored.
- Acquisition.CreateSession: at most 16 channels, the size of the calibration arrays the C code writes per channel.
- Descriptors.GetEndpointInAddress: requires two bytes of a record, three of an endpoint's, before the transfer ends; of less the C code reads whatever follows. The same holds of GetEndpointOutAddress.
- TraceMachine.DumpWatts: requires a rate other than 0, by which C would divide.
- CapturePipeline.DumpCapture: reads all frames before the first is processed, where the program does both in one loop.
- Debounce.Run: requires the four channels its arrays are declared for, and a complete header; a file shorter than the header leaves C variables uninitialised.
- DumpBinary.Print: requires one to eight channels, the size of its array, and a complete header; the time of a line is the tick that is divided by the rate.
- WattsupPacket.Packet.ParsePacket: with 256 bytes read, assumes little-endian integers, since the terminator then falls on the length behind the buffer; with more than 18 fields, where C writes past its array, the outcome is reported and nothing claimed of memory.
- WattsupPacket.Packet.Write: requires a count of at most 18 and field texts outside the packet's own buffer.
- CStrings.AtoiOfDigits: atoi is modelled without the C library's behaviour on numbers beyond its integer range.
- PmuCounters.Driver.UpdateCounters: totals and the overflow count are unbounded integers, and no update comes before the hardware reset.
- WattsupRetry.ReadData: takes the results of the loop's reads as its input; the reads and writes inside a reset, and the sleeps, are not among them.
- Data races inside a step, volatility, thread shutdown and signals: each step of the ring is atomic.
- IEEE rounding: volts, watts and joules are reals, so the step from converted volts to the floats of a capture file is not modelled.
- Device, kernel, USB, serial and timer calls appear only as the values they return.
- rapl-read, amd-apm-read, the prefetch and branch-predictor modules, and the serial-line tools: register constants and single updates without an invariant.
- wattsup-better.c and dump_watts_ddr4.c: near copies of modelled programs.
