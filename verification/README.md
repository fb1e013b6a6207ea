# Verified model of an open transmission controller

The repository holds the software of a gearbox control unit: a preloader, a bootloader with a KWP 2000
diagnostic server, the control firmware, and the PC flasher that talks to it over CAN or USB. This project
models the parts in which two programs must agree, or in which a mistake is arithmetic, and proves what they
promise for all inputs and all runs. `dafny verify dfyconfig.toml` checks everything.

Code that changes state step by step is modelled as classes and loops. Each such method is proved against a
function on values, and the theorems about whole runs are lemmas about those functions.

| files | what they model |
|---|---|
| `Arithmetic`, `Bytes`, `Flash`, `MemoryMap` | shared arithmetic, machine words, NOR memory (erase sets, programming only clears bits, a QSPI page program wraps in its page), the address ranges |
| `Kwp`, `KwpServer`, `QspiDriver` | the diagnostic server as a state machine on values and as the object the bootloader runs, with its QSPI driver |
| `KwpReplies` | which requests are refused and why, what accepted ones change, and when a session ends |
| `ServerRuns`, `EraseRuns` | what holds of the server under every sequence of commands, background steps and timeouts |
| `DiagTask` | CAN and USB receive interrupts, the one-place signals behind them and the task that feeds the server |
| `FlasherSteps`, `FlasherErase`, `Flasher`, `StaleResults` | the PC flasher run against the server, with the final memory image as the result, and what a left-over erase result does to it |
| `IsoTp`, `IsoTpLink`, `IsoTpReceiver`, `IsoTpFlow` | ISO 15765-2 sender and receiver, the two joined by frame queues, the receiver on any frames at all, and the sender under any flow control |
| `Preloader`, `CrashSafety`, `BootDecision`, `BootRuns`, `BootReasons`, `BootloaderChecks`, `BootloaderUpdate`, `ApplicationChanges` | the bootloader copy under power loss, the boot decision and the session it leads to, whole histories of the boot chain, which checks request the copy, an update from download to jump, and what changes the application unnoticed |
| `LogWriter`, `LogFraming`, `LogReader` | the packetised log and the PC decoders that undo it |
| `UsbDevice`, `UsbStream`, `UsbHost` | the USB byte stream in both directions |
| `Calibrations`, `CalHandshake`, `GearboxModes`, `GearboxStart` | calibration blocks and their checks, their loading over two channels, the mode flags that gate solenoid power, and what start-up ends in |
| `Lookup`, `Maps`, `Ramp`, `Filters`, `Pressure` | axis search, one- and two-dimensional interpolation, the count-down ramp, the integer filter, the working-pressure filter |

## Conventions

- Integers that wrap in the release build wrap in the model: the block and packet counters, `rx_count`,
  16- and 32-bit sums and products, and the casts of the integer filter.
- A slice out of range, or an index out of an array, is modelled as the panic it is: `Crashed`, `None`,
  `Panicked`, `halted` or something that is no longer `alive`, depending on the module. The server by itself is
  given requests with at least a service byte; `DiagTask` feeds it whatever is received.
- What comes from outside (hardware success, clock values, the size a QSPI chip reports, the decompressor's
  output, garbage left by a power failure) is a parameter and arbitrary.
- `f32` values are reals. The working-pressure filter is exact all the same, because its sum fits in 24 bits.
- The CRC is an arbitrary function on byte sequences. The unit that computes it takes whole words only, and the
  model follows it there, because the server turns its refusal into a CRC of 0. One SmartEEPROM update is atomic.
- Flash contents whose CRC is the recorded one count as unchanged since it was recorded. Recorded is what the unit
  itself computes when a check matches, whatever range the tester had asked to compare.

## Where the code differs from what it is meant to do

The model follows the code. Each of these is a theorem.

- A recorded erase result survives everything but a results poll, a timeout and a reset
  (`StaleResults.ResultSurvives`). If a success is left over, the next erase is reported as done by the first
  poll. When the download request is accepted, exactly as many erase commands have been carried out as
  background steps went by after request and poll, up to the first failure (`StaleResults.StaleResultSkipsErase`).
  So the target is blank for every old content and every schedule if and only if no success was left over or two
  commands cover the request; one command, when erase commands may fail (`StaleResults.BlankIff`). Two commands
  cover one or two pages of internal flash; on QSPI one page, or four or eight that begin on a 32 KiB boundary
  (`StaleResults.EraseInTimeIff`). `Flasher.FlashSegment` says what a reported success is worth in every case.
- QSPI data is sent in 256-byte chunks whatever the start address is. A chunk that crosses a page wraps.
  The write is exact if and only if no chunk crosses (`Flash.WriteExactIffPageSafe`).
- The QSPI sector count is doubled in 16 bits. It is right if and only if fewer than 0x8000 blocks are asked
  for (`EraseRuns.RequestedSectors`), and the first wrapped request erases one sector although its count is zero
  (`EraseRuns.WrappedRequestErasesOne`).
- An erase at the bootloader address erases the first application pages without marking the application
  unfinished; an accepted erase of internal flash marks it if and only if it was asked for at another address
  (`BootRuns.EraseMarksIff`), and gates the application if and only if that is so (`BootRuns.EraseGatesIff`).
- Any matching check of any readable range not asked for at the bootloader address clears the application
  marker, whatever it has to do with the application. A range that is not whole words matches exactly when the
  CRC sent is 0, and no CRC is computed (`BootRuns.MarkerClearedIff`). So one of no bytes clears the marker
  (`BootRuns.EmptyCheckClears`), and one of a single byte (`BootRuns.UnalignedCheckClears`).
- A check at the bootloader address requests the copy over the bootloader under the same conditions, whatever its
  length (`BootloaderChecks.CopyRequestedIff`). The CRC that the preloader will compare is recorded only then, of
  whatever is in the scratch area at that moment. So on a unit without a pending update an undisturbed boot after
  one more command or step runs the first cells of the application area if and only if that was such a check
  (`BootloaderChecks.NextBootRuns`); one of no bytes is enough (`BootloaderChecks.EmptyCheckReplacesBootloader`).
- Neither flasher nor server compares the size of a bootloader image with the bootloader's 0x1C000 bytes. A larger
  one is flashed, checked and reported as done, and the preloader copies its first 0x1C000 bytes: the bootloader
  that runs begins with the image if and only if it is no longer than that
  (`BootloaderUpdate.UpdateSurvivesPowerLoss`, `BootloaderUpdate.OversizedUpdateIsTruncated`).
- A download into the application needs no erase and sets no marker. On a unit that could launch its application
  exactly the accepted blocks that clear a bit, and none of the first word, change it so that it is still
  launched (`ApplicationChanges.SilentChangeIff`, `ApplicationChanges.WordChangesSilently`).
- Production dates are accepted from year 24 and with zero day, week or month, but count as set only from year 26
  and without zeros; a unit with another accepted date stays in the bootloader until one that counts is written
  (`BootRuns.BurnedDateCountsIff`).
- The ISO-TP receiver ignores frame numbers (`IsoTpReceiver.NumberIsIgnored`), and gives a payload up when its
  transmitter is busy at the end of a block. It delivers the payload that was sent if and only if the transmitter
  is free for the first frame and at every block end before the last byte, enough frames arrive, and their slices,
  in order of arrival, are the payload's (`IsoTpReceiver.DeliversIff`). Two frames that change places deliver
  another one (`IsoTpReceiver.SwappedFramesDeliverWrong`), and one busy block end loses it
  (`IsoTpReceiver.BusyBlockEndLoses`). After a first frame that was taken some consecutive frames overrun the buffer
  if and only if it declared fewer than six bytes (`IsoTpReceiver.FirstFrameOverrunsIff`).
- A single CAN frame that announces no bytes hands over an empty request, and the server panics on it. When every
  request is taken in time, and first frames declare at least what they carry, the bootloader survives exactly the
  runs without such a frame (`DiagTask.SurvivesIff`).
  The signals hold one request: none is lost if and only if each is taken before the next is complete
  (`DiagTask.NoneLostIff`).
- On CAN a log message is recovered after losses if and only if no frame was empty and it starts with a packet
  numbered 0 or nothing was left over. A single-packet message has no such packet (`LogReader.CanRecovers`). An
  empty frame ends the reader thread for good (`LogReader.CanSurvivesIff`).
- A USB header byte that arrives alone is lost. Once everything has been read, the device has delivered exactly
  the requests if and only if no piece ended inside a header (`UsbStream.RequestsArriveInOrder`).
- The indexed table is read with rows and columns exchanged: it panics for some index unless it is square, and
  off the diagonal it reads another cell (`Calibrations.NeverPanicsIffSquare`, `Calibrations.GetAtIsTransposed`).
  Hence the mechanical calibration check never succeeds and panics on every plausible block
  (`Calibrations.MechCheckNeverSucceeds`), no store leads to a ready gearbox (`CalHandshake.NeverReady`), and
  solenoid power never comes on (`GearboxModes.PowerStaysOffAsShipped`). The handshake and mode theorems are
  proved for every possible check, so they still say something once this one is repaired.
- Clutch index 6 passes the calibration check but names no clutch; such a gear always runs at full pressure
  (`Pressure.AcceptedIndexWithoutClutch`).
- The mode comments say undervoltage is cleared when the voltage returns; the code never clears an error bit
  (`GearboxModes.ErrorsAreNeverCleared`).
- The largest input bound with which no run of the integer filter overflows is 84215
  (`Filters.SafeBoundIs`). With factor 255 the divisor saturates and the output can leave the range between old
  value and input (`Filters.BetweenIff`).

## Model

| member | source | states |
|---|---|---|
| `KwpServer.Server.ProcessCmd` | bootloader/src/kwp.rs:217-286 | every request refreshes timer and long-operation flag and is then handled as the state machine says: session and receiver timing, reset, routines, download, with all error replies; both memories and markers included |
| `KwpServer.Server.Update` | bootloader/src/kwp.rs:130-204 | one background turn: chip identification, tester timeout, then at most one erase command of the pending operation |
| `KwpServer.Server.Crc32` | diag_common/src/hal_extensions/dsu.rs:141-196 | the CRC of a range of whole words, and an error for any other |
| `KwpReplies.RefusedChangesNothing` | bootloader/src/kwp.rs:217-242 | a refused request changes nothing but the clock; the reply to an accepted one begins with its service number plus 0x40 |
| `KwpReplies.NotSupportedIff` | bootloader/src/kwp.rs:221-234 | exactly which service numbers are unknown |
| `KwpReplies.WrongSessionIff` | bootloader/src/kwp.rs:274-286 | reset, routines, results and downloads, and of the services modelled only these, need the programming session |
| `KwpReplies.NotCompleteIff` | bootloader/src/kwp.rs:626-661 | exactly which results polls are told to wait |
| `KwpReplies.OutOfRangeIff` | bootloader/src/kwp.rs:519-545 | exactly which erases and checks are refused for their addresses |
| `KwpReplies.RefusedAddresses` | diag_common/src/diag_core.rs:19-76 | the gaps of the memory map, which no check may begin or end in |
| `KwpReplies.SuspendedIff` | bootloader/src/kwp.rs:704-779 | exactly which blocks suspend a transfer |
| `KwpReplies.SequenceErrorIff` | bootloader/src/kwp.rs:473-661 | exactly which requests come at the wrong time |
| `KwpReplies.InvalidFormatIff` | bootloader/src/kwp.rs:244-702 | exactly which requests are malformed, in the session and at the time where their service is open |
| `KwpReplies.AcceptedReplies` | bootloader/src/kwp.rs:211-242 | the bytes of every positive reply |
| `KwpReplies.SessionEffect` | bootloader/src/kwp.rs:244-272 | a session request sets the session it names and, with four bytes, block size and pause, and nothing else |
| `KwpReplies.ResultsEffect` | bootloader/src/kwp.rs:637-655 | a results poll reports what is recorded, zero for success, once |
| `KwpReplies.DateEffect` | bootloader/src/kwp.rs:495-507 | an accepted date is stored and nothing else changes |
| `KwpReplies.EraseEffect` | bootloader/src/kwp.rs:513-563 | where an accepted erase begins, how many sectors it is of, and all it changes besides |
| `KwpReplies.DownloadEffect` | bootloader/src/kwp.rs:663-702 | where an accepted download begins, with which block number, format and memory |
| `KwpReplies.CheckEffect` | bootloader/src/kwp.rs:584-619 | a matching check clears marker and version block of its part and records the CRC of the whole of it; any other changes nothing |
| `KwpReplies.SessionEndsIff` | bootloader/src/kwp.rs:137-146 | whatever background steps follow a request, they end the session exactly when one comes more than 2500 ms later, unless the request was an accepted block for the QSPI chip |
| `KwpReplies.SizeIsFirstFound` | bootloader/src/kwp.rs:131-136 | in every run the chip size is the first one other than zero that the chip reported |
| `QspiDriver.QspiStorage.Write` | diag_common/src/qspi_driver.rs:103-125 | the chunk loop programs what the page-by-page function says and issues those commands |
| `Flash.SafeWriteIsLinear` | diag_common/src/qspi_driver.rs:114-124 | chunks that cross no page put every byte where it belongs |
| `Flash.WriteExactIffPageSafe` | diag_common/src/qspi_driver.rs:114-124 | the chunked write is exact for all data if and only if no chunk crosses a page |
| `Flash.WriteOnlyClears` | diag_common/src/qspi_driver.rs:114-124 | a write of any data at any address never raises a cell |
| `Flash.WriteClearsBits` | diag_common/src/qspi_driver.rs:114-124 | a bit is set afterwards exactly when it was set before and is set in the data |
| `ServerRuns.BootCodeIsNeverTouched` | bootloader/src/kwp.rs:519-563 | no sequence of commands, steps and timeouts changes preloader or running bootloader |
| `ServerRuns.UnlockedIff` | bootloader/src/kwp.rs:244-272 | outside the programming session with nothing pending, exactly the request for that session unlocks the server, and no step touches a store |
| `ServerRuns.LockedUntilOpened` | bootloader/src/kwp.rs:217-242 | in every run that never opens the programming session, flash memories and markers stay as they are |
| `ServerRuns.TimeoutLocks` | bootloader/src/kwp.rs:137-146 | a tester timeout drops whatever was pending or completed and locks the server |
| `ServerRuns.AcceptedBlocksAreInMemory` | bootloader/src/kwp.rs:704-779 | after every run the accepted blocks were numbered 0, 1, 2, ... modulo 256, the server stands behind them, and where memory was blank it holds their concatenation and then blank cells |
| `ServerRuns.TransferAcceptedIff` | bootloader/src/kwp.rs:704-779 | exactly when a block is accepted; a refused one changes neither memory nor position |
| `ServerRuns.DownloadHoldsOffErase` | bootloader/src/kwp.rs:147-204 | no background step erases or programs while a download is pending |
| `EraseRuns.ErasedPrefix` | bootloader/src/kwp.rs:173-200 | at every point of every run exactly a prefix of the requested sectors is erased, each once |
| `EraseRuns.EraseCompletes` | bootloader/src/kwp.rs:173-200 | undisturbed, the mixed erase ends within its sector count and records success |
| `EraseRuns.QspiEraseCoverage` | bootloader/src/kwp.rs:173-200 | each requested sector is erased exactly once, no other is touched, the count is never overshot |
| `EraseRuns.RequestedSectors` | bootloader/src/kwp.rs:546-555 | the sector count is twice the block count if and only if that fits in 16 bits |
| `EraseRuns.WrappedRequestErasesOne` | bootloader/src/kwp.rs:173-200 | a request whose count wrapped to zero still erases one sector and reports success |
| `Flasher.Session.Exchange` | bootloader/src/main.rs:499-523 | a request, its reply, and one or more background steps at arbitrary times before the tester timeout |
| `FlasherErase.ErasingRun` | bootloader/src/kwp.rs:147-204 | in any prompt run an erase under way is brought on by exactly one command a step until one fails or all is erased, and success is recorded exactly in the latter case |
| `FlasherErase.FewCommandsCover` | bootloader/src/kwp.rs:178-186 | exactly which requests one and two erase commands cover, on both memories |
| `Flasher.EraseTarget` | flasher/src/main.rs:578-623 | the polling loop ends; a reported success means that at least the assured commands, and without a left-over success all of them, are carried out and nothing else changed |
| `Flasher.Transfer` | flasher/src/main.rs:503-551 | from the download request to the exit, on any server in the programming session: success means the image is programmed over what was there |
| `Flasher.SendBlocks` | flasher/src/main.rs:526-549 | client and server counters agree before every block, also across 256, and the received prefix is in memory |
| `Flasher.CheckImage` | flasher/src/main.rs:555-572 | success exactly when the CRC of what lies at the target is the image's, or, for an image that is not whole words, when the image's CRC is 0; then the markers of that part are set |
| `Flasher.FlashSegment` | flasher/src/main.rs:479-576 | what a reported success is worth, for every server and timing and every image that fits where it goes, up to the end of the flash for a bootloader image: exactly the image and then blank cells in its pages, nothing else changed and no page crossed; over an assured part of the erase only, when a success was left over; on fault-free hardware success exactly for a non-empty image of whole words and a ready server |
| `StaleResults.ResultSurvives` | bootloader/src/kwp.rs:626-661 | among commands only a results poll in the programming session takes a recorded result away |
| `StaleResults.StaleResultSkipsErase` | bootloader/src/kwp.rs:637-648 | with a success left over, for every schedule and both memories: one poll suffices, the download is accepted, and exactly how many erase commands have been carried out by then |
| `StaleResults.FreshResultIsTrue` | flasher/src/main.rs:591-621 | without one a reported success means the whole target is blank, whatever the timing and the faults |
| `StaleResults.BlankIff` | flasher/src/main.rs:499-507 | the target is blank for every old content and schedule if and only if no success is left over or the commands that are certain cover the request |
| `StaleResults.EraseInTimeIff` | flasher/src/main.rs:499-507 | the same in numbers of pages and alignment, for internal flash and for QSPI |
| `IsoTp.InterruptHandler.OnFrameRx` | diag_common/src/isotp_endpoints/can_isotp.rs:117-209 | the receive interrupt over its fixed buffer is the receiver's step function, for every frame |
| `IsoTp.InterruptHandler.OnConsecutiveRx` | diag_common/src/isotp_endpoints/can_isotp.rs:157-199 | reassembly, hand-over, block-wise flow control, and the slice that runs past the buffer |
| `IsoTp.NextFrame` | diag_common/src/isotp_endpoints/can_isotp.rs:333-337 | a consecutive frame out of the reused buffer, with stale padding |
| `IsoTp.SendBlock` | diag_common/src/isotp_endpoints/can_isotp.rs:330-346 | the inner loop queues a block's frames and stops where the step machine stops |
| `IsoTp.SingleFrame` | diag_common/src/isotp_endpoints/can_isotp.rs:282-291 | payloads below eight bytes go out in one frame |
| `IsoTp.FirstFrame` | diag_common/src/isotp_endpoints/can_isotp.rs:294-302 | twelve length bits and six bytes |
| `IsoTp.WritePayload` | diag_common/src/isotp_endpoints/can_isotp.rs:276-365 | for every list of flow-control messages the frames queued and the outcome are those of the step machine |
| `IsoTpReceiver.FirstFrameOverrunsIff` | diag_common/src/isotp_endpoints/can_isotp.rs:129-170 | after a first frame that finds the transmitter free some consecutive frames overrun the buffer if and only if it declares fewer than six bytes; after one that does not, exactly those that would have anyway |
| `IsoTpReceiver.HonestFramesStayInBuffer` | diag_common/src/isotp_endpoints/can_isotp.rs:117-209 | however frames are lost, repeated or reordered and whenever the transmitter is busy, first frames that declare enough never let the buffer overrun |
| `IsoTpReceiver.NumberIsIgnored` | diag_common/src/isotp_endpoints/can_isotp.rs:157-199 | the number of a consecutive frame has no effect |
| `IsoTpReceiver.DeliversIff` | diag_common/src/isotp_endpoints/can_isotp.rs:129-199 | after the first frame of a payload it is delivered if and only if the transmitter is free for that frame and at every block end before the last byte and enough frames come whose slices are the payload's in order of arrival; with other slices another of the same length is, otherwise none |
| `IsoTpReceiver.FeedGathers` | diag_common/src/isotp_endpoints/can_isotp.rs:157-199 | from any point of a reassembly on, for every list of consecutive frames and every pattern of busy transmitters, exactly what is delivered |
| `IsoTpReceiver.SwappedFrames` | diag_common/src/isotp_endpoints/can_isotp.rs:157-199 | two frames that change places deliver the right payload if and only if their slices are equal and an answer due between them can be given |
| `IsoTpReceiver.SwappedFramesDeliverWrong` | diag_common/src/isotp_endpoints/can_isotp.rs:157-174 | a payload for which they are not, and what is delivered instead |
| `IsoTpReceiver.BusyBlockEndLoses` | diag_common/src/isotp_endpoints/can_isotp.rs:175-193 | the same payload in order, with a busy transmitter at its one block end, is not delivered |
| `IsoTpReceiver.EmptyFrameDelivers` | diag_common/src/isotp_endpoints/can_isotp.rs:120-128 | a single frame may hand over an empty payload |
| `IsoTpReceiver.OtherFramesIgnored` | diag_common/src/isotp_endpoints/can_isotp.rs:118-209 | frames of another length or of no known kind change nothing wherever they come |
| `IsoTpReceiver.FlowControlPasses` | diag_common/src/isotp_endpoints/can_isotp.rs:200-206 | flow control between the frames of a payload leaves reassembly and payloads alone |
| `IsoTpFlow.WaitIsIgnored` | diag_common/src/isotp_endpoints/can_isotp.rs:304-350 | a wait frame anywhere among the answers changes neither the frames sent nor the outcome |
| `IsoTpFlow.RejectEnds` | diag_common/src/isotp_endpoints/can_isotp.rs:350-362 | a reject that finds the sender waiting ends it as rejected with exactly one more frame |
| `IsoTpFlow.GoAheadSendsBlock` | diag_common/src/isotp_endpoints/can_isotp.rs:318-346 | a go-ahead brings as many frames as its second byte says, all for zero, and the transfer is over exactly when that was all |
| `IsoTpFlow.AnswersAreGoAheads` | diag_common/src/isotp_endpoints/can_isotp.rs:129-193 | the receiver's answers have block size and pause in the same places |
| `DiagTask.NoneLostIff` | bootloader/src/main.rs:499-523 | over every run of both receive interrupts and the task, every completed request is taken or waits if and only if each was taken before the next on its side was complete |
| `DiagTask.SurvivesIff` | bootloader/src/kwp.rs:217-221 | if they are taken in time and first frames declare at least what they carry, the bootloader survives a run if and only if no single frame in it announces zero bytes |
| `DiagTask.NonemptyFramesAreSafe` | bootloader/src/main.rs:499-523 | without such a frame it survives whatever is lost |
| `DiagTask.TakenIsServed` | bootloader/src/main.rs:499-523 | in every run that is survived the server has been given exactly the payloads taken, CAN before USB, and a background step after each turn |
| `DiagTask.AllRequestsAreServed` | bootloader/src/main.rs:499-523 | taken in time, every request that either receiver completes is served, each side's in order, and nothing else is |
| `DiagTask.UsbRequestsAreServed` | diag_common/src/isotp_endpoints/usb_isotp.rs:63-102 | from the PC's USB port to the server: requests cut in any way that leaves headers whole are all served, in order |
| `DiagTask.SignalsHoldTheNewest` | diag_common/src/isotp_endpoints/can_isotp.rs:109-128 | what waits in a signal is always what was completed last |
| `DiagTask.FramesAreFed` | bootloader/src/main.rs:590-600 | between two turns the CAN side is the ISO-TP receiver with the server's pause and block size |
| `DiagTask.SessionSetsTiming` | bootloader/src/main.rs:596-598 | a first frame after a four-byte session request is taken with the pause and block size of that request |
| `IsoTpLink.StepKeepsInvariant` | diag_common/src/isotp_endpoints/can_isotp.rs:117-365 | every step of either node keeps both block counters in lockstep and the frames in order |
| `IsoTpLink.NeverStuck` | diag_common/src/isotp_endpoints/can_isotp.rs:276-365 | an unfinished transfer always has an enabled step |
| `IsoTpLink.StepLowersMeasure` | diag_common/src/isotp_endpoints/can_isotp.rs:276-365 | every step brings the transfer closer to its end |
| `IsoTpLink.TransferIsReliable` | diag_common/src/isotp_endpoints/can_isotp.rs:117-365 | for every payload of 0 to 4095 bytes, block size and interleaving, with a transmitter that takes every answer: bounded, deadlock-free, delivered exactly once, frames numbered 1, 2, ... modulo 16, and no flow control beyond what the blocks need |
| `IsoTpLink.PositionsAgree` | diag_common/src/isotp_endpoints/can_isotp.rs:157-170 | in every state of every run, what the sender has sent is what the receiver holds or has handed over plus the bytes in flight, the frames in flight carry the next numbers, and at most one flow control is under way |
| `Preloader.RegionsMatch` | diag_common/src/lib.rs:89-133 | the bootloader's block count, size and page count agree, so erase and copy cover the same range |
| `Preloader.Board.EraseBootloader` | preloader/src/main.rs:155-158 | the erase loop, cut by power loss at any block, is the step machine |
| `Preloader.Board.CopyScratch` | preloader/src/main.rs:160-165 | the copy loop, cut at any page, is the step machine |
| `Preloader.Board.Run` | preloader/src/main.rs:139-190 | the whole copy section up to the jump or the power failure |
| `CrashSafety.StepKeepsDestiny` | preloader/src/main.rs:139-182 | no complete step changes the image that will be jumped to |
| `CrashSafety.TornKeepsDestiny` | preloader/src/main.rs:139-182 | nor does a step cut in the middle, whatever it leaves behind |
| `CrashSafety.AttemptKeepsDestiny` | preloader/src/main.rs:139-190 | a power-up of any length jumps to the destined image or leaves it destined, and touches nothing else |
| `CrashSafety.JumpIsSafe` | preloader/src/main.rs:139-190 | after any number of power failures anywhere the bootloader jumped to is the old one or, if the scratch area still has the CRC recorded when the copy was requested, all of its first 0x1C000 bytes |
| `CrashSafety.EnoughPowerJumps` | preloader/src/main.rs:139-190 | a power-up long enough always reaches the jump |
| `CrashSafety.PendingUpdateCompletes` | preloader/src/main.rs:150-181 | a requested copy of a scratch area that still has its recorded CRC is complete at the next uninterrupted boot |
| `CrashSafety.JumpRecordsCrc` | preloader/src/main.rs:167-182 | a request stays pending until the jump, which records the CRC of the bootloader jumped to; without one nothing changes |
| `BootloaderUpdate.UpdateSurvivesPowerLoss` | preloader/src/main.rs:139-190 | after a flashed and checked bootloader image of any size, whatever power failures follow, the bootloader jumped to begins with that image if and only if it has at most 0x1C000 bytes, and is cut off there otherwise; one undisturbed power-up is enough |
| `BootloaderUpdate.OversizedUpdateIsTruncated` | preloader/src/main.rs:160-165 | for every larger image the check matches and an undisturbed boot jumps to its first 0x1C000 bytes |
| `BootloaderUpdate.FlashAndBoot` | flasher/src/main.rs:375-477 | flashing and booting without faults and left-over results: success is always reported, and the image runs if and only if it has at most 0x1C000 bytes |
| `BootDecision.DecideBoot` | bootloader/src/main.rs:235-308 | the flags updated step by step amount to one reason, the application is launched exactly without one, and the receiver timing is the application's exactly when it asked for diagnostics with one |
| `BootReasons.ReasonIs` | bootloader/src/main.rs:235-292 | the exact condition of every reason and of the launch: pin, watchdog, date, then what the application left in RAM, then the application itself |
| `BootReasons.SessionAfterBoot` | bootloader/src/main.rs:250-258 | after a power-up the server is in the programming session exactly when the application had asked for diagnostics and nothing on the board comes before; it has the timing handed over then, and 2 and 8 otherwise |
| `BootReasons.SessionAfterHistory` | bootloader/src/main.rs:469-472 | after any history too |
| `BootReasons.PowerCycleKeepsStores` | preloader/src/main.rs:139-190 | off and on again loses nothing of either memory but what the preloader copies, nor the application's markers |
| `BootRuns.HistoryIsSafe` | preloader/src/main.rs:139-190 | over whole histories of power failures, resets, commands and steps the running bootloader is the one jumped to |
| `BootRuns.EveryJumpIsSafe` | preloader/src/main.rs:139-190 | after any history a jump finds the earlier image or the scratch prefix with the CRC that the unit recorded at the request |
| `BootRuns.OnlyCheckClearsMarker` | bootloader/src/kwp.rs:584-612 | the unfinished marker is cleared by a matching application check and by nothing else |
| `BootRuns.MarkerClearedIff` | bootloader/src/kwp.rs:565-620 | exactly which checks clear the application marker: of any readable range not asked for at the bootloader address, with the CRC of whole words or with 0 for any other range |
| `BootRuns.UnalignedCheckClears` | bootloader/src/kwp.rs:583-612 | a check of one byte with 0 for its CRC clears it |
| `BootRuns.EmptyCheckClears` | bootloader/src/kwp.rs:580-612 | a check of no bytes clears it, whatever is in the flash |
| `BootRuns.EraseMarksIff` | bootloader/src/kwp.rs:519-563 | an accepted erase of internal flash marks the application unfinished, before any sector is erased, if and only if it was not asked for at the bootloader address |
| `BootRuns.ResetCarriedOutIff` | bootloader/src/kwp.rs:148-151 | the next background step carries a pending reset out exactly when it beats the tester timeout |
| `BootRuns.GateHolds` | bootloader/src/main.rs:283-308 | a marked application is not launched in any history without a matching check |
| `BootRuns.EraseGatesApplication` | bootloader/src/kwp.rs:521-529 | from such an erase at any other address on, no boot launches the application before a check has matched |
| `BootRuns.EraseGatesIff` | bootloader/src/main.rs:283-308 | on a unit that could start its application, an accepted erase gates it if and only if it was not asked for at the bootloader address |
| `BootRuns.BurnedDateCountsIff` | bootloader/src/kwp.rs:495-507 | exactly which accepted production dates count as set; any other keeps every boot in the bootloader and can be replaced |
| `BootloaderChecks.OnlyCheckRequestsCopy` | bootloader/src/kwp.rs:584-599 | the copy is requested by a matching check at the bootloader address and by nothing else, and then the scratch area has the recorded CRC |
| `BootloaderChecks.CopyRequestedIff` | bootloader/src/kwp.rs:565-599 | exactly which checks request it: at the bootloader address, of any length that ends in readable memory, with the CRC of that many bytes of the scratch area, or with 0 when they are not whole words |
| `BootloaderChecks.UnalignedCheckRequestsCopy` | bootloader/src/kwp.rs:583-599 | a check of one byte with 0 for its CRC does, whatever is in the scratch area |
| `BootloaderChecks.EmptyCheckRequestsCopy` | bootloader/src/kwp.rs:583-599 | and so does one of no bytes |
| `BootloaderChecks.NextBootRuns` | preloader/src/main.rs:139-190 | without a pending update, the next undisturbed boot after any command or step runs the scratch prefix if and only if that was a matching check at the bootloader address, and otherwise the bootloader that is there |
| `BootloaderChecks.EmptyCheckReplacesBootloader` | preloader/src/main.rs:150-181 | after a check of no bytes the application's first cells are copied over the bootloader and jumped to |
| `ApplicationChanges.SilentChangeIff` | bootloader/src/kwp.rs:704-779 | in every reachable state, exactly which commands and steps change internal flash and leave the application launchable |
| `ApplicationChanges.WordChangesSilently` | bootloader/src/kwp.rs:664-779 | two requests clear a word of the application, and the next boot launches it |
| `LogWriter.BufferedDefmtWriter.Write` | diag_common/src/defmt_multi_output.rs:67-111 | buffer, packet number and packets sent after one write, for every answer of the transport |
| `LogWriter.BufferedDefmtWriter.PumpOut` | diag_common/src/defmt_multi_output.rs:80-105 | the packet loop sends what the recursive packet function says |
| `LogWriter.BufferedDefmtWriter.RotateLeft` | diag_common/src/defmt_multi_output.rs:106-109 | the unsent bytes move to the front and none is lost |
| `LogWriter.InUseLogger.Write` | diag_common/src/defmt_multi_output.rs:145-154 | writes go out in 8-byte packets on CAN and 32-byte packets on USB |
| `LogWriter.InUseLogger.Release` | diag_common/src/defmt_multi_output.rs:156-165 | the release flushes the message |
| `LogFraming.Conservation` | diag_common/src/defmt_multi_output.rs:72-110 | payload sent followed by the queue is the accepted writes, in order, whatever the transport refuses; packets before the end are full |
| `LogFraming.EncodeIsMessage` | diag_common/src/defmt_multi_output.rs:84-100 | a message of any length is numbered 0, 1, ..., 0xEF, 1, ... packet by packet, closed by 0xFF, and carries exactly its bytes |
| `LogFraming.MessageNumbers` | diag_common/src/defmt_multi_output.rs:84-100 | whatever the transport refuses, what it takes before the end of a message is numbered one after the other without a gap |
| `LogFraming.PacketNumberIs` | diag_common/src/defmt_multi_output.rs:84-100 | the numbers run 0, 1, ..., 0xEF and then over again from 1 |
| `LogFraming.LogMessage` | diag_common/src/defmt_multi_output.rs:144-166 | the writes and the release of one message, over a transport that takes every packet, send exactly that message's packets |
| `LogReader.FrameReader.CanPacket` | flasher/src/defmt.rs:101-113 | one CAN packet in the reader loop, an empty one included |
| `LogReader.FrameReader.UsbPacket` | flasher/src/usb_diag_compat.rs:58-64 | one USB log packet in the reader loop, an empty one included |
| `LogReader.CanDelivers` | flasher/src/defmt.rs:92-114 | a message read behind anything is delivered whole, or appended to what was left over when it is one packet |
| `LogReader.LogRoundTrip` | flasher/src/defmt.rs:92-114 | for every list of messages both decoders give exactly the bytes of each, in order |
| `LogReader.CanSurvivesIff` | flasher/src/defmt.rs:95-102 | the reader thread survives exactly as long as no frame is empty, and then delivers nothing more |
| `LogReader.UsbSurvivesIff` | flasher/src/usb_diag_compat.rs:58-64 | and the USB reader exactly as long as no log packet is |
| `LogReader.CanRecovers` | flasher/src/defmt.rs:101-113 | after any noise the next message is intact if and only if no frame was empty and it starts with packet 0 or nothing was left over |
| `LogReader.ReservedNumbersIgnored` | flasher/src/defmt.rs:101-113 | packets numbered 0xF0 to 0xFE change nothing wherever they come |
| `UsbDevice.InterruptHandler.Poll` | diag_common/src/isotp_endpoints/usb_isotp.rs:63-87 | one poll over whatever pieces have arrived, header and body |
| `UsbDevice.InterruptHandler.ReadAvailable` | diag_common/src/isotp_endpoints/usb_isotp.rs:76-85 | the body loop reads until the request is complete or nothing is left |
| `UsbStream.RequestsArriveInOrder` | diag_common/src/isotp_endpoints/usb_isotp.rs:63-87 | for every cutting of the stream and every schedule: once everything is read, exactly the requests have been delivered if and only if no header was cut; with whole headers a prefix has at any time |
| `UsbStream.PollProgresses` | diag_common/src/isotp_endpoints/usb_isotp.rs:63-87 | a poll that finds something reads some of it |
| `UsbStream.LoneHeaderByteIsLost` | diag_common/src/isotp_endpoints/usb_isotp.rs:65-75 | a header byte that arrives alone is read and forgotten |
| `UsbHost.SerialOut.WriteReply` | diag_common/src/isotp_endpoints/usb_isotp.rs:110-122 | a reply is framed as one record, or refused when too long |
| `UsbHost.SerialOut.WriteLog` | diag_common/src/defmt_multi_output.rs:130-142 | a log packet is framed as one record, or nothing is written |
| `UsbHost.ReaderThread.Run` | flasher/src/usb_diag_compat.rs:39-70 | the reader loop sorts a byte stream record by record, and ends at a record it panics on |
| `UsbHost.Demultiplexed` | flasher/src/usb_diag_compat.rs:39-70 | any interleaving of records gives back the replies and the log packets, each in order |
| `UsbHost.ReplyAndLogRoundTrip` | flasher/src/usb_diag_compat.rs:39-70 | replies and whole log messages come out complete and in order |
| `UsbHost.RecordLayout` | diag_common/src/isotp_endpoints/usb_isotp.rs:110-122 | length, low byte first, type and body of a record |
| `UsbHost.OtherRecords` | flasher/src/usb_diag_compat.rs:50-68 | a record of another type is skipped as a whole |
| `UsbHost.PartialRecordWaits` | flasher/src/usb_diag_compat.rs:39-70 | a record that has only come in part is waited for |
| `UsbHost.EmptyRecord` | flasher/src/usb_diag_compat.rs:50-68 | one without a type ends the thread |
| `Calibrations.GetAtIsTransposed` | egs_maths/src/maps.rs:83-97 | an access reads the cell meant if and only if both indices are equal |
| `Calibrations.NeverPanicsIffSquare` | egs_maths/src/maps.rs:83-97 | every in-range access succeeds if and only if the table is square |
| `Calibrations.FrictionPanicsInReverse` | egs_logic/src/calbrations/mech.rs:94-96 | a friction lookup panics exactly in the reverse gears |
| `Calibrations.MechCheckNeverSucceeds` | egs_logic/src/calbrations/mech.rs:56-92 | an implausible block is invalid and every plausible one panics |
| `Calibrations.ForwardCheckIff` | egs_logic/src/calbrations/mech.rs:56-82 | over the forward gears alone the check passes exactly when no listed friction value is zero |
| `CalHandshake.EgsCalStorage.InitPoll` | firmware/src/egs_logic_impl.rs:63-115 | one poll is the client step of the interleaving model, whatever the storage task is doing, and judges what has arrived |
| `CalHandshake.EgsCalStorage.SendNext` | firmware/src/egs_logic_impl.rs:65-74 | the next request goes out when there is room, and only then the state moves on |
| `CalHandshake.EgsCalStorage.ReceiveOne` | firmware/src/egs_logic_impl.rs:75-99 | one answer is stored under its own flag, a missing one as the default |
| `CalHandshake.EgsCalStorage.CheckLoaded` | firmware/src/egs_logic_impl.rs:100-111 | waiting, ready, error or panic from what has arrived |
| `CalHandshake.Commander.Recv` | firmware/src/tasks/qspi_commander.rs:23-24 | is the taking step of the interleaving model, and happens exactly when that step is enabled |
| `CalHandshake.Commander.Send` | firmware/src/tasks/qspi_commander.rs:25-44 | is its answering step, with the store's answer, and happens exactly when that step is enabled |
| `CalHandshake.MoveKeepsInvariant` | firmware/src/egs_logic_impl.rs:62-116 | in every interleaving the four requests stay in the pipeline exactly once and in order |
| `CalHandshake.Stations` | firmware/src/egs_logic_impl.rs:65-99 | unsent, queued, in service, answered and received add up to four |
| `CalHandshake.HopsDrop` | firmware/src/tasks/qspi_commander.rs:22-47 | every step that does something lowers the hop count, any other changes nothing |
| `CalHandshake.StuckOnlyWhenDone` | firmware/src/egs_logic_impl.rs:62-116 | until all four have arrived some step makes progress; then channels are empty and the storage task idle |
| `CalHandshake.CanFinish` | firmware/src/egs_logic_impl.rs:62-116 | every reachable state can be brought to the end |
| `CalHandshake.HandshakeIsDeterministic` | firmware/src/egs_logic_impl.rs:62-116 | in every run at most sixteen steps do anything, and the outcome is decided by the store alone |
| `CalHandshake.NeverReady` | firmware/src/egs_logic_impl.rs:101-108 | with the shipped check no store leads to ready, and a missing block leads to an error |
| `GearboxModes.Gearbox.Update` | egs_logic/src/lib.rs:162-220 | one cycle: start-up, slave mode, or control with its safety step and outputs |
| `GearboxModes.Gearbox.PollStorages` | egs_logic/src/lib.rs:165-189 | the loop over the storages leaves start-up exactly as the calibration's outcome says |
| `GearboxModes.Gearbox.CalculateSolenoidStatus` | egs_logic/src/shifting_algos/mod.rs:99-114 | the drive outputs, zero with an error |
| `GearboxModes.PowerNeedsCalibrations` | egs_logic/src/lib.rs:162-220 | in every reachable state power implies four arrived calibrations, both checked ones good and the hydraulic one from the store |
| `GearboxModes.PowerStaysOffAsShipped` | egs_logic/src/lib.rs:162-220 | with the shipped check power never comes on |
| `GearboxModes.ErrorsAreNeverCleared` | egs_logic/src/lib.rs:162-225 | no run clears an error bit |
| `GearboxModes.ErrorSwitchesOff` | egs_logic/src/lib.rs:194-218 | once an error is set every later control cycle ends with all outputs off and the gearbox reported faulty, and with the warning light exactly in a permanent emergency |
| `GearboxModes.PowerInErrorIff` | egs_logic/src/lib.rs:163-196 | power survives an error if and only if the cycle was a start-up or slave cycle and power was on |
| `GearboxStart.StartUpEndsAsStored` | egs_logic/src/lib.rs:162-193 | in every run that nobody else sets a flag in: start-up mode until the last calibration is in, then the temporary emergency mode or none, as the store decides; never the warning light |
| `GearboxStart.EmergencyCycle` | egs_logic/src/signal_processing/mod.rs:63-72 | a control cycle after an error at start-up switches everything off, without the warning light |
| `GearboxStart.WorkingCycle` | egs_logic/src/shifting_algos/mod.rs:99-114 | one after a start-up without error gives what the shift logic asks for, with power |
| `GearboxStart.SlaveCyclesIdle` | egs_logic/src/lib.rs:194-197 | control cycles in slave mode change nothing |
| `GearboxStart.ShippedStart` | egs_logic/src/calbrations/mech.rs:84-92 | as shipped, in the numbers of the blocks: which stores lead to an error, and that all others panic |
| `Lookup.SearchValue` | egs_maths/src/lib.rs:70-107 | the search loop gives the pair of the specification on every axis, monotone or not |
| `Lookup.SearchBrackets` | egs_maths/src/lib.rs:70-107 | on strictly monotone axes, either way: neighbours around a value strictly inside, the knot itself on a knot, the nearest end outside |
| `Lookup.FoundIsCellOrEnd` | egs_maths/src/lib.rs:70-107 | on any axis at all, monotone or not, the knots found are neighbours around the value in the first cell that holds it, or an end; the search never falls through |
| `Lookup.InterpIsLine` | egs_maths/src/lib.rs:14-47 | for all inputs, reversed ones included, a point on the line at a clamped fraction |
| `Lookup.LookupIsChord` | egs_maths/src/maps.rs:38-51 | on every cell of an ascending or descending axis, both ends included, the lookup is that cell's chord |
| `Lookup.LookupExactAtKnots` | egs_maths/src/maps.rs:38-51 | exact at every knot |
| `Lookup.LookupOfClamped` | egs_maths/src/maps.rs:38-51 | outside the axis the value at the nearest end |
| `Lookup.LookupStaysBetween` | egs_maths/src/maps.rs:38-51 | on any axis between the two selected values |
| `Lookup.LookupRises` | egs_maths/src/maps.rs:38-51 | a rising table gives a rising lookup across all cells, for ascending and descending axes |
| `Lookup.LookupFalls` | egs_maths/src/maps.rs:38-51 | and a falling one a falling lookup |
| `Lookup.TupleMapIsMap` | egs_maths/src/maps.rs:12-22 | a tuple map looks up what a map over the same axis and values does |
| `Maps.IsTwoLookups` | egs_maths/src/maps.rs:130-152 | the bilinear lookup is two one-dimensional lookups, on any axes |
| `Maps.OrderDoesNotMatter` | egs_maths/src/maps.rs:130-152 | x before y and y before x give the same, on any axes and at any point |
| `Maps.BetweenTheCorners` | egs_maths/src/maps.rs:130-152 | between the least and greatest of the four selected corners, on any axes |
| `Maps.ExactOnTheGrid` | egs_maths/src/maps.rs:130-152 | at every grid point the table value in its row and column |
| `Maps.ClampedOutside` | egs_maths/src/maps.rs:130-152 | outside, the value at the nearest point of the edge |
| `Maps.MonotoneAlongX` | egs_maths/src/maps.rs:130-152 | along x rises or falls across all cells as the table does, on ascending and descending axes |
| `Maps.MonotoneAlongY` | egs_maths/src/maps.rs:130-152 | likewise along y |
| `Ramp.EgsCountDownTimer.RampBy` | egs_maths/src/egs_timers.rs:58-72 | driven cycle by cycle, the value is the closed form after any number of cycles and the target once the timer has ended |
| `Ramp.RampIsStraight` | egs_maths/src/egs_timers.rs:28-40 | re-anchored at its own output the ramp is the exact straight line over the reals |
| `Ramp.StepIsFloor` | egs_maths/src/egs_timers.rs:28-40 | the whole-number step is the real one cut off, in both directions |
| `Ramp.RemainingStep` | egs_maths/src/egs_timers.rs:28-40 | the closed form q(n-k)+min(r,n-k) rising and q(n-k)+max(r-k,0) falling is kept by every step |
| `Ramp.RampNeverOvershoots` | egs_maths/src/egs_timers.rs:28-40 | every value of the ramp lies between start and target |
| `Filters.FilteredMonitoredVal.AddValidValue` | egs_maths/src/filters.rs:45-50 | the new state after a valid sample, with 32-bit arithmetic |
| `Filters.FilteredMonitoredVal.MarkInvalid` | egs_maths/src/filters.rs:52-54 | the saturating error count |
| `Filters.SampleStaysInRange` | egs_maths/src/lib.rs:65-68 | in range no operation overflows, the result is exact and stays in range |
| `Filters.BoundedRunsAreExact` | egs_maths/src/filters.rs:45-50 | no run of any length with inputs within 84215 and factors to 254 overflows |
| `Filters.SafeBoundIs` | egs_maths/src/filters.rs:45-50 | a bound is safe for all runs if and only if it is at most 84215 |
| `Filters.OutputBetween` | egs_maths/src/lib.rs:65-68 | the output lies between old value and input |
| `Filters.BetweenIff` | egs_maths/src/lib.rs:66 | it does so for all inputs if and only if the factor is at most 254 |
| `Filters.ComesCloser` | egs_maths/src/lib.rs:65-68 | outside a band as wide as the factor the distance strictly shrinks, and it never grows |
| `Filters.DistanceShrinksByFactor` | egs_maths/src/lib.rs:65-68 | one sample leaves the old distance times factor over factor plus one, to within one |
| `Filters.Settles` | egs_maths/src/lib.rs:65-68 | under a constant input the band is reached within the distance in samples and never left |
| `Filters.DecaysToZero` | egs_maths/src/lib.rs:65-68 | with input zero the filter reaches exactly zero |
| `Filters.SettledValueIsReading` | egs_maths/src/filters.rs:33-50 | after enough equal readings the value handed out is the reading, to within one more than a hundredth of the factor |
| `Filters.ValueLostIff` | egs_maths/src/filters.rs:33-39 | in every run the value is lost if and only if monitoring is on and that many readings were invalid in all |
| `Pressure.DefinedIff` | egs_logic/src/hydraulics/mod.rs:86-115 | the pressure is defined except exactly in the reverse gears with a real clutch |
| `Pressure.PressureIs` | egs_logic/src/hydraulics/mod.rs:86-140 | in a forward gear and not falling, for every pressure: reached exactly when it is no more than the least pressure, or within the limit and carried by torque, friction cell, release spring, extra pressure and multiplier beyond the regulator spring |
| `Pressure.PressureFormula` | egs_logic/src/hydraulics/mod.rs:115-132 | strictly between least pressure and limit it is exactly that load cut off, and at either what this says about the load |
| `Pressure.PressureWithoutClutch` | egs_logic/src/hydraulics/mod.rs:93-114 | the least pressure in neutral, and the limit in a gear without a clutch |
| `Pressure.FallsToMean` | egs_logic/src/hydraulics/mod.rs:133-139 | from above it comes down to the weighted mean cut off, from below it rises at once |
| `Pressure.AcceptedIndexWithoutClutch` | egs_logic/src/hydraulics/mod.rs:100-114 | the one accepted index without a clutch gives full pressure whatever else holds |
| `Pressure.SolenoidHoldsClutch` | egs_logic/src/hydraulics/mod.rs:127-132 | solenoid and spring together hold the clutch to within one unit, no more than needed, up to the solenoid's limit |
| `Pressure.OtherMultiplierIsUnused` | egs_logic/src/hydraulics/mod.rs:122-126 | each gear depends on its own multiplier only |
| `Pressure.DropIsBetween` | egs_maths/src/lib.rs:60-63 | a falling step goes down by at least one and not below the target |
| `Pressure.PressureSettles` | egs_logic/src/hydraulics/mod.rs:86-140 | run on itself the pressure rises to the need in one cycle, falls strictly to exactly it within its distance, and never goes below need or least pressure |
| `Pressure.MoreTorqueNoLessPressure` | egs_logic/src/hydraulics/mod.rs:115-140 | a greater torque, either way round, never gives a lower pressure |

## Left out

- HAL, registers, clocks, task scheduling, LEDs and timing delays, STmin among them: hardware that is not visible here.
- QSPI opcodes and mode switching: the erases are taken at their documented sizes, and addresses past the end of the chip have no cells.
- Compressed downloads end to end: the server's side is modelled for any decompressor output, the flasher sends uncompressed.
- Flasher.FlashSegment: does not say what becomes of an image that does not fit: one that reaches or passes the end of its region or, for a bootloader image, of the flash.
- Lost replies and the flasher's single retry: every request gets its reply, and the next one beats the tester timeout.
- A flash write that fails halfway, and the error-correction granularity of the internal flash: a failing write changes nothing.
- Hardware errors in the preloader's copy: it ignores them, and they are taken not to occur there; power loss may occur anywhere.
- KwpServer.Server.ProcessCmd: does not model the replies of the read services, which change no state, nor the layout of error replies.
- KwpServer.Server.Update: does not itself restart the unit when a reset is pending, because the server does not outlive it; `BootRuns.Next` does.
- The contents of the RAM information block beyond what decides a boot, and the reset counter's increment: nothing that is modelled depends on how they are written.
- A transmitter that is busy while two ISO-TP nodes run against each other: the receiver then gives up (`IsoTpReceiver.DeliversIff`), and the code has no rule for the sender beyond its timeout.
- ISO-TP timeouts other than the end of the waiting messages, stale flow-control signals, and how a sender recovers from lost frames: the code has no rule beyond giving up.
- LogWriter.BufferedDefmtWriter.Write: does not model a serial write that is accepted in part, because the record's length has then already been sent; a packet is written whole or refused.
- LogWriter.BufferedDefmtWriter.PumpOut: likewise.
- UsbHost.SerialOut.WriteReply: does not model a serial write that fails between length, type and body, because the record is then torn and the reader has no rule to find the next one.
- UsbHost.SerialOut.WriteLog: likewise, and a write that is accepted in part.
- A pending reset in `DiagTask`, which ends the run: `BootRuns` restarts the unit.
- defmt's own encoding and the logger's acquire and release around interrupts: a message is the list of its writes.
- `f32` rounding in lookups and ramps: near a whole number a rounded ramp value can be cut off one higher or lower than the exact one.
- GearboxModes.Gearbox.Update: takes what the shift logic computes as an arbitrary drive value, because shift algorithms with an active shift, `set_init_vars` and clutch speeds are unfinished in the source.
- GearboxModes.Gearbox.CalculateSolenoidStatus: likewise for valves and currents; the pressure behind them is in `Pressure`.
- TCC solenoid waveform, solenoid drivers, CAN signal packing, the PC simulator and its displays: flat or hardware-bound.
- The other three storages of the gearbox: they are always ready in the firmware.
