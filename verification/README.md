# Verification of the button firmware's logic

A Dafny model of the stateful logic of the STA (button) build of the sensor firmware, with proofs about it. It follows
the C code function by function. Values that the firmware keeps in globals or structures and updates in place are fields
of classes here; each method is proved against a function of the old state, and what the firmware promises is proved
about those functions, over all inputs and over all runs.

- **Wire codec** (`Bits`, `Wire`, `Encoder`, `Decoder`, `Numbers`). The printer and the parser of the Protocol Buffers
  wire format: varints, keys, fixed-width numbers and byte strings, into buffers that may be too short or absent.
- **Configuration** (`DevCfg`, `FieldMeaning`, `NfcConfig`, `EepromWords`, `ConfigStorage`). A message received over
  NFC, field by field into the configuration and its change flags; the configuration as a message in the data EEPROM
  behind a checksum and a length, written word by word; and the way back. `FieldMeaning` says what each field number
  stands for, apart from the tables that the code follows.
- **Send queue** (`UplinkPayload`, `SendQueue`, `SendQueueRuns`, `SendQueueLoss`, `SendProgress`). Three slots, filled
  by an interrupt and emptied by the main loop, with retransmissions and an override of the transmit power. The runs
  interleave the two sides access by access.
- **Accelerometer FIFO** (`Fifo`, `FifoFrames`). The resumable frame parser, and the framing it inverts.
- **Scheduler and button** (`Scheduler`, `SchedulerRuns`, `Button`, `ButtonRuns`, `ButtonReports`, `ButtonGestures`,
  `ButtonCases`). The table of tasks, the tick that calls what is due, the gesture recognizer, and both as one machine.
- **Small refinements** (`WakeUp`, `Bme680`, `Bme680Runs`). One wake-up timer for three due times, and a paged chip
  behind a cached page number as a flat register file.

`dafny verify dfyconfig.toml` checks the project.

## Findings

Several promises hold only under a condition, which is stated exactly or shown by a case that breaks it.

- A saved configuration comes back exactly for the regions EU868 and US915; any other region is stored as the US915
  plan (`ConfigStorage.StoredFieldsRestore`). It takes at most 130 bytes, unless a sending enumeration holds 128 or
  more (`ConfigStorage.StoredSize`).
- Receiving the same message twice changes no setting the second time. It raises no flag exactly when every value fits
  its setting and fields that address one setting agree on its value (`DevCfg.SecondReceptionIsIdle`). A wide value is
  stored cut off and reported as a change each time it is received, and so are two values for one setting
  (`DevCfg.WideValueFlagsAgain`, `DevCfg.RepeatedSettingFlagsAgain`). The sending settings (`sendInterval`,
  `sendTrigger`, `sendStrategy`) raise `resched` and not `lrw`.
- A message of which no attempt was let through is dropped exactly by an acknowledgement that arrives between two calls
  of `LRW_Send` while the slot at `retrans_index` is queued and `retrans_left` is 0 or 3
  (`SendQueueRuns.LostExactlyByAck`, `SendQueueRuns.NothingLost`). The 3 needs a stack that acknowledges without a
  transmission. The stack used here confirms an attempt at most once and before the next call
  (Drivers/LoRaMac-node/mac/LoRaMac.c:1431-1434, Src/main.c:419-428); then only the 0 is left
  (`SendQueueLoss.DropIsLate`, `SendQueueLoss.LostExactlyByLateAck`). It does happen: the third attempt of a message frees
  its slot when the stack takes it, the producer queues the next message there, and the acknowledgement of the third
  attempt drops that one (`SendQueueLoss.RefilledSlotIsLost`). Without such acknowledgements nothing leaves the queue
  before it has gone to the radio (`SendQueueRuns.NothingLeavesUntried`).
- A confirmed message sent at less than full power takes four calls of `LRW_Send`, since one call only raises the power
  (`SendProgress.FourCallsNeeded`).
- A callback leaves alone what is still due in its tick exactly when the tasks it adds fit into the slots without a
  pending task before the first due one (`Scheduler.AddedTasksKeepDueIff`). One task always fits
  (`Scheduler.OneTaskHasRoom`); a second one may overwrite a task that waits for its turn.
- Over every run of edges, dropped or not, ticks and tasks of others, each press is part of at most one gesture exactly
  when no falling edge of the run is harmful where it happens (`ButtonRuns.NeverTwiceIff`). A clear falling edge is
  harmful when it makes a double press while the pending single press is still in the table, or when nothing is pending,
  the last press was reported or deferred already, and the edge makes it a long press or finds a slot to defer it
  (`ButtonRuns.FallClaimsTwiceIff`). It takes a rising edge that the debounce drops to get there
  (`ButtonRuns.NoDroppedRiseIsHarmless`): a press of 200 ms, a bounce within 100 ms of its end that stays down, and a
  release 3 s later report the first press as a single and as a long one (`ButtonCases.ReportedAsSingleAndLong`).
- Two short presses are one double press exactly when the first found a free slot and no tick reported a single press
  before the second ended (`ButtonGestures.TwoShortPresses`); that is sure within fifteen ticks when nothing else of the
  button is deferred (`ButtonGestures.DoublePressInTime`).
- A dropped falling edge during a second press leaves the recognizer pointing to a slot without its own task
  (`ButtonReports.DroppedFallLosesTask`), and the next rise deletes whatever pending task is there
  (`ButtonReports.RiseDeletes`, `ButtonCases.RiseDeletesForeignTask`).
- A short press is reported fifteen ticks later exactly when some slot of the table was free at its falling edge; with
  all slots pending it is lost without a report (`ButtonReports.SinglePressIsReportedIff`).
- The wake-up timer waits exactly the seconds asked for up to 131072 of them, and fires early beyond
  (`WakeUp.PeriodIsExact`).
- On SPI a burst goes to the addresses that are meant exactly when all its registers are in one half of the address space
  (`Bme680Runs.LandsWhereMeantIff`), and has the effect that is meant exactly when each register is in the half of the
  last or is the status register, which answers in both (`Bme680Runs.MeantEffectIff`). The cached page number changes
  before the page does, so a failed switch leaves the two apart; in a burst of two or more registers the failure is
  forgotten (`Bme680Runs.BurstResult`, `Bme680Runs.FailedSwitchIsForgotten`), and later reads return the other page
  (`Bme680Runs.DesyncedReadsOtherPage`).

- The code differs from its comments in one place: the example at Src/protobuf.c:206 decodes nine bytes 0xff and a zero
  to 2^64 - 1, the code to 2^63 - 1 (`Decoder.DecodeLongest`). The model follows the code.

## Model

| member | source | states |
|---|---|---|
| `Wire.VarintRoundTrip` | Src/protobuf.c:130-138 | the emitted bytes all continue but the last, and their seven-bit groups sum to the number |
| `Wire.VarintLength` | Src/protobuf.c:130-138 | a number takes at most `n` bytes exactly when it is below 2^(7n) |
| `Wire.LittleEndianRoundTrip` | Src/protobuf.c:139-157 | fixed-width numbers are read back from their bytes |
| `Wire.FieldsInBytes` | Src/protobuf.c:102-180 | four fields byte by byte: varints with one and two key bytes, a byte string and a fixed-width word |
| `Wire.FieldOffset` | Src/protobuf.c:102-180 | where field `k` of a message lies and what surrounds it |
| `Wire.UniquelyDecodable` | Src/protobuf.c:102-180 | two field lists with the same bytes are the same list |
| `Encoder.PutByte` | Src/protobuf.c:134-135 | one byte past or inside the room left: the size grows either way, only a byte that fits is written |
| `Encoder.PutVarint` | Src/protobuf.c:132-137 | the loop emits the varint, as much of it as fits |
| `Encoder.PutBytes` | Src/protobuf.c:169-172 | the clipped copy writes the part that fits and counts all of it |
| `Encoder.PutKey` | Src/protobuf.c:115-124 | first key byte and loop together emit the varint of the 32-bit key |
| `Encoder.PBEncodeField` | Src/protobuf.c:102-180 | the size is that of the full encoding whatever the room; exactly its first bytes that fit are written; nothing else moves, also without a buffer |
| `Encoder.PBEncodeMsgField` | Inc/protobuf.h:214-217 | the next field of a chain extends the written prefix, or leaves it when there is no room |
| `Encoder.PBEncodeMsgFields` | Src/protobuf.c:692-865 | any chain of fields yields the size of the whole and a prefix of the whole in the buffer |
| `Decoder.PBDecodeVarint` | Src/protobuf.c:210-244 | zero exactly when the whole window continues; otherwise the position of the first terminator; the groups read are or-ed in modulo 2^maxbits |
| `Decoder.ReadGroups` | Src/protobuf.c:220-240 | the loop reads up to the terminator or the end of the window and never past the buffer |
| `Decoder.DecodesWhatWasEncoded` | Src/protobuf.c:210-244 | the decoder recovers every number that fits, and its length, whatever bytes follow |
| `Decoder.EndsOnce` | Src/protobuf.c:239-243 | a varint ends at one place only, the place the encoder ended it |
| `Decoder.DecodeLongest` | Src/protobuf.c:206-207 | the decoder's result on nine bytes 0xff and one more: ten bytes read, and 2^63 - 1 or 2^64 - 1 by the lowest bit of the last |
| `Decoder.DecodeKey` | Src/protobuf.c:316-344 | identifier, type and length of every key of the encoder; a tag whose bytes all continue is refused |
| `Decoder.ReadFixed` | Src/protobuf.c:369-373 | a fixed-width number as the encoder wrote it |
| `Decoder.DecodeValue` | Src/protobuf.c:356-406 | number, payload position and size of every well-formed value, and which malformed ones stop the message and why |
| `Decoder.NextField` | Src/protobuf.c:312-406 | one key-value pair: accepted exactly when well-formed with a payload of 1 to 250 bytes, otherwise the reason |
| `Numbers.ZigZag` | Src/protobuf.c:246-248 | the signed numbers 0, -1, 1, -2, ... are folded onto 0, 1, 2, 3, ... |
| `Numbers.SIntRoundTrip` | Src/protobuf.c:246-252 | every signed 64-bit number is recovered |
| `Numbers.SIntOnto` | Src/protobuf.c:246-252 | every unsigned 64-bit number is the code of one signed number |
| `Numbers.SIntLength` | Src/protobuf.c:246-248 | small magnitudes of either sign stay short on the wire, exactly those below 2^(7k-1) |
| `Numbers.U64IsLittleEndian` | Src/protobuf.c:56-62 | the shifts and ors read a little-endian number |
| `Numbers.b64` | Src/protobuf.c:64-73 | the bytes of the number in little-endian order, which `u64` reads back |
| `NfcConfig.ReadField` | Src/protobuf.c:312-406 | in a message of fields, the step meets field `k` and leaves the position at the next field boundary |
| `NfcConfig.ConfigStore.DispatchIdentity` | Src/protobuf.c:414-433 | activation method and identifiers act as the slot table says, with flags; other keys change nothing |
| `NfcConfig.ConfigStore.DispatchCredentials` | Src/protobuf.c:435-452 | keys and address act as the slot table says, with flags; keys of another size and unknown keys change nothing |
| `NfcConfig.ConfigStore.DispatchPlan` | Src/protobuf.c:454-471 | join status and frequency plan act as the slot table says; an unknown plan changes nothing |
| `NfcConfig.ConfigStore.DispatchRadio` | Src/protobuf.c:473-491 | port, power, spreading factor and bandwidth act as the slot table says |
| `NfcConfig.ConfigStore.DispatchSwitches` | Src/protobuf.c:493-509 | the LoRaWAN switches act as the slot table says |
| `NfcConfig.ConfigStore.DispatchSending` | Src/protobuf.c:511-526 | the sending settings act as the slot table says and raise `resched` |
| `NfcConfig.ConfigStore.Dispatch` | Src/protobuf.c:412-590 | the chain of comparisons has the effect of the slot table on every key |
| `NfcConfig.ConfigStore.PBDecodeMsg` | Src/protobuf.c:293-606 | a message has the effect of its fields folded in order, by the meaning of their numbers, and ends at its last boundary; it leaves the network exactly if it carries the join status zero; it aborts exactly when a malformed item follows; bad versions and empty messages change nothing |
| `FieldMeaning.FieldReceived` | Src/protobuf.c:412-531 | a field received over NFC sets what its number stands for, numbers as literals, or nothing |
| `FieldMeaning.FieldLoaded` | Src/eeprom.c:178-259 | the same for a field loaded from EEPROM |
| `FieldMeaning.MessageReceived` | Src/protobuf.c:412-531 | a received message leaves the configuration that its fields, by their numbers, make of the old one |
| `FieldMeaning.MessageLoaded` | Src/eeprom.c:178-259 | the same for a loaded one |
| `FieldMeaning.LeavesNetworkIff` | Src/protobuf.c:455-461 | a message leaves the network exactly if it carries field 12 with the number 0 |
| `FieldMeaning.OtherFlagsStay` | Src/protobuf.c:412-531 | a message without radio settings does not raise `lrw`, one without sending settings not `resched`, one with neither no flag |
| `DevCfg.LastWriterWins` | Src/protobuf.c:412-590 | after a message each setting holds the last value addressed to it, or what it held; unknown fields leave no trace |
| `DevCfg.LastStoredWins` | Src/eeprom.c:178-259 | the same for loading from EEPROM |
| `DevCfg.ChangesAreFlagged` | Inc/eeprom.h:106-109 | a setting that differs afterwards has raised `any`, and `lrw` or `resched` according to its kind; flags are never lowered |
| `DevCfg.HeldMessage` | Inc/eeprom.h:106-109 | a message of values already held changes nothing and raises a flag exactly for values out of range |
| `DevCfg.FlagsStayClearIff` | Inc/eeprom.h:106-109 | clear flags stay clear exactly when no field differs from the present settings |
| `DevCfg.SecondReceptionIsIdle` | Inc/eeprom.h:106-109 | receiving any message again changes no setting; the flags stay clear exactly when all values are in range and fields on one setting agree |
| `DevCfg.WideValueFlagsAgain` | Src/protobuf.c:473-476 | the port value 256 is stored as 0 and flagged on every reception |
| `DevCfg.RepeatedSettingFlagsAgain` | Inc/eeprom.h:106-109 | two ports in one message, both in range, are flagged on every reception |
| `EepromWords.DataEeprom.HW_ResetEEPROM` | Src/hardware.c:471-482 | zeroes at least the given bytes and touches only their words |
| `EepromWords.DataEeprom.ProgramMerged` | Src/hardware.c:490-495 | a word merged with its surroundings changes only the bytes given |
| `EepromWords.DataEeprom.WriteHead` | Src/hardware.c:490-496 | the unaligned head of a write, or nothing |
| `EepromWords.DataEeprom.WriteAligned` | Src/hardware.c:500-505 | whole words and a partial last word are one splice; a failure leaves a prefix |
| `EepromWords.DataEeprom.HW_WriteEEPROM` | Src/hardware.c:484-512 | at every alignment and size success, which a healthy memory grants, splices the buffer into memory and leaves every other byte; failure splices a prefix |
| `ConfigStorage.StoredSize` | Src/eeprom.c:302-352 | the exact size of a stored configuration, at most 130 bytes when the sending enumerations are below 128 |
| `ConfigStorage.MissingIff` | Src/eeprom.c:61 | the loader's guard refuses exactly a memory that holds no message of at least ten bytes and version zero behind its own checksum and length |
| `ConfigStorage.MessageInWords` | Src/eeprom.c:54-61 | the same in the words of memory: length 10 to 1016, version byte zero, checksum equal to that of the bytes |
| `ConfigStorage.StoredFieldsRestore` | Src/eeprom.c:178-259 | restoring the stored fields over any configuration gives the stored one, exactly for EU868 and US915 |
| `ConfigStorage.FieldsRestore` | Src/eeprom.c:178-259 | restoring some settings brings those back and leaves the others |
| `ConfigStorage.SavedConfigurationLoads` | Src/eeprom.c:61-71 | what a save leaves in memory passes the guard, is well formed to its end, and restores the configuration exactly for EU868 and US915 |
| `ConfigStorage.ImageIsStored` | Src/eeprom.c:354-360 | checksum, length and message written one after the other over any memory make a stored message |
| `ConfigStorage.Storage.Serialize` | Src/eeprom.c:302-352 | the local buffer holds the whole message, untruncated |
| `ConfigStorage.Storage.EEPROM_Save` | Src/eeprom.c:302-361 | over any prior contents a save whose words are all taken, as a healthy memory takes them, leaves the stored message, padded to a whole word; memory outside the application area never changes |
| `ConfigStorage.Storage.RestoreField` | Src/eeprom.c:178-259 | the loader's chain has the effect of the slot table on every key |
| `ConfigStorage.Storage.Deserialize` | Src/eeprom.c:78-264 | the loop restores the fields in order, ends at the last boundary, and errs exactly at a malformed item |
| `ConfigStorage.Storage.Invalidate` | Src/eeprom.c:288-292 | after an erase that works the next start finds no message |
| `ConfigStorage.Storage.EEPROM_Load` | Src/eeprom.c:53-294 | the old contents are restored exactly if memory holds a message behind its own checksum and length; without one the present configuration is stored under the chip's identifier; a defective one is invalidated |
| `ConfigStorage.SaveAndLoad` | Src/eeprom.c:53-361 | a save over any memory and a load into any configuration give back the saved one, exactly for EU868 and US915 |
| `UplinkPayload.ReceivedAsComposed` | Src/lrw.c:828-963 | whatever power a message is sent at, a receiver following the format document reads back that power and all that was composed |
| `UplinkPayload.ReadingReceived` | Src/lrw.c:828-963 | the receiver's formulas give the voltage in hundredths between 2.01 and 3.27, the temperature to within one step of the byte, and single, double and long press as 0, 1 and 2 |
| `SendQueue.First` | Src/lrw.c:1055 | the first slot with the use looked for, or none |
| `SendQueue.Lrw.LRW_HasQueue` | Src/lrw.c:787-793 | true exactly when some slot is queued |
| `SendQueue.Lrw.enqueueToSend` | Src/lrw.c:806-1011 | the composed message goes into the first free slot; without one, unjoined or without a type nothing changes |
| `SendQueue.QueuedIff` | Src/lrw.c:806-1011 | a message is queued exactly when joined, with a type and a slot free; it is in the first free slot, the bytes behind it and all other slots stay |
| `SendQueue.Lrw.LRW_Send` | Src/lrw.c:1050-1122 | a whole call, with and without the duty cycle: the queue it leaves, and a transmission that is the queued message with the channel's power in its power bits |
| `SendQueue.SentCarriesMessage` | Src/lrw.c:1096-1108 | a call is silent exactly when nothing is queued or it raises the power for a repeated confirmed attempt; else it sends the message whose turn it is, unaltered but for the power bits, which hold the power it goes out at; a repeated confirmed attempt at full power |
| `SendQueue.Lrw.McpsConfirm` | Src/lrw.c:693-705 | an acknowledgement ends the retransmissions and frees their slot and no other; without attempts left an override ends with the power of before |
| `SendQueueRuns.ShapedKept` | Src/lrw.c:795-805 | every access of either side keeps: at most three attempts left, their slot in range and queued, and sender and producer never at the same slot |
| `SendQueueRuns.RunInv` | Src/lrw.c:1050-1122 | all invariants hold at every point of every interleaving |
| `SendQueueRuns.RetransmissionIsSafe` | Src/lrw.c:1084-1122 | in every reachable state attempts left mean a queued message, unaltered but for bits 2 to 5 of its first byte, and accepted equals queued plus done plus lost |
| `SendQueueRuns.TransmissionsAreFaithful` | Src/lrw.c:1096-1108 | every transmission of a run is an accepted message with its own power in the power bits; a repeated confirmed attempt goes out at full power |
| `SendQueueRuns.OverrideIsTransparent` | Src/lrw.c:698-705 | in every reachable state an override has saved the original power, and a confirmation without attempts left restores it |
| `SendQueueRuns.CounterTellsKept` | Src/lrw.c:1084-1121 | in every mode the attempts let through are three less those left for the message under way, and none for those waiting |
| `SendQueueRuns.LostExactlyByAck` | Src/lrw.c:693-697 | a step drops a message of which no attempt was let through exactly when it is an acknowledgement between calls with the slot queued and 0 or 3 attempts left |
| `SendQueueRuns.NothingLost` | Src/lrw.c:693-697 | a run drops no such message exactly when it has no such acknowledgement |
| `SendQueueRuns.NothingLeavesUntried` | Src/lrw.c:693-697 | without acknowledgements that find a queued slot and no attempts left, nothing leaves the queue before it has gone to the radio |
| `SendQueueLoss.DropIsLate` | Src/lrw.c:693-697 | when each attempt is confirmed at most once and before the next call, an acknowledgement that drops a message of which no attempt was let through finds no attempts left |
| `SendQueueLoss.LostExactlyByLateAck` | Src/main.c:419-428 | under such a stack a run drops no such message exactly when no acknowledgement finds a queued slot and no attempts left |
| `SendQueueLoss.RefilledSlotIsLost` | Src/lrw.c:1115-1121 | a run under such a stack from the start, at any power: three attempts free the slot, it is refilled, and the acknowledgement of the third drops the new message |
| `SendQueueRuns.ExactlyCounted` | Src/lrw.c:1084-1121 | in a fixed mode without acknowledgements every message that leaves the queue has had three counted attempts if confirmed and one if not |
| `SendProgress.SendProgresses` | Src/lrw.c:1050-1122 | every call not held back lowers a measure of slots, attempts and power |
| `SendProgress.ConfirmProgresses` | Src/lrw.c:693-705 | a confirmation never raises that measure |
| `SendProgress.QueueEmpties` | Src/lrw.c:1050-1122 | `n` queued messages are gone after `4n` calls, whatever confirmations and mode changes come between |
| `SendProgress.FourCallsNeeded` | Src/lrw.c:1065-1082 | the bound of four is met |
| `SendProgress.SendIsRun` | Src/lrw.c:1050-1122 | the single accesses of an uninterrupted call add up to the call: its queue, and one log entry with exactly its payload and power, or none when it is silent |
| `SendProgress.EnqueueIsRun` | Src/lrw.c:815-1011 | the single accesses of an uninterrupted producer add up to queueing the message in the first free slot |
| `Fifo.AxisValueRange` | BMA400/bma400.c:3111-3217 | any bytes give a signed twelve-bit value |
| `Fifo.OneFrame` | BMA400/bma400.c:2893-2997 | a frame advances the index, stays inside the data and brings at most one sample |
| `Fifo.FifoData.CheckFrameAvailable` | BMA400/bma400.c:3012-3100 | a frame is available exactly when its payload is all there; otherwise the index goes to the end |
| `Fifo.FifoData.UnpackAxis` | BMA400/bma400.c:3113-3131 | one axis from its bytes, zero when absent |
| `Fifo.FifoData.UnpackAccel` | BMA400/bma400.c:3102-3218 | the sample of a frame in either width, and the index behind it |
| `Fifo.FifoData.UnpackFrame` | BMA400/bma400.c:2895-2997 | one pass of the loop, for all ten header kinds |
| `Fifo.FifoData.UnpackAccelFrame` | BMA400/bma400.c:2865-3010 | the samples of the extraction and no element behind them; it ends on any bytes and never reads past the length |
| `FifoFrames.ExtractionResumes` | BMA400/bma400.c:2888-3009 | `n` frames and then `m` frames give samples, time, configuration change and index of `n + m` frames, on any bytes |
| `FifoFrames.DummyByteSkippedOnce` | BMA400/bma400.c:2888-2892 | the second call starts where the first one stopped |
| `FifoFrames.SamplesInRange` | BMA400/bma400.c:2865-3010 | on any bytes all values are in [-2048, 2047] and there are no more samples than asked |
| `FifoFrames.NothingTakenIff` | BMA400/bma400.c:3012-3100 | on any bytes: a frame is taken, and the index moves by its size, exactly when its header is known and all its bytes are there; else the index goes to the end and nothing else changes |
| `FifoFrames.FrameRoundTrip` | BMA400/bma400.c:2895-2997 | the parser reads back one frame of the sensor |
| `FifoFrames.ParsingInvertsFraming` | BMA400/bma400.c:2893-3003 | on the bytes of a frame list extraction goes through the frames |
| `FifoFrames.BufferRoundTrip` | BMA400/bma400.c:2865-3010 | a buffer of frames, and behind them nothing, an unknown header or a frame that is cut off, gives its first `n` samples in order, the last time and configuration change, and the index at the end |
| `FifoFrames.StopsBehindSample` | BMA400/bma400.c:2999-3006 | with at least `n` samples, whatever follows, extraction stops right behind the frame that brings the `n`th; time and configuration change are the last ones in front of it |
| `FifoFrames.CutOffBuffer` | BMA400/bma400.c:3012-3100 | frames followed by any proper part of one more give exactly the samples, time and configuration change of the whole ones |
| `FifoFrames.BuffersInBytes` | BMA400/bma400.c:2865-3010 | three buffers byte by byte, the last one a cut-off time in front of what would be a sample |
| `Scheduler.AddKeepsPending` | Src/task_mgr.c:11-23 | adding replaces no pending task and fails exactly when all slots are pending |
| `Scheduler.AddedTasksKeepDueIff` | Src/task_mgr.c:14-18 | tasks added in a callback leave what is still due in the tick alone exactly when they fit into the slots without a pending task before the first due one |
| `Scheduler.OneTaskHasRoom` | Src/task_mgr.c:14-18 | a single task always fits, in the callback's own slot |
| `Scheduler.TaskManager.tasks_add` | Src/task_mgr.c:11-23 | the first slot whose task is not for the future takes the new one; the others stay |
| `Scheduler.TaskManager.tasks_del` | Src/task_mgr.c:25-27 | the slot is cleared and no other |
| `Scheduler.TaskManager.tasks_has_pending` | Src/task_mgr.c:29-35 | true exactly when some task is pending |
| `Scheduler.TaskManager.AutoReloadMatch` | Src/task_mgr.c:38-52 | the table and the calls of a tick, slot by slot; a nested tick only counts |
| `SchedulerRuns.InvKept` | Src/task_mgr.c:11-52 | every step keeps: what waits is on record and uncalled, what is on record waits or was called once |
| `SchedulerRuns.RunInv` | Src/task_mgr.c:11-52 | that holds at every point of every run |
| `SchedulerRuns.CalledExactlyOnce` | Src/task_mgr.c:11-52 | at any point of any run whose callbacks add what fits, a task that got a slot and was not deleted in time has been called once, at its tick, if that has come |
| `SchedulerRuns.OnlyAddedAreCalled` | Src/task_mgr.c:25-52 | nothing deleted and nothing that was not added is ever called |
| `SchedulerRuns.TickIsImplementation` | Src/task_mgr.c:38-52 | the ticks of the runs are those of the interrupt |
| `Button.Recognizer.ButtonISR` | Src/isr.c:49-130 | an edge's effect on the recognizer and the table, and the gesture reported, with the times as literals |
| `Button.Recognizer.Tick` | Src/isr.c:21-28 | a tick reports one single press for each call of the recognizer's task, and leaves nothing pending if there was one |
| `ButtonReports.TickIsImplementation` | Src/isr.c:21-28 | the ticks of the runs change table and recognizer as the timer interrupt does and report the same gestures |
| `ButtonRuns.FallClaimsTwiceIff` | Src/isr.c:93-123 | at every state a clear falling edge claims a press for two gestures, reported or deferred, exactly when it is harmful |
| `ButtonRuns.StepClaimsTwiceIff` | Src/isr.c:49-130 | of all steps, dropped edges, ticks with any callbacks and foreign tasks included, exactly the harmful falling edges claim a press twice; every other keeps presses claimed once and the table in step |
| `ButtonRuns.NeverTwiceIff` | Src/isr.c:49-130 | over every run no press is claimed twice at any point exactly when no falling edge is harmful where it happens |
| `ButtonRuns.NoDroppedRiseIsHarmless` | Src/isr.c:62-66 | a run in which the debounce drops no rising edge is harmless, whatever falling edges it drops |
| `ButtonRuns.OneGesturePerPress` | Src/isr.c:93-123 | over every harmless run no press is in two reported gestures |
| `ButtonGestures.EdgeReports` | Src/isr.c:93-123 | from every state a clear fall reports one double press exactly when a single press is pending and the hold is at most 1500, one long press exactly when none is and the hold is 2001 to 8000, else nothing |
| `ButtonGestures.PressReports` | Src/isr.c:49-130 | a whole press, with any ticks and tasks of others while it is held: which gesture of which presses it reports, and when it is deferred |
| `ButtonGestures.TwoShortPresses` | Src/isr.c:93-111 | two short presses are reported as one double press exactly when the first had a free slot and no tick has reported a single press since; otherwise the second fall reports nothing |
| `ButtonGestures.DoublePressOnly` | Src/isr.c:93-111 | the two presses are then in no other gesture, reported or deferred |
| `ButtonGestures.DoublePressInTime` | Src/isr.c:93-111 | with nothing else due sooner, fewer than fifteen ticks between the two falls report nothing |
| `ButtonReports.ShortPressIsDeferredIff` | Src/isr.c:93-99 | the first short press is deferred by fifteen ticks exactly when some slot is free, and leaves everything as it was otherwise |
| `ButtonReports.DeferredIsReportedIff` | Src/isr.c:21-28 | without edges a deferred press is reported as a single one exactly when its tick has come, whatever others add, and is in no gesture before |
| `ButtonReports.SinglePressIsReportedIff` | Src/isr.c:93-100 | from the falling edge on: a short press not taken yet is reported by the fifteenth tick and not before, exactly when a slot was free, and never otherwise |
| `ButtonReports.PointsToOwnKept` | Src/isr.c:101-104 | without dropped edges the task that a rise would delete is the recognizer's own |
| `ButtonReports.RiseDeletes` | Src/isr.c:101-104 | a rise takes nobody else's pending task exactly when the slot it clears holds none |
| `ButtonReports.DroppedFallLosesTask` | Src/isr.c:62-66 | a dropped falling edge leaves the recognizer pointing to its own task exactly when nothing is pending or the task is in the table |
| `ButtonCases.ReportedAsDouble` | Src/isr.c:106-111 | a run from the start: two presses of 200 ms are one double press and nothing else |
| `ButtonCases.ReportedAsLongIff` | Src/isr.c:114-117 | a run from the start: a press of more than 1500 ms is reported as long exactly when held for 2001 to 8000 ms |
| `ButtonCases.ReportedAsSingleAndLong` | Src/isr.c:62-66 | a run from the start with one dropped rise, ticks and a late fall that reports a press as single and as long |
| `ButtonCases.RiseDeletesForeignTask` | Src/isr.c:101-104 | a run from the start with a dropped fall in which a rise deletes a pending task of others |
| `WakeUp.EarliestIsLeast` | Src/hardware.c:51-64 | the due time chosen is the least of those set, and zero exactly without any |
| `WakeUp.PeriodIsExact` | Src/hardware.c:630-634 | the timer waits the seconds asked for, at least one, exactly up to 131072 |
| `WakeUp.FiresAtEarliest` | Src/hardware.c:51-70 | the timer fires at the least due time, which the reason names, unless that is more than 131072 seconds ahead |
| `WakeUp.WakeUpHandler.PrepareWakeup` | Src/hardware.c:34-71 | the due time asked for is the present plus the duration, or none; the others stay or become due now when overdue; the timer is off exactly without due times, else armed for the earliest, which the reason names |
| `WakeUp.WakeUpHandler.ConcludeTimer` | Src/hardware.c:51-70 | timer and reason agree with the due times |
| `WakeUp.WakeUpHandler.HW_RTCWUTSet` | Src/hardware.c:630-634 | counter and clock for a number of seconds |
| `WakeUp.WakeUpHandler.WakeUpTimerEvent` | Src/main.c:538-553 | the due times a callback leaves, and timer and reason still agree |
| `WakeUp.CallbackHandlesExpired` | Src/main.c:538-553 | which expired due times a callback handles, when the next scheduled message is due, and that one it leaves is re-armed |
| `WakeUp.NoDueIsDropped` | Src/hardware.c:34-71 | over every run a due time that is not handled, cleared or set anew stays, and moves only when overdue |
| `Bme680.Device.set_mem_page` | BME680/bme680.c:1258-1292 | the state and result of a page switch, with faults of either transfer |
| `Bme680.Device.get_mem_page` | BME680/bme680.c:1297-1313 | the cached number learnt from the chip, kept on a fault |
| `Bme680.Device.bme680_get_regs` | BME680/bme680.c:308-329 | the state after a read and the bytes of a successful one |
| `Bme680.Device.Interleave` | BME680/bme680.c:348-358 | the buffer alternates addresses and values; the result is that of the last switch |
| `Bme680.Device.bme680_set_regs` | BME680/bme680.c:335-371 | the state and result of a write, with faults; refused exactly with no register or 20 or more, and then without effect |
| `Bme680.Device.bme680_soft_reset` | BME680/bme680.c:376-400 | the state and result of a reset |
| `Bme680Runs.SwitchShowsPage` | BME680/bme680.c:1258-1292 | a switch that works shows the register's page and changes nothing else; one that fails moves only the cached number |
| `Bme680Runs.FailedSwitchDesyncs` | BME680/bme680.c:1274-1277 | cached number and chip agree after a switch exactly when it worked |
| `Bme680Runs.GetReads` | BME680/bme680.c:308-329 | a successful read returns the intended registers and keeps the two in step |
| `Bme680Runs.GetSucceedsIff` | BME680/bme680.c:308-329 | a read succeeds exactly when its transfer works and, when the page has to be switched, the two before it |
| `Bme680Runs.DesyncedReadsOtherPage` | BME680/bme680.c:308-329 | out of step, a successful read returns the registers of the other page |
| `Bme680Runs.SetLands` | BME680/bme680.c:335-371 | a burst writes its values, in order, into the page of its last register |
| `Bme680Runs.LandsWhereMeantIff` | BME680/bme680.c:349-353 | those are the intended addresses exactly for registers of one half |
| `Bme680Runs.MeantEffectIff` | BME680/bme680.c:349-353 | the effect is the intended one, on every chip and with all values, exactly when each register is in the last one's half or is the status register |
| `Bme680Runs.BurstResult` | BME680/bme680.c:348-366 | a burst of several registers succeeds although its page switch failed |
| `Bme680Runs.FailedSwitchIsForgotten` | BME680/bme680.c:348-366 | a burst that reports success ends in step exactly when its switch worked |
| `Bme680Runs.ResetResyncs` | BME680/bme680.c:376-400 | from any state a successful reset leaves the power-on registers and the right cached number |
| `Bme680Runs.RunRefines` | BME680/bme680.c:308-400 | over every run of successful accesses that reach the registers meant, the cached number is the chip's page, the registers are those of a flat file, and every read returns what that file holds |
| `Bme680Runs.FaultlessRunRefines` | BME680/bme680.c:308-400 | on a bus without faults every access of such a run succeeds, so the whole run acts on the flat file |

## Left out

- NfcConfig.ConfigStore.PBDecodeMsg: describes messages made of fields as the encoder writes them, followed by nothing or by one item the decoder refuses. Not described are truncated fixed-width values (copied without a look at the length, Src/protobuf.c:369-373 and 390-393) and keys cut off within four bytes of the end (the limit at Src/protobuf.c:326 counts one byte too many), which read past the message; varints padded with needless zero groups, which the decoder accepts; and length prefixes of 256 and more, which it cuts to eight bits.
- NfcConfig.ReadField: the same restriction.
- Decoder.NextField: the same restriction; it also stands for the copy of this step in Src/eeprom.c:78-176, which is identical.
- Decoder.DecodeKey: keys padded with needless zero groups, and cut-off ones.
- Decoder.DecodeValue: padded varints, length prefixes of 256 and more, truncated fixed-width values.
- Decoder.ReadFixed: truncated fixed-width values.
- ConfigStorage.Storage.Deserialize: the same restriction as for messages over NFC; what the firmware itself stores meets it.
- Encoder.PBEncodeField: `size_t` does not overflow, and the field's identifier is one of the 29-bit ones the precondition of the C function asks for.
- ConfigStorage.Storage.EEPROM_Load: messages longer than 255 bytes, where the 8-bit position would wrap around, and padded varints are excluded; when the defaults cannot be stored the firmware goes on with whatever is in memory, and that path ends the model.
- ConfigStorage.Storage.EEPROM_Save: the firmware only logs a word that the hardware refuses; the message is promised for saves without one, which are all those of a healthy memory. A refused word keeps its value.
- SendQueue.Lrw.LRW_Send: the radio stack is the channel's transmit power and the duty cycle's answer; port, join state and downlinks are not part of it, and nothing else writes the power.
- SendQueue.Lrw.enqueueToSend: voltage, temperature, gesture and its counter are passed in; the post-increment of the counter and the `changed.any` it raises are not modelled.
- SendQueueLoss.LostExactlyByLateAck: of the stack it knows when confirmations may come, and that unconfirmed messages are not acknowledged.
- SendQueueRuns.ShapedKept: one producer at a time, as the comment at Src/lrw.c:799-804 assumes; each read or write of a slot's type and the filling of a free slot's buffer is one step; confirmations arrive in the main context, between calls of `LRW_Send`.
- Fifo.FifoData.UnpackAccelFrame: `frame_count` is at least one (with zero the loop would write past it), and the 16-bit index does not wrap around since the length is below 65536.
- SchedulerRuns.CalledExactlyOnce: ticks below wrap-around and no nested tick; each addition, deletion and tick is one step.
- ButtonRuns.NeverTwiceIff: each edge and each tick is one step, and ticks do not wrap around.
- WakeUp.WakeUpHandler.PrepareWakeup: seconds do not overflow 32 bits, and the clock does not go back.
- WakeUp.WakeUpHandler.WakeUpTimerEvent: the message it queues is reported, not queued.
- Bme680Runs.RunRefines: the chip follows its data sheet; writes to the status register must carry the page bit of the page that shows.
- Bme680.Device.bme680_soft_reset: the waiting time and the null pointer checks.
- `struct DeviceConfig` is a value that the classes hold in one field; aliasing into its arrays is not captured. Its enumerations are one byte wide, as with short enums.
- The STX and STE builds, their thresholds and payloads; in STX saving and loading the humidity threshold disagree.
- The checksum is some function of the bytes.
- The messages `PBEncodeMsg_DeviceConfiguration` and `PBEncodeMsg_DeviceSensors` beyond being chains of fields: their values come from the radio stack and sensors, which are not part of this model.
- The HAL, the radio stack, sensor compensation, LED patterns, the NFC mailbox and debug output.
