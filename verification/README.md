# A verified model of the LoRa telemetry backend

The backend receives wood-moisture frames from battery nodes over LoRa gateways and MQTT, stores the
readings, and repairs what gets lost on the way. This project models its stateful and arithmetic core in
Dafny and proves what the code promises, for every input and every run.

| file | what it models |
|---|---|
| `GapDetection.dfy` | gaps in a gateway's frame counter over one window of received frames |
| `RecoveryTable.dfy`, `GapRecovery.dfy` | the recovery table of one gateway, its SQL statements, and the protocol of job, gateway, response handler and live traffic as a transition system with its invariant |
| `RecoverySafety.dfy`, `RecoveryProgress.dfy`, `RecoveryConvergence.dfy` | guarantees over whole runs: closed rows, responses, lost batches, progress, and the way from a detected gap to its end |
| `RecoveryService.dfy` | the job and the handler statement by statement, against the steps of the transition system |
| `BitStrings.dfy`, `Crc16.dfy`, `Codeword.dfy`, `CrcValue.dfy`, `ErrorDetection.dfy` | the CRC loop, its meaning as polynomial division (generator x^16+x^12+x^5+1, section 2 of ITU-T Recommendation V.41), its values, and what the code detects |
| `Hex.dfy`, `HmFrame.dfy`, `FrameErrors.dfy` | the HM v3.6 frame: decoder, printer, damage |
| `Payloads.dfy`, `GatewayRx.dfy` | what the parsers hand to ingestion, and the parser of the /rx wrapper |
| `IngestionBuffer.dfy` | the ingestion buffer: flushes, retries, poison pills, the overflow cap |
| `Ingestion.dfy`, `RxIngestion.dfy` | what a delivered payload does to measurements, raw payloads, alarm state and events, and the same from the /rx wrapper on |
| `FirmwareDeployment.dfy` | OTA deployments and their results from two independent sources |
| `Calibration.dfy` | least-squares calibration and its application |
| `Retention.dfy` | the batched retention delete |

Conventions. Code that only computes is a function. Code that updates state in place is a class whose
methods end in a state given by a specification function (`Step`, `Flush`, `Deliver`, ...), and the theorems
are about runs of that function. Integers are unbounded except where the source packs or masks them;
floats are reals; a missing value is `None`; an exception is a constructor of the result type. What the
database, the gateway, the broker and the clock decide is a parameter, so every theorem holds for all they
might do.

Where the code and its documentation disagree, the model follows the code:

- `all_missing_seqs` calls itself ascending. It is not: gaps are sorted by time first
  (api/src/services/gap_detection.py:46,125). `GapDetection.NotAscending` gives frames 1, 3, 5 and
  `GapDetection.AscendingIff` says exactly when the list is ascending.
- The count check of a storage response is said to make every requested counter appear in `lines` or in
  `missing` (api/src/services/gap_recovery.py:133). For any accepted response it does so if and only if the errors of
  its two counts differ by the surplus of the answer: its repeated, unnumbered and unrequested lines and
  counters (`RecoverySafety.PartitionIff`; lying counts in `RecoverySafety.LyingCountsLeaveInflight`, a line
  sent twice in `RecoverySafety.RepeatedLineLeavesInflight`).
- A row is meant to be recovered because its frame is in raw (api/src/services/gap_recovery.py:161). Applying a response
  keeps that true if and only if every ingested line for a row carries the gateway's own name, or names a
  counter that raw holds or that is also missing (`RecoverySafety.ApplyKeepsBackedIff`, with the failing
  input in `RecoverySafety.ForeignLineRecovers`). `RecoverySafety.ApplyKeepsClosedIff` and
  `RecoverySafety.ApplyKeepsLostOnceIff` say the same of closed rows and of lost events.
- A retention batch may delete more rows than its size (api/src/services/retention.py:31-45). Every batch stays within
  it if and only if the size is zero, no more rows are expired, or no two expired rows share a timestamp
  (`Retention.BatchesWithinLimitIff`; for one selection `Retention.BatchExceedsLimitIff`).
- The module of the ingestion service describes duplicates as absorbed. Readings and raw payloads are; the
  alarm state is processed again on every redelivery, so a replayed alarm frame raises the alarm again
  (`Ingestion.NoOpIff`, `Ingestion.ReplayRaisesAgain`).
- The second unique key of measurements keeps a reused message counter out for good, as after a 16-bit
  counter wraps (`Ingestion.ReusedCounterNeverStored`).
- A result that arrives between the publish of an OTA command and the transaction that records its request
  id finds no row and is lost (`FirmwareDeployment.EarlyResultLost`).
- A calibration may report its own calibration points as extrapolated. None of them is reported if and only
  if the valid points of smallest and largest adc are not (`Calibration.CalibrationPointsInRange`); for
  points exactly on a line that is when rounding to a decimal does not push an end of the range outside it
  (`Calibration.LinePointsInRange`). An end at 8.04 is pushed out (`Calibration.EndOfRangeFlagged`); off the
  line a point can be reported although both ends are whole (`Calibration.OffLineFlagged`).

Alarm events are edges as long as no payload omits a flag that is set: for such a payload the upsert would store NULL
without an event (`Ingestion.RunInStepIff`, `Ingestion.DroppedFlagRaisesTwice`). No parser of the program
produces one: only the /rx parser sets flags, and always both (`RxIngestion.IngestedInStep`).

## Model

| member | source | states |
|---|---|---|
| `GapDetection.NewestFirstIsStableSort` | api/src/services/gap_detection.py:125 | the sort of the gaps: times fall, and the gaps of each time are the same ones in the order they had |
| `GapDetection.ComputeGwSeqGaps` | api/src/services/gap_detection.py:99-134 | on any rows the loop reports first, last, the sum of the missing counts and the gaps between neighbours, newest first; its flattened list is the one the theorems below are about |
| `GapDetection.AllMissingSeqs` | api/src/services/gap_detection.py:28-50 | extending gap by gap gives the flattened list |
| `GapDetection.GapsAreBetweenRows` | api/src/services/gap_detection.py:110-122 | every reported gap lies between two neighbouring rows of the window, counts the counters strictly between theirs, and carries the time of the row that closes it |
| `GapDetection.DetectedOnce` | api/src/services/gap_detection.py:99-125 | with any grace period each counter is listed once or never: once exactly when it lies between neighbouring rows less than max_gap apart whose upper row is past the grace period |
| `GapDetection.DetectionExact` | api/src/services/gap_detection.py:27-50 | with grace 0 and any multiset of counters the list is duplicate-free and is exactly the absent counters whose nearest received neighbours are less than max_gap apart |
| `GapDetection.EveryCounterAccounted` | api/src/services/gap_detection.py:110-122 | last - first + 1 = distinct received + missing_total + counters inside jumps that are not reported; missing_total is the length of the list |
| `GapDetection.HealOne` | api/src/services/gap_detection.py:114-122 | receiving one missing counter makes that one and no other stop being missing: splitting a gap neither creates nor loses one |
| `GapDetection.HealMany` | api/src/services/gap_detection.py:114-122 | receiving missing counters in any order, repeats included, removes exactly those |
| `GapDetection.RecoveryHeals` | api/src/services/gap_detection.py:99-122 | a later window that also holds some of the detected counters lists exactly the others |
| `GapDetection.FullRecoveryLeavesNothing` | api/src/services/gap_detection.py:99-122 | a later window that holds all of them lists nothing |
| `GapDetection.AscendingIff` | api/src/services/gap_detection.py:46-50 | the list is ascending if and only if no gap was closed later than a gap of smaller counters |
| `GapDetection.NotAscending` | api/src/services/gap_detection.py:125 | frames 1, 3, 5 received in order give the list [4, 2] |
| `RecoveryTable.SmallestSize` | api/src/services/gap_recovery.py:418-428 | ORDER BY gw_seq LIMIT n: min(n, count) rows, each below every row left out |
| `GapRecovery.RunKeepsInv` | api/src/services/gap_recovery.py:347-374 | every run keeps: inflight iff batch_id set iff inflight_at set, all inflight rows are one batch marked at one time and at most the largest batch size, every recovered row has its frame in raw, every row given up has had exactly one lost event |
| `GapRecovery.ReachableInv` | api/src/services/gap_recovery.py:336-474 | so all of it holds in every state reached from an empty table |
| `GapRecovery.MarkKeepsInv` | api/src/services/gap_recovery.py:376-447 | the marking transaction, committed or rolled back, keeps the invariant |
| `GapRecovery.ApplyKeepsInv` | api/src/services/gap_recovery.py:143-221 | applying a correlated response keeps the invariant, whatever happened since its correlation |
| `RecoverySafety.StepMoves` | api/src/services/gap_recovery.py:366-417 | no step removes a row or moves a closed one; only an applied response gives a counter up, and only when it is not in raw; new rows are never born closed |
| `RecoverySafety.ClosedStays` | api/src/services/gap_recovery.py:143-207 | recovered and not_found are absorbing over every run: no expiry, detection, publish failure, late or repeated response changes them, and a not_found row does not change at all |
| `RecoverySafety.ClosedReadIgnored` | api/src/services/gap_recovery.py:107-131 | from the moment one counter of a read is closed, every response to that read changes nothing, after any run |
| `RecoverySafety.AppliedReadIgnored` | api/src/services/gap_recovery.py:107-207 | once a response has closed anything, redelivering it, or any response to the same counters, changes nothing for ever |
| `RecoverySafety.ApplySettles` | api/src/services/gap_recovery.py:143-207 | applying a response closes exactly the counters whose line was ingested or that were reported missing, as recovered if in raw and not_found if not; every other row is as it was |
| `RecoverySafety.UndeliveredKeepsRow` | api/src/services/gap_recovery.py:153-170 | a counter not reported missing, none of whose lines both parses and ingests, keeps its row and its absence from raw: it will be asked for again |
| `RecoverySafety.DeliveredIsRecovered` | api/src/services/gap_recovery.py:143-173 | a line with the counter that parses and ingests puts the frame in raw and closes the row as recovered, with every column of the row given |
| `RecoverySafety.NewFramesDelivered` | api/src/services/gap_recovery.py:153-170 | raw keeps its frames, and each frame new in raw is the one such a line carries |
| `RecoverySafety.MissingLookedUp` | api/src/services/gap_recovery.py:176-207 | a counter reported missing is recovered when raw holds it and given up with one lost event when not |
| `RecoverySafety.FailedHandlerKeepsRows` | api/src/services/gap_recovery.py:143-173 | a handler that stops after any number of lines leaves every row and event as they were, and in raw exactly the frames of the lines before that parse and ingest |
| `RecoverySafety.RawOrigin` | api/src/services/gap_recovery.py:143-173 | in whatever step, a frame is in raw exactly when it was there, arrives live, or is carried by a line the handler came to that parses and is taken |
| `RecoverySafety.CorrelatedIff` | api/src/services/gap_recovery.py:87-139 | an answer is accepted if and only if it is a read of at least one counter, all of them inflight, whose two counts agree; any other changes nothing |
| `RecoverySafety.PartitionIff` | api/src/services/gap_recovery.py:133-139 | for every accepted answer, lines and missing cover the request if and only if the errors of the two counts differ by the surplus of the answer; for a well-formed one without repeats they partition it exactly when the errors are equal, as when the counts are absent or true |
| `RecoverySafety.FullAnswerClosesAll` | api/src/services/gap_recovery.py:143-207 | a partition whose lines all ingest leaves no requested counter inflight |
| `RecoverySafety.LyingCountsLeaveInflight` | api/src/services/gap_recovery.py:133-139 | two requested, one answered, found_count 2: accepted, and the other counter stays inflight |
| `RecoverySafety.RepeatedLineLeavesInflight` | api/src/services/gap_recovery.py:133-139 | two requested, one line sent twice, no counts: accepted, and the other counter stays inflight |
| `RecoverySafety.ForeignLineRecovers` | api/src/services/gap_recovery.py:145-170 | the failing input of the row below: a line that carries another gateway's name closes the row without a frame of this gateway in raw |
| `RecoverySafety.ApplyKeepsBackedIff` | api/src/services/gap_recovery.py:143-207 | whatever the response, recovered rows stay backed by raw if and only if each ingested line for a row carries the gateway's own name, or its counter is in raw or also missing |
| `RecoverySafety.ApplyKeepsClosedIff` | api/src/services/gap_recovery.py:143-207 | whatever the response, closed rows stay closed as they were if and only if it names no counter given up before, other than as missing and not in raw |
| `RecoverySafety.ApplyKeepsLostOnceIff` | api/src/services/gap_recovery.py:176-219 | whatever the response, one lost event per row given up is kept if and only if it gives up only rows not given up before and recovers none that was |
| `RecoverySafety.DetectionNotLost` | api/src/services/gap_recovery.py:376-447 | the transaction commits if and only if a pending or newly detected counter is not in raw; it then asks for the n smallest of those and each of the first 5000 detected not in raw has a row; otherwise the table is untouched |
| `RecoverySafety.FirstDetectedAre` | api/src/services/gap_recovery.py:384-400 | the counters recorded by one job are those at the first 5000 places of the list |
| `RecoverySafety.BatchGivenBackIff` | api/src/services/gap_recovery.py:358-374 | the batch in flight goes back to pending if and only if it is as old as the timeout; its rows and no others change |
| `RecoverySafety.GuardProceedsIff` | api/src/services/gap_recovery.py:347-374 | the job goes on if and only if nothing is inflight, some inflight row is as old as the timeout, or none carries a time and the timeout is at most 10^9 seconds |
| `RecoverySafety.FailedPublishUndoesMark` | api/src/services/gap_recovery.py:457-468 | a failed publish undoes exactly the marking and keeps what was recorded and resolved |
| `RecoverySafety.LostBatchAskedAgain` | api/src/services/gap_recovery.py:358-447 | a batch that is published and never answered is given back by the guard at its timeout, and the next marking picks the same counters |
| `RecoverySafety.PublishedBatchWaits` | api/src/services/gap_recovery.py:358-447 | before that timeout the guard stops the job and changes nothing |
| `RecoverySafety.RunKeepsBatchesGiven` | api/src/services/gap_recovery.py:430-447 | over every run no inflight row carries a batch id that was not given out yet, so batches never share one |
| `RecoveryProgress.RoundClears` | api/src/services/gap_recovery.py:336-474 | a round with a full answer, with live traffic before any of its steps, closes the n smallest of what can be requested, new detections included: at most the rest is left, and exactly the rest when nothing arrives after the marking |
| `RecoveryProgress.BacklogClears` | api/src/services/gap_recovery.py:336-474 | with nothing new detected, each round takes its batch size off the number of rows that are pending and not in raw, down to zero |
| `RecoveryProgress.RoundsNeeded` | api/src/services/gap_recovery.py:336-474 | k rounds of size at least N suffice when k * N reaches that number: every row still pending is then a frame in raw |
| `RecoveryConvergence.OnlyLostGapsRemain` | api/src/services/gap_recovery.py:376-400 | when recovery has caught up with a window, every counter still detected there is not_found and had exactly one lost event |
| `RecoveryConvergence.RecoveryCatchesUp` | api/src/services/gap_recovery.py:376-474 | from the list of a window of at most 5000 detected counters, enough answered rounds catch up while nothing else arrives: each detected counter is in raw or was given up with one lost event, and a later window detects only recorded counters |
| `RecoveryConvergence.WindowReflects` | api/src/services/gap_detection.py:76-93 | the rows of the window query hold exactly the counters of the gateway's own frames in raw |
| `RecoveryConvergence.RecoveredNeverDetected` | api/src/services/gap_recovery.py:143-173 | a recovered counter is detected in no window on the frames of any later state |
| `RecoveryService.GatewayRecovery.CheckInflight` | api/src/services/gap_recovery.py:347-374 | the guard reaches the state of the guard step, and lets the job go on only with nothing in flight |
| `RecoveryService.GatewayRecovery.MarkBatch` | api/src/services/gap_recovery.py:376-447 | upsert, auto-resolve, pick and the marking loop reach the state of the marking step and return its pick |
| `RecoveryService.GatewayRecovery.Publish` | api/src/services/gap_recovery.py:449-474 | publish or undo reaches the state of the publish step; a failed publish leaves nothing in flight |
| `RecoveryService.GatewayRecovery.RecoverGateway` | api/src/services/gap_recovery.py:336-474 | an undisturbed run of the job is guard, marking and publish in sequence; it reports 1 exactly when it published a new batch |
| `RecoveryService.GatewayRecovery.CorrelateResponse` | api/src/services/gap_recovery.py:87-139 | the handler's checks accept exactly the messages of the correlation step |
| `RecoveryService.GatewayRecovery.ApplyResponse` | api/src/services/gap_recovery.py:143-221 | the loops over lines and missing, in any order of the latter, reach the state of the application step |
| `Crc16.Crc16Ccitt` | api/src/services/payload_parser.py:542-552 | the nested loops compute the register function the theorems are about |
| `CrcValue.CrcOfComplement` | api/src/services/payload_parser.py:542-552 | the CRC of two bytes or more is the remainder, from a register of zeros, of the message with its first sixteen bits inverted and sixteen places appended |
| `CrcValue.CrcOfNothing` | api/src/services/payload_parser.py:544 | the CRC of no bytes is 0xFFFF |
| `CrcValue.CheckValue` | api/src/services/payload_parser.py:542-552 | the CRC of the nine bytes "123456789" is 0x29B1 |
| `Codeword.CrcDivides` | api/src/services/payload_parser.py:542-552 | the register is the remainder of long division of the message, two places up, by the generator |
| `Codeword.CodewordIffCrc` | api/src/services/payload_parser.py:542-552 | the CRC is the one word that, appended, makes the division come out even |
| `ErrorDetection.CrcParity` | api/src/services/payload_parser.py:542-552 | the parity of the CRC's set bits is that of the message's |
| `ErrorDetection.BurstsDetected` | api/src/services/payload_parser.py:542-552 | a nonzero error within sixteen consecutive bits is no multiple of the generator, at any message length |
| `ErrorDetection.UpToThreeBitsDetected` | api/src/services/payload_parser.py:542-552 | nor is one, two or three flipped bits over the length of a frame |
| `FrameErrors.OddFlipsChangeCrc` | api/src/services/payload_parser.py:542-552 | messages of equal length that differ in an odd number of bits have different CRCs |
| `FrameErrors.BurstChangesCrc` | api/src/services/payload_parser.py:542-552 | so do messages that differ only within sixteen consecutive bits |
| `FrameErrors.AdjacentBytesChangeCrc` | api/src/services/payload_parser.py:542-552 | so do messages that differ only in two adjacent bytes |
| `FrameErrors.FlippedFrameRejected` | api/src/services/payload_parser.py:594-646 | an accepted input with one, two, three or any odd number of bits of its frame flipped, CRC bytes included, is rejected |
| `FrameErrors.BurstInBodyRejected` | api/src/services/payload_parser.py:594-646 | damage within sixteen consecutive bits of the body is rejected |
| `HmFrame.AcceptedIff` | api/src/services/payload_parser.py:594-624 | an input is accepted exactly when it is a valid frame behind at most four bytes where no earlier "HM" starts; the offset is its length minus 34 |
| `HmFrame.CrcFailureIff` | api/src/services/payload_parser.py:602-623 | the reason is "crc" exactly for inputs well formed in everything else whose CRC is wrong |
| `HmFrame.DecodeReasons` | api/src/services/payload_parser.py:602-623 | the outcome of every input that holds "HM", check by check in the source's order, with offsets, sizes and constants written out |
| `HmFrame.NoFrame` | api/src/services/payload_parser.py:600-608 | an input without "HM", or hex text that does not read, is a format error |
| `HmFrame.DecodedFields` | api/src/services/payload_parser.py:624-646 | each decoded field from the bytes of the frame: offsets, byte order, sign and scale, and the two flags from bits 1 and 2 of the flags byte |
| `HmFrame.PrintedBody` | api/scripts/lora_simulator.py:119-142 | the first 32 printed bytes, one by one, from the fields |
| `HmFrame.PrintedFrame` | api/scripts/lora_simulator.py:119-142 | the printed frame is that body with its CRC, low byte first, or the CRC inverted when asked for a bad one |
| `HmFrame.PrintsIff` | api/scripts/lora_simulator.py:119-142 | a frame is printed if and only if the uid is hex, type and flags are bytes and the temperature in hundredths fits sixteen signed bits |
| `HmFrame.RoundTrip` | api/scripts/lora_simulator.py:119-142 | decoding what the printer prints, behind any tolerated prefix, returns the printed fields modulo their width, and a corrupted CRC is reported as that |
| `HmFrame.RoundTripInRange` | api/scripts/lora_simulator.py:119-142 | fields within their ranges come back unchanged |
| `HmFrame.Reencode` | api/src/services/payload_parser.py:624-646 | printing the fields of an accepted frame with its two ignored version bytes gives the frame back |
| `Hex.FromToHex` | api/src/services/payload_parser.py:601 | bytes.fromhex undoes hex(), in upper case |
| `Hex.ReadsBytes` | api/src/services/payload_parser.py:601 | fromhex step by step: two digits make a byte, blanks between bytes are skipped, anything else refuses the text |
| `Hex.DigitsAre` | api/src/services/payload_parser.py:601 | the sixteen digits and their values, in both cases |
| `Hex.HexOfByte` | api/src/services/payload_parser.py:631 | the two upper-case digits of a byte, high one first |
| `Hex.NormalizeSerialCanonical` | api/src/services/payload_parser.py:555-564 | a serial is canonical: normalising it again changes nothing and its sixteen digits are the input's |
| `Hex.SerialShape` | api/src/services/payload_parser.py:555-564 | a serial exists exactly for sixteen digits, and is those digits in pairs with colons between |
| `Hex.UidSerial` | api/src/services/payload_parser.py:555-564 | every 8-byte uid has a serial and no two share one |
| `GatewayRx.ParseOutcomes` | api/src/services/payload_parser.py:649-673 | a wrapper is accepted exactly when its frame decodes and its ts_ms is plausible; the serial check never fails; parsing it later gives the same payload |
| `GatewayRx.SameSerialIffSameUid` | api/src/services/payload_parser.py:655-661 | accepted wrappers share a serial exactly when their frames share a uid |
| `RxIngestion.RedeliveredWrapper` | api/src/services/ingestion.py:308-356 | a wrapper delivered again, however much later, stores neither a reading nor a raw copy |
| `RxIngestion.OneFrameStoredOnce` | api/migrations/022_measurement_dedupe_by_seq.sql:3-10 | once the readings of a radio frame are stored, no other wrapper of that frame stores any, whatever its time or gateway |
| `RxIngestion.ParsedPayload` | api/src/services/payload_parser.py:649-721 | an accepted wrapper becomes the payload of its decoded frame, its ts_ms and its serial |
| `RxIngestion.PayloadShape` | api/src/services/payload_parser.py:678-721 | that payload has two readings with the frame's counter and time, the wrapper as raw copy, and both flags |
| `RxIngestion.StoredAsFrame` | api/src/services/payload_parser.py:678-721 | the columns of both readings and both flags, each from the bytes of the frame and the ts_ms of the wrapper |
| `RxIngestion.IngestedAlarmEdges` | api/src/services/payload_parser.py:710-721 | over every sequence of payloads the program's parsers produce, alarm events alternate, their balance is the stored flag, and the stored flag is the last delivered one |
| `RxIngestion.IngestedInStep` | api/src/services/payload_parser.py:710-721 | none of those payloads drops a set flag, so events and flag are in step after every delivery |
| `IngestionBuffer.RunKeepsInv` | api/src/services/ingestion.py:242-306 | whatever the database does: payloads are conserved, in arrival order, tried at most four times, at most threshold + 2 between operations, and none is dropped below the cap |
| `IngestionBuffer.LockedBound` | api/src/services/ingestion.py:199-205 | under the lock at most threshold + 3 |
| `IngestionBuffer.ExactlyOnePlace` | api/src/services/ingestion.py:242-306 | every payload that arrived is in exactly one of processed, discarded, dropped or buffered, once |
| `IngestionBuffer.OverflowIff` | api/src/services/ingestion.py:292-302 | the overflow branch is reachable if and only if the threshold plus two exceeds the cap |
| `IngestionBuffer.FlushConserves` | api/src/services/ingestion.py:242-306 | one flush moves payloads between those places and loses none |
| `IngestionBuffer.FlushOutcome` | api/src/services/ingestion.py:260-288 | what a flush does to each buffered payload: taken by the database means new in processed and gone; refused means discarded after three retries, and before that requeued with one more or dropped by the cap |
| `IngestionBuffer.FlushDropsOldest` | api/src/services/ingestion.py:292-302 | a flush drops only to bring the buffer down to the cap, and only payloads older than all it keeps |
| `IngestionBuffer.RunOutcome` | api/src/services/ingestion.py:242-306 | over every run a payload is processed if and only if some flush that held it was not refused, is discarded if and only if four flushes held it and all were refused, and is tried once by each flush that holds it |
| `IngestionBuffer.IngestionService.IngestParsed` | api/src/services/ingestion.py:178-205 | an accepted payload ends in the state of the ingest step; without a serial number nothing changes |
| `IngestionBuffer.IngestionService.TimedFlush` | api/src/services/ingestion.py:128-134 | the periodic flush ends in the state of its step |
| `IngestionBuffer.IngestionService.FlushUnlocked` | api/src/services/ingestion.py:242-306 | swapping, trying, requeueing and cutting at 10 000 reach the state of the flush function |
| `Ingestion.RunKeepsKeysUnique` | api/src/services/ingestion.py:470-480 | (sensor, ts) and (sensor, msg_counter) are unique in every state |
| `Ingestion.InsertedIff` | api/src/services/ingestion.py:452-480 | a reading is stored, with each column given, if and only if no row of its sensor has its time or its counter |
| `Ingestion.StoreRepresents` | api/src/services/ingestion.py:470-480 | nothing is removed or invented, and every delivered reading is represented by a row with its sensor and its time or counter |
| `Ingestion.RedeliveryStoresNothing` | api/src/services/ingestion.py:470-480 | a payload delivered before leaves the measurement table as it is |
| `Ingestion.RepetitionsStoreNothing` | api/migrations/022_measurement_dedupe_by_seq.sql:28-30 | redeliveries, any number of them anywhere among new payloads, store exactly what the first deliveries alone store |
| `Ingestion.AllStoredIff` | api/migrations/022_measurement_dedupe_by_seq.sql:28-30 | every reading of a run is stored if and only if no two different ones share a key |
| `Ingestion.ReusedCounterNeverStored` | api/migrations/022_measurement_dedupe_by_seq.sql:25-30 | a reading with a stored counter is never stored, however new its time |
| `Ingestion.DeliverToFlag` | api/src/services/ingestion.py:374-447 | one delivery as one flag of one device sees it; flags and devices do not touch each other |
| `Ingestion.FlagsWritten` | api/src/services/ingestion.py:374-447 | the stored flags and the events of one delivery, each flag written out: which flag, which device, raised or cleared, in which order |
| `Ingestion.AlarmEdges` | api/src/services/ingestion.py:374-447 | over payloads with both flags or none: events alternate starting with raised, raised minus cleared is 1 exactly when the stored flag is true, and the stored flag is the last delivered one, for each flag on its own |
| `Ingestion.RunInStepIff` | api/src/services/ingestion.py:387-417 | with any payloads, events and stored flag stay in step if and only if no payload drops a set flag |
| `Ingestion.DroppedFlagRaisesTwice` | api/src/services/ingestion.py:400-417 | alarm raised, a payload with the battery flag only, alarm again: two raised events in a row; no parser produces such a payload |
| `Ingestion.NoOpIff` | api/src/services/ingestion.py:308-356 | a delivery changes nothing if and only if its readings are taken, its raw copy is there and its flags equal the stored ones |
| `Ingestion.ReplayRaisesAgain` | api/src/services/ingestion.py:349-356 | replaying a cleared alarm frame stores nothing and raises the alarm again |
| `Ingestion.IngestionStore.ProcessSensorData` | api/src/services/ingestion.py:452-480 | the insert with ON CONFLICT DO NOTHING |
| `Ingestion.IngestionStore.ProcessAlarmState` | api/src/services/ingestion.py:374-447 | both flags are overwritten; an event for each flag that is present and differs from the stored truth value |
| `Ingestion.IngestionStore.ProcessParsedPayload` | api/src/services/ingestion.py:308-356 | the statements of one payload reach the state of its delivery; true exactly when the raw copy is new |
| `Ingestion.IngestionStore.IngestRecoveredFrame` | api/src/services/ingestion.py:212-235 | inserted or already present leaves the raw copy there; a failure leaves everything as it was |
| `FirmwareDeployment.RunKeepsInv` | api/src/services/firmware_deployment.py:48-149 | over any interleaving, loss, repetition and reordering: pending rows have no request_id, acked_at is set iff the row is closed, requests are never shared, and the result counters equal the numbers of closed rows |
| `FirmwareDeployment.StepForward` | api/src/services/firmware_deployment.py:91-149 | a row moves pending, command_sent, success or failed, one stage at a time, never back; a closed row does not change |
| `FirmwareDeployment.RunForward` | api/src/services/firmware_deployment.py:91-149 | the same over every run: never back, a closed row as it was, and a request once recorded is kept |
| `FirmwareDeployment.FailedPublishStaysPending` | api/src/services/firmware_deployment.py:91-94 | a deployment whose publish failed stays as it is for ever: no result can name it |
| `FirmwareDeployment.RunKeepsDetails` | api/src/services/firmware_deployment.py:91-134 | in every reachable state an error text belongs to a failed publish or a failed result |
| `FirmwareDeployment.ClosedStays` | api/src/services/firmware_deployment.py:126-141 | a closed row stays as it is over every run |
| `FirmwareDeployment.FirstResultDecides` | api/src/services/firmware_deployment.py:107-149 | a deployment ends as success if and only if the first message that names its request while it waits is an ack with ok or an ota_ok event, and as failed if and only if that message is an ack without ok or an ota_fail event |
| `FirmwareDeployment.StepCloses` | api/src/services/firmware_deployment.py:107-149 | an open row is closed as success exactly by an ack with ok or an ota_ok event for its request while it waits, as failed exactly by an ack without ok or an ota_fail event, and by nothing else |
| `FirmwareDeployment.ResultWrites` | api/src/services/firmware_deployment.py:118-149 | a result writes every column of the row and one counter; an event writes the same as the ack that says the same |
| `FirmwareDeployment.OtherMessagesIgnored` | api/src/services/firmware_deployment.py:166-225 | ota_start, other events, and acks and events without an id change nothing |
| `FirmwareDeployment.DeployWrites` | api/src/services/firmware_deployment.py:60-104 | what each transaction of a deployment writes: the pending row, then command_sent with the request and time, or the error text |
| `FirmwareDeployment.EarlyResultLost` | api/src/services/firmware_deployment.py:89-104 | an ack or event that names the request between the publish and the second transaction changes nothing |
| `FirmwareDeployment.FirmwareDeployments.CreateDeployment` | api/src/services/firmware_deployment.py:60-78 | the first transaction, or the refusal of an unknown release |
| `FirmwareDeployment.FirmwareDeployments.RecordPublish` | api/src/services/firmware_deployment.py:91-104 | the second transaction: command_sent with its request, or the error text and a row still pending |
| `FirmwareDeployment.FirmwareDeployments.ApplyOtaResult` | api/src/services/firmware_deployment.py:107-149 | the guarded update and the counter; true exactly when an open row carries the request |
| `FirmwareDeployment.FirmwareDeployments.HandleOtaAck` | api/src/services/firmware_deployment.py:152-188 | an ack without a usable id changes nothing, any other is applied |
| `FirmwareDeployment.FirmwareDeployments.HandleOtaEvent` | api/src/services/firmware_deployment.py:191-225 | only ota_ok and ota_fail with a usable id are applied |
| `Calibration.DenomSign` | api/src/services/calibration.py:90-94 | the denominator is never negative and zero exactly when all z are equal |
| `Calibration.FitIsUniqueMinimiser` | api/src/services/calibration.py:96-97 | the fitted (m, c) is the unique minimiser of the sum of squared residuals over all real pairs |
| `Calibration.TotalSumOfSquares` | api/src/services/calibration.py:99-102 | total = regression + residual sum of squares |
| `Calibration.RSquaredRange` | api/src/services/calibration.py:99-102 | R squared is in [0, 1], and 1 exactly when every sample is on the fitted line |
| `Calibration.RSquaredIsExplained` | api/src/services/calibration.py:99-102 | R squared times the total sum of squares is the regression sum of squares, whenever the moistures differ; when they are all equal it is 1 |
| `Calibration.MeanIsBestConstant` | api/src/services/calibration.py:99-101 | the total is taken around the one constant that fits the moistures best |
| `Calibration.TotalIsZeroIff` | api/src/services/calibration.py:100-102 | the total is zero, so that R squared is set to 1, if and only if all moistures are equal |
| `Calibration.LineRecovered` | api/src/services/calibration.py:82-102 | samples exactly on a line give back that line with R squared 1 |
| `Calibration.RegressionRefused` | api/src/services/calibration.py:75-94 | the fit is refused exactly for fewer than three valid points or coinciding adc |
| `Calibration.ValidPointsAre` | api/src/services/calibration.py:66-73 | a point is valid, wherever it stands, exactly for adc within 1 to 1022 and moisture within 8 to 25 |
| `Calibration.FitReports` | api/src/services/calibration.py:104-112 | what a fit reports: the parameters of the valid samples, their number, every point as marked, and the smallest and largest valid moisture |
| `Calibration.PointsOnLineRecovered` | api/src/services/calibration.py:56-112 | the same from the points on, whatever the invalid points are |
| `Calibration.MarkPoints` | api/src/services/calibration.py:66-73 | the pass marks every point and collects the valid ones in order |
| `Calibration.LeastSquares` | api/src/services/calibration.py:82-102 | the sums give slope, intercept and R squared, or the refusal |
| `Calibration.ComputeRegression` | api/src/services/calibration.py:56-112 | the whole computation is the function the theorems are about |
| `Calibration.CalibrationPointsInRange` | api/src/services/calibration.py:115-126 | of whatever points a calibration was fitted to, none is reported as extrapolated if and only if the valid points of smallest and largest adc are not |
| `Calibration.LinePointsInRange` | api/src/services/calibration.py:115-126 | for points exactly on a line that is when rounding keeps both ends of the range inside it |
| `Calibration.ConversionIs` | api/src/services/calibration.py:115-126 | no adc strictly between 0 and 1023 means no value; any other gives the curve to the nearest tenth and reports it exactly when outside the range |
| `Calibration.RoundNearest` | api/src/services/calibration.py:121 | that rounding is to the nearest, halves to even |
| `Calibration.OffLineFlagged` | api/src/services/calibration.py:115-126 | moistures 10, 10 and 13 at z of 0, 1 and 2 give 1.5 * z + 9.5, which reports the first point although both ends are whole |
| `Calibration.EndOfRangeFlagged` | api/src/services/calibration.py:115-126 | a range that ends at 8.04 reports its own lowest point as extrapolated |
| `Retention.BatchEffect` | api/src/services/retention.py:31-45 | one batch, whatever LIMIT picks: only expired rows go, at least as many as picked, and a short batch means none is left |
| `Retention.BatchCanExceedLimit` | api/src/services/retention.py:34-41 | the failing input of the rows below: rows that share a timestamp make a batch exceed its size |
| `Retention.BatchExceedsLimitIff` | api/src/services/retention.py:31-45 | a batch exceeds its size if and only if the selection is full and leaves a row that shares a timestamp with it |
| `Retention.BatchesWithinLimitIff` | api/src/services/retention.py:31-45 | every selection stays within the size if and only if the size is zero, no more rows are expired, or no two expired rows share a timestamp |
| `Retention.Table.DeleteBatch` | api/src/services/retention.py:31-45 | the delete by timestamp of an arbitrary selection |
| `Retention.Table.RunTableCleanup` | api/src/services/retention.py:48-58 | the loop ends with exactly the rows whose time is not before the cutoff, and counts the others |

## Left out

- One gateway's recovery rows are modelled on their own, because every statement filters on gw_serial; the loop over gateways, the gauges and the run lock as an object are not modelled (the lock is the job being serial).
- The marking transaction of the recovery job is one atomic step; nothing is said about interleavings inside it, read anomalies of the database, or crashes inside a transaction.
- The window query of gap detection (fields present, ts_ms within the hours) is its input, and where it is related to raw it covers all of the gateway's frames; frames out of the window and the completeness percentage are not modelled.
- Frame counters of the recovery table are naturals; a response that names a negative counter is one that matches nothing in flight.
- `gateway.uplink_gap_recovered` events and the Prometheus counters are not modelled; lost events are, for a gateway that is registered.
- Recovery theorems over runs assume answers whose lines and missing counters are among the requested ones and whose lines carry the gateway's own name, which the handler does not check; for any other answer `RecoverySafety.ApplyKeepsBackedIff`, `RecoverySafety.ApplyKeepsClosedIff` and `RecoverySafety.ApplyKeepsLostOnceIff` say exactly what its application keeps.
- Retention of raw rows during recovery: raw only grows in the recovery model.
- `_gateway_batch_size` is any number between 1 and the configured maximum.
- The CRC register is a sequence of sixteen bits, so the mask `& 0xFFFF` is the fixed length of the register.
- Calibration uses reals: no floating-point rounding, and of log10((1023 - adc) / adc) only that it decreases strictly on (0, 1023).
- Wrapper fields of other types than expected, and the number formats Python accepts for ts_ms, are read as missing.
- The ingestion buffer without task cancellation in the middle of a flush, and without the drain timeouts of `stop()`.
- Alarm processing without database errors inside its own try block, the `*_changed_at` columns, the reflected node configuration, and device_status rows.
- Ingestion registers devices, sensors and gateways on first contact; a device is its serial and a sensor its index, so registration and the gateway association are not modelled.
- Raw payloads are compared as text, so hash collisions of payload_hash are not modelled.
- Firmware deployments: the `timeout` status is declared and never set by this code; duration metrics and log lines are not modelled.
- Retention: rows inserted while the cleanup loop runs.
- Legacy and v1 payload discovery, gateway heartbeats and configuration, floor plans, spatial assets, auth, exports, object storage and MQTT plumbing: single-branch or external.
