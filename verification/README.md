# PA Reader: a verified model

A Dafny model of the PA Reader firmware and of its Go host library, with proofs of what the two promise
each other. The firmware reads MIFARE and FeliCa cards through a PN532 chip and serves them over two USB
protocols: a byte-stuffed, checksummed serial protocol (SEGA CDC), and PRHP, a 64-byte report protocol
(RFC 0001 in `spec/`). The host library opens the device, verifies its version, keeps the current card,
and survives disconnection.

Verify everything with `dafny verify dfyconfig.toml`.

| file | what it holds |
|---|---|
| `Wrappers.dfy`, `Bytes.dfy` | results, machine integers, modulo-256 sums |
| `SegaFraming.dfy` | the CDC encoder and streaming parser as functions, and the stream laws |
| `Sega.dfy` | the CDC device as an object over a 257-byte buffer, proved against those functions |
| `SegaLaws.dfy` | request-reply laws over single frames and whole conversations |
| `SegaReplies.dfy` | the SEGA commands in the bytes on the wire: which frames are requests, how each is answered |
| `Pn532.dfy` | the PN532 information frame, the response checks, the exchanges |
| `CardReader.dfy` | the reader object: FeliCa search, key attempts, observations |
| `ScanLaws.dfy` | what a scan observes, read off the bytes the chip frames |
| `Protocol.dfy` | the host codec of PRHP |
| `Prhp.dfy` | the device side of PRHP |
| `Caller.dfy` | sequence allocation and response consumption, one operation at a time |
| `CallerRaces.dfy` | the same two operations, interleaved step by step over any number of threads |
| `CallerOutcomes.dfy` | how each interleaved call ends, and that it does |
| `DeviceShutdown.dfy` | the HID writer, its queue and its shutdown, interleaved |
| `DeviceProgress.dfy` | what stops the device, what becomes of a `Write`, and that accepted reports are written |
| `Session.dfy` | routing, read loop, card cache, version check, getters |
| `Link.dfy` | one session among its goroutines: read loop, verifier and call table, interleaved |
| `Service.dfy` | the connection supervisor, its sessions and its `Close` callers, interleaved |
| `ServiceRetry.dfy` | the failure the supervisor reports, and the delay between its attempts |
| `ServiceProgress.dfy` | why the supervisor never stops trying, and exits once cancelled |
| `ServiceShutdown.dfy` | why the supervisor's `Close` returns |
| `App.dfy` | the firmware's main loop over whole runs, and the host that listens |
| `Search.dfy` | the FeliCa search as the running loop and SEGA requests drive it |
| `LoopLaws.dfy` | the loop against its inputs: what it scans, parses, answers and delivers |
| `EndToEnd.dfy` | from the antenna to the host's identifiers; the version handshake |

How the outside enters the model:

- The I2C bus is an `Air`: for every exchange, command and request it may fail or return any 280-byte
  buffer. Nothing is assumed of it except where a statement says so.
- Messages, the clock, and whether a report reaches the host are inputs of each loop pass. The 200 ms scan
  and all host timeouts are abstract: a timer may fire at any step that waits for it.
- Concurrent Go code is a step system with one atomic load, store, swap or channel operation per step.
  Statements quantify over all runs and all interleavings; the table of pending calls may lose any entry at
  any step, which covers expiry and eviction. `hidapi` calls succeed or fail freely.
- Progress is stated over unbounded executions under weak fairness: whoever can always move moves at some
  time, which covers device calls that return. Of a read nothing is asked while its handle is open; once it is
  closed the read returns, and only finitely many reports still come out of it.

Where the code does less than its documentation or a first reading suggests, the model follows the code
and says exactly how far the promise reaches:

- A request with a signal's opcode is answered, although RFC 0001, section 6, has it discarded
  (`Prhp.WrongTypeDiscardedExactly`, `Prhp.SetLedRequestAnswered`).
- Published observations never repeat, but signals can: `App.SignalRepeatsExactly` says when, over every run;
  `App.UnsupportedTagsRepeatNone` runs the loop over any two unsupported tags in a row and shows two `NONE`
  delivered, which RFC 0001, section 8, does not foresee.
- A raw `SYNC` behind a pending escape is data, so a frame can be lost: a reachable state delivers every frame
  that can come if and only if no escape is pending in it (`SegaFraming.DeliversExactly`), and behind a lost
  frame every next one is delivered if and only if the noise between does not leave an escape pending inside a
  frame (`SegaFraming.NextDeliveredExactly`; `SegaFraming.Stabilises` for all later frames). Both losses happen
  (`SegaFraming.PendingEscapeSwallowsFrame`, `SegaFraming.TrailingEscapeLosesNext`).
- A FeliCa exchange that returns 250 bytes fits its buffer but not a reply, so the request stays unanswered:
  `SegaReplies.NfcRequestAnswered` says that only this does, `SegaLaws.OverlongResultUnanswered` that it happens.
- `Remove` can drop another caller's call, and an allocation can replace a live one, so that two calls in
  flight share a sequence, which RFC 0001, section 4.2, excludes. `CallerRaces.RemoveDropsOtherExactly` and
  `CallerRaces.AddReplacesExactly` say exactly when, over every run: a call was added for the sequence since the
  thread's own lookup, and not dropped again. If no allocation stalls for 65536 draws between drawing its
  sequence and adding its call, none is ever replaced (`CallerRaces.PromptCallsKeepSequence`), and `Remove` is
  right up to 65536 draws after the call's own (`CallerRaces.RemoveDropsOwn`). Neither bound can go
  (`CallerRaces.StaleAddLosesEntry`, `CallerRaces.StaleAddReplacesCall`, `CallerRaces.LateRemoveLosesEntry`).
- Of two racing `Close` calls on a device the loser can return while the handle is still open
  (`DeviceShutdown.CloseReturnsEarly`): exactly while the other stands between its swap and closing the handle
  (`DeviceShutdown.ReturnedClose`). The same window reaches the service: a `Close` that lost the service's swap
  can return with a handle open (`Service.LosingCloseReturnsEarly`), the winner cannot
  (`Service.ReturnedIsQuiet`).

## Model

| member | source | states |
|---|---|---|
| Bytes.ChecksumSeesChange | impl/firmware/main/sega.c:311-315 | The 8-bit sum of a byte string changes whenever exactly one byte of it does. |
| SegaFraming.RunConcat | impl/firmware/main/sega.c:277-324 | Feeding two byte strings one after the other is feeding their concatenation: same final state, frames appended. |
| SegaFraming.ChunkingIrrelevant | impl/firmware/main/sega.c:277-324 | However the input is cut into receive calls, state and delivered frames are those of one run over all bytes. |
| SegaFraming.RunWellFormed | impl/firmware/main/sega.c:277-324 | Every input keeps the parser in the reachable states: idle and empty, or inside a frame short of its announced length. |
| SegaFraming.BailOutsUnreachable | impl/firmware/main/sega.c:302-321 | After any input there is room for the next byte and storing it cannot pass the expected size: the overflow and too-long branches never run. |
| SegaFraming.DeliveredLengths | impl/firmware/main/sega.c:308-317 | Every delivered frame has its own length as first stored byte, so dispatch sees `request[0] == size`. |
| SegaFraming.UnstuffStuff | impl/firmware/main/sega.c:48-56 | Unescaping undoes byte stuffing for every byte string. |
| SegaFraming.Provenance | impl/firmware/main/sega.c:277-324 | For every input: delivered bodies match disjoint pieces of it in order, each a `SYNC` whose continuation unescapes to the body and its checksum, and the buffer is the unescaped input since the last accepted `SYNC`. |
| SegaFraming.SegmentDecides | impl/firmware/main/sega.c:308-322 | However it is escaped, a raw segment that unescapes to as many bytes as it announces ends the frame; it is delivered if and only if its last byte is the sum of the others. |
| SegaFraming.FrameDelivered | impl/firmware/main/sega.c:277-324 | From every reachable state without a pending escape an encoded frame is delivered intact and leaves the parser idle. |
| SegaFraming.RoundTrip | impl/firmware/main/sega.c:277-324 | Any list of bodies, encoded and separated by any `SYNC`-free noise, is delivered exactly, in order, and nothing else is. |
| SegaFraming.NoSyncUnstuffs | impl/firmware/main/sega.c:289-300 | Noise without `SYNC` is accepted by the escape layer, so the two statements below cover all of it. |
| SegaFraming.OneFrameSettles | impl/firmware/main/sega.c:289-300 | From every reachable state, one whole frame and any noise behind it with a raw `SYNC` only behind an escape: an escape is then pending exactly if the parser is inside a frame and the noise leaves one; without any `SYNC` in the noise at most one frame is completed. |
| SegaFraming.Stabilises | impl/firmware/main/sega.c:289-300 | Self-stabilisation: from every reachable state, after one possibly lost frame and any noise the escape layer accepts that leaves no escape pending, every later frame is delivered exactly; if the noise holds no `SYNC`, at most one stale frame comes before them. |
| SegaFraming.PendingEscapeSwallowsFrame | impl/firmware/main/sega.c:297-300 | The input `SYNC`, `ESCAPE` and a correct frame delivers nothing, so the one lost frame cannot be excluded. |
| SegaFraming.TrailingEscapeLosesNext | impl/firmware/main/sega.c:297-300 | With an `ESCAPE` behind the lost frame the next correct frame is lost too, so noise that leaves an escape pending cannot be allowed there. |
| SegaFraming.DeliversExactly | impl/firmware/main/sega.c:289-300 | A reachable state delivers every frame that can come, and it alone, if and only if no escape is pending in it. |
| SegaFraming.PendingEscapeLosesOne | impl/firmware/main/sega.c:297-300 | From every reachable state with an escape pending the frame of the body `[1]` is lost. |
| SegaFraming.NextDeliveredExactly | impl/firmware/main/sega.c:289-300 | After any frame from any reachable state and any noise the escape layer accepts, every next frame is delivered if and only if the parser is not inside a frame with an escape left pending by the noise. |
| SegaFraming.CorruptionRejected | impl/firmware/main/sega.c:309-317 | Changing exactly one non-length byte of a decoded frame, checksum included, always gets it rejected, whatever raw bytes the changed frame is escaped to. |
| Sega.Device.constructor | impl/firmware/main/sega.c:272-275 | A new device is idle, has dispatched nothing and sent nothing. |
| Sega.Device.EncodeByte | impl/firmware/main/sega.c:48-56 | Appends exactly the stuffed form of the byte at the size pointer and leaves what is before it alone. |
| Sega.Device.EncodeFrame | impl/firmware/main/sega.c:80-88 | The buffer filled in place is the encoded frame, at most 513 bytes, never past the 520-byte array. |
| Sega.Device.SendResponse | impl/firmware/main/sega.c:58-89 | Sends one frame echoing address, sequence and command with status and payload, or nothing for a payload above 249 bytes. |
| Sega.Device.DispatchLed | impl/firmware/main/sega.c:91-116 | Sends the reply of the LED command, none for `SET_COLOR`. |
| Sega.Device.DispatchNfc | impl/firmware/main/sega.c:118-248 | Leaves the reader and sends the reply that `HandleNfc` specifies for the command, payload and air. |
| Sega.Device.DispatchFrame | impl/firmware/main/sega.c:250-263 | Leaves the reader and sends the replies that `Dispatch` specifies, and logs every frame it is handed; which frames are served is `SegaReplies.RequestsRecognised` and `SegaReplies.OthersDropped`. |
| Sega.Device.ResetParser | impl/firmware/main/sega.c:265-270 | Leaves the parser in its initial state. |
| Sega.Device.StoredSum | impl/firmware/main/sega.c:311-314 | The 8-bit sum of the stored bytes without the last. |
| Sega.Device.ReceiveByte | impl/firmware/main/sega.c:279-322 | One loop iteration over the in-place buffer is one transition of the parser specification, for every buffer state. |
| Sega.Device.Receive | impl/firmware/main/sega.c:277-324 | Over any chunk the object ends where one parser run ends, having dispatched that run's frames in order and sent the replies they get from the reader states they meet. |
| SegaLaws.NfcAnsweredOnce | impl/firmware/main/sega.c:118-248 | Every frame dispatch recognises as a NFC request gets exactly one reply echoing address, sequence and command, except a 250-byte FeliCa result, which gets none. |
| SegaLaws.OverlongResultUnanswered | impl/firmware/main/sega.c:64-67 | Any 250 bytes the chip returns to any well-formed FeliCa request leave that request without a reply. |
| SegaLaws.OtherAddressesAnswered | impl/firmware/main/sega.c:91-116 | LED requests get exactly one echoing reply unless they set the colour; other addresses get none; neither touches the reader. |
| SegaLaws.AnswersMatchRequests | impl/firmware/main/sega.c:118-248 | A list of NFC requests, none meeting the over-long result, gives one matching reply per request in the same order. |
| SegaLaws.PollAnnouncesTarget | impl/firmware/main/sega.c:145-170 | A poll reply announces as many identifier bytes as it carries, and they are those of the target the reader now holds. |
| SegaLaws.BlockDataNeedsSelectedTag | impl/firmware/main/sega.c:201-213 | Block data is returned only for the tag last selected, after authenticating with the chosen key, and is what was read. |
| SegaLaws.PacketFits | impl/firmware/main/sega.c:80-88 | No encoded reply is longer than 513 bytes. |
| SegaLaws.PacketsParse | impl/firmware/main/sega.c:58-89 | Replies written back to back parse to exactly their bodies. |
| SegaLaws.Conversation | impl/firmware/main/sega.c:277-324 | Requests sent through noise in any chunks are dispatched exactly, and the bytes written back parse to exactly the replies. |
| SegaLaws.FelicaNeverRefusedForSize | impl/firmware/main/sega.c:215-228 | A FeliCa request out of a delivered frame lies inside its payload and is never refused for size by the PN532 layer. |
| SegaReplies.WireExample | impl/firmware/main/sega.c:48-89 | A frame on the wire, byte by byte, with both bytes that are escaped and its checksum. |
| SegaReplies.RequestsRecognised | impl/firmware/main/sega.c:250-263 | Length, address, sequence number, command, payload length and a payload of up to 250 bytes are a request, whatever their values. |
| SegaReplies.OthersDropped | impl/firmware/main/sega.c:252-254 | A frame of any other shape is answered with nothing and leaves the reader as it is. |
| SegaReplies.NfcRequestAnswered | impl/firmware/main/sega.c:118-248 | Every such frame to the NFC address, for every command and payload, is answered by exactly one frame with its address, sequence number and command, except when a well-framed FeliCa exchange returns 250 bytes: then by none. |
| SegaReplies.FixedReplies | impl/firmware/main/sega.c:122-136 | Versions, reset and the update commands are answered with their fixed bytes and change nothing, with any payload. |
| SegaReplies.UnknownCommandRefused | impl/firmware/main/sega.c:242-244 | A command outside the fifteen known ones is answered with status 1. |
| SegaReplies.RadioReplies | impl/firmware/main/sega.c:138-143 | 0x40 and 0x41 set the radio flag on and off and report success exactly if the chip frames an acknowledgement. |
| SegaReplies.SetKeyReplies | impl/firmware/main/sega.c:180-190 | 0x50 stores a six-byte payload as the Aime key, 0x54 as the Banapass key; any other payload is refused and stores nothing. |
| SegaReplies.ChooseKeyReplies | impl/firmware/main/sega.c:192-199 | 0x51 makes the Aime key the one later reads use, 0x55 the Banapass key. |
| SegaReplies.SelectReplies | impl/firmware/main/sega.c:172-178 | 0x43 succeeds exactly for the four-byte identifier of the tag last polled. |
| SegaReplies.ReadBlockReplies | impl/firmware/main/sega.c:201-213 | 0x52 returns a block if and only if its identifier is the active tag's, the chip frames success to that tag's authentication with the chosen key, and then frames that block; else it is refused. |
| SegaReplies.FelicaReplies | impl/firmware/main/sega.c:215-233 | 0x71 passes the framed FeliCa command to the active target and its data back, and is refused if the payload frames none or no data comes back. |
| SegaReplies.PollReplies | impl/firmware/main/sega.c:145-170 | 0x42 makes one scan and announces its outcome: failure, no target, a MIFARE tag with its identifier, or a FeliCa card with both of its own. |
| SegaReplies.LedReplies | impl/firmware/main/sega.c:91-116 | Of the LED commands the colour is taken without an answer, reset and information have their fixed answers, all others fail; none touches the reader. |
| SegaReplies.OtherAddressDropped | impl/firmware/main/sega.c:258-262 | A request to any address but 0x00 and 0x08 is dropped. |
| Pn532.WriteFrame | impl/firmware/main/pn532.c:55-84 | The buffer filled in place is the information frame of UM0701-02, section 6.2.1.1, exactly when the payload has at most 252 bytes; else the size is refused. |
| Pn532.FrameExample | impl/firmware/main/pn532.c:55-84 | The frames of one command and its reply, byte by byte. |
| Pn532.FrameSum | impl/firmware/main/pn532.c:72-77 | The accumulator holds direction, code and payload summed modulo 256. |
| Pn532.FillFrame | impl/firmware/main/pn532.c:62-79 | Preamble, length, its complement, direction, code and payload are laid out in place. |
| Pn532.DataSum | impl/firmware/main/pn532.c:139-142 | The accumulator holds the announced data summed modulo 256. |
| Pn532.CheckResponse | impl/firmware/main/pn532.c:128-158 | The in-place checks return the payload or the error the specification of the checks gives, for every buffer. |
| Pn532.AcceptsExactlyFrames | impl/firmware/main/pn532.c:128-158 | A buffer yields payload p if and only if it begins with the information frame for the reply direction, the reply code and p, with p within 252 bytes and the caller's capacity. |
| Pn532.ByteChangeRejected | impl/firmware/main/pn532.c:128-148 | Changing any one byte of an accepted frame, preamble to postamble, makes the checks refuse it, for every payload length: a header byte as no response, any other for the sum or the postamble. |
| Pn532.AckIsNoResponse | impl/firmware/main/pn532.c:104-110 | The acknowledge frame of section 6.2.1.3 is never accepted as a response. |
| Pn532.BufferAlwaysLongEnough | impl/firmware/main/pn532.c:131-137 | A 280-byte buffer always holds the length it announces with its trailer, so a size is refused only for want of the caller's capacity. |
| Pn532.FelicaSizeOk | impl/firmware/main/pn532.c:327-362 | A FeliCa request of at most 251 bytes passes every size check on the way out and back. |
| Pn532.FelicaTransactExactly | impl/firmware/main/pn532.c:327-362 | A FeliCa exchange of at most 251 bytes returns `data` if and only if the received buffer begins with the information frame of a zero status byte and `data`, within the caller's capacity. |
| Pn532.ExchangeRoundTrip | impl/firmware/main/pn532.c:112-159 | A payload framed by the chip comes back unchanged, or is refused when it exceeds the capacity. |
| Pn532.FelicaMissExactly | impl/firmware/main/pn532.c:277-280 | A FeliCa poll succeeds without a target if and only if the chip frames an empty answer or one that starts with zero, of at most 64 bytes, to the poll of that system code. |
| Pn532.FelicaFoundExactly | impl/firmware/main/pn532.c:256-289 | It succeeds with a target if and only if the chip frames one, of at least 21 bytes, with that number, IDm and PMm in their places. |
| Pn532.TypeAMissExactly | impl/firmware/main/pn532.c:236-239 | A Type A poll succeeds without a target if and only if the chip frames an empty answer or one that starts with zero. |
| Pn532.TypeAFoundExactly | impl/firmware/main/pn532.c:226-254 | It succeeds with a target if and only if the chip frames one with that number, ATQA, SAK and an identifier of the announced length, at most ten. |
| Pn532.PollErrors | impl/firmware/main/pn532.c:226-289 | Why polls fail: the bus; an answer beyond 64 bytes; a target that is not described in full. |
| Pn532.RadioSwitchedExactly | impl/firmware/main/pn532.c:212-224 | The radio is switched if and only if the chip frames an answer to the field command with the matching byte. |
| Pn532.AuthenticatesExactly | impl/firmware/main/pn532.c:291-308 | Authentication sends target, command, block, key and identifier in this order and succeeds if and only if the chip frames an answer that starts with zero. |
| Pn532.FelicaErrors | impl/firmware/main/pn532.c:347-358 | A FeliCa exchange fails with the bus, and for a non-zero status, no status, or more data than there is room for. |
| Pn532.FelicaTooLong | impl/firmware/main/pn532.c:335-337 | A FeliCa request of more than 251 bytes is refused for its size. |
| Pn532.BlockReadExactly | impl/firmware/main/pn532.c:311-325 | A block is read if and only if the chip framed a zero status byte, those sixteen bytes and at most three more. |
| Pn532.FelicaTargetRoundTrip | impl/firmware/main/pn532.c:256-289 | A FeliCa target as the chip reports it is read back exactly. |
| Pn532.TypeATargetRoundTrip | impl/firmware/main/pn532.c:226-254 | A Type A target as the chip reports it is read back exactly. |
| CardReader.CheckLuid | impl/firmware/main/reader.c:24-34 | True exactly for twenty decimal digits, not all zero, the first not 3. |
| CardReader.Reader.constructor | impl/firmware/main/reader.c:64-70 | Default keys, no active target, transit system code, radio on. |
| CardReader.Reader.ReadMifareWithKey | impl/firmware/main/reader.c:36-62 | Fills the block buffer as far as authentication and reads succeed and sets the flag only when both blocks were read. |
| CardReader.Reader.ReadCard | impl/firmware/main/reader.c:72-127 | One call leaves the reader state and returns the observation or failure its specification gives, for every air. |
| CardReader.Reader.RadioSet | impl/firmware/main/reader.c:195-200 | The radio flag follows the hardware only when the command succeeded. |
| CardReader.Reader.MifareSetKey | impl/firmware/main/reader.c:137-144 | Replaces exactly the key of a valid type and refuses other types. |
| CardReader.Reader.MifareAuthenticate | impl/firmware/main/reader.c:146-158 | Chooses the key type and nothing else; refuses other types. |
| CardReader.ObservationsWellFormed | impl/firmware/main/reader.c:72-127 | Whatever bytes come over the air, an observation has BCD code bytes, a code only when valid and taken from block 2, and empty fields for the other card types. |
| CardReader.AccessCodeKept | impl/firmware/main/reader.c:101-113 | The code is kept exactly when the Aime key opened both blocks and the code in them is valid. |
| CardReader.BlocksKept | impl/firmware/main/reader.c:101-126 | The blocks are those of the first key, Aime then Banapass, that opened both. |
| CardReader.BlocksReadExactly | impl/firmware/main/reader.c:36-62 | An attempt with a key yields two blocks, in this order, if and only if the tag accepts the key, then returns block 1, then block 2. |
| CardReader.ValidLuidDigits | impl/firmware/main/reader.c:24-34 | A code is valid if and only if it is twenty decimal digits, not all zero, of which the first is not 3. |
| ScanLaws.RadioOffSeesNothing | impl/firmware/main/reader.c:74-77 | With the radio off a scan observes no card, asks nothing and changes nothing. |
| ScanLaws.FelicaSeen | impl/firmware/main/reader.c:79-87 | A FeliCa target the chip frames is observed with its IDm and PMm and becomes the active one. |
| ScanLaws.EmptyFieldSeen | impl/firmware/main/reader.c:93-96 | Without a FeliCa target, a framed Type A miss is a successful observation of the empty card. |
| ScanLaws.FailsExactly | impl/firmware/main/reader.c:79-96 | A scan fails if and only if the chip frames no FeliCa target and neither a target nor a miss to the Type A poll. |
| ScanLaws.OtherTypeASeen | impl/firmware/main/reader.c:93-96 | A Type A target with an identifier of other than four bytes becomes active and is observed as no card. |
| ScanLaws.AimeTagSeen | impl/firmware/main/reader.c:98-113 | A tag that opens to the Aime key, by command 0x61 for block 2, is observed with its identifier, blocks 1 and 2 and, if valid, the code in bytes 6 to 15 of block 2. |
| ScanLaws.BanapassTagSeen | impl/firmware/main/reader.c:115-126 | A tag closed to the Aime key that opens to the Banapass key, by command 0x60 for block 1, is observed with its blocks and no code. |
| ScanLaws.ClosedTagSeen | impl/firmware/main/reader.c:115-126 | A tag closed to both keys is observed with its identifier, without code and not as having blocks; block 1 stays in the buffer exactly if the Banapass attempt read it. |
| CardReader.CodeMovesExactly | impl/firmware/main/reader.c:79-91 | A scan moves the system code, to the other one, if and only if the radio is on and the chip frames a miss to the poll of the current code; an error leaves it. |
| CardReader.After | impl/firmware/main/reader.c:72-204 | Over any run of calls the system code stays one of the two, with two six-byte keys. |
| CardReader.CodeKeptBetweenScans | impl/firmware/main/reader.c:129-200 | No call but a scan moves the system code. |
| CardReader.FoundWithinTwoScans | impl/firmware/main/reader.c:72-96 | In any list of reader calls with the radio on, a card that answers one of the two codes, the chip framing the target to that code's poll and a miss to the other's, is found by one of any two successive scans. |
| CardReader.CodeStaysWhileAnswered | impl/firmware/main/reader.c:79-91 | Over any list of reader calls in which the card keeps answering, the system code stays fixed. |
| Search.CommandMoves | impl/firmware/main/sega.c:118-248 | An NFC command moves the reader by at most one of its calls: a scan, a radio switch, a key or a key choice. |
| Search.LoopMoves | impl/firmware/main/app_main.c:23-47 | Over any run of the main loop the reader's state is that of one list of reader calls, those of the dispatched SEGA requests and of the due scans in order. |
| Search.FoundWithinTwoPasses | impl/firmware/main/app_main.c:38-40 | From any state, over any passes the first and last of which have their scan due, with any SEGA traffic between and the radio on: a card that answers one of the two codes, its polls framed as above, is found by the first of these scans or the one behind it, periodic or polled. |
| Search.CodeStaysInLoop | impl/firmware/main/reader.c:79-91 | While the card keeps answering the current code, no run of the main loop moves it. |
| Protocol.HeaderRoundTrip | impl/dll/internal/protocol/protocol.go:65-95 | A report header is accepted, and read back exactly, if and only if it has one of the three shapes of RFC 0001, section 4.1, whatever the body. |
| Protocol.HeaderBytes | impl/dll/internal/protocol/protocol.go:65-95 | Which reports have a header, and which: 64 bytes, type, opcode, little-endian sequence and status as their type allows. |
| Protocol.HeaderRefused | impl/dll/internal/protocol/protocol.go:65-95 | The others are refused for their length, their type, or a sequence or status their type does not allow. |
| Protocol.VersionBytes | impl/dll/internal/protocol/version.go:12-17 | Which reports are version replies, byte by byte, and the version they say. |
| Protocol.VersionRefused | impl/dll/internal/protocol/protocol.go:112-127 | Another report with a header is refused for its type first, then for its opcode, then for its status. |
| Protocol.CardStateBytes | impl/dll/internal/protocol/card.go:18-47 | Which reports are card states, byte by byte, and the card: none, a MIFARE tag with a ten-byte code of decimal digits and 32 bytes of blocks, or a FeliCa card with its IDm. |
| Protocol.CardStateRefused | impl/dll/internal/protocol/card.go:18-56 | The others are refused for their header, type, opcode, a digit of the code, or an unknown card type. |
| Protocol.NewRequest | impl/dll/internal/protocol/protocol.go:97-103 | A fresh buffer filled in place with a request header and a zero body. |
| Protocol.NewSignal | impl/dll/internal/protocol/protocol.go:105-110 | A fresh buffer filled in place with a signal header and a zero body. |
| Protocol.ValidateLuid | impl/dll/internal/protocol/card.go:49-56 | True exactly when every nibble is a decimal digit. |
| Prhp.BeginResponse | impl/firmware/main/prhp.c:37-48 | The buffer becomes the bare response for opcode, status and sequence. |
| Prhp.Dispatch | impl/firmware/main/prhp.c:78-116 | Sends the report its specification gives for the request, or nothing. |
| Prhp.AnsweredExactlyRequests | impl/firmware/main/prhp.c:78-116 | A report is answered if and only if it is a request with a non-zero sequence; the answer copies opcode and sequence, passes the host's header checks, and is a success exactly for a well-formed version request. |
| Prhp.ResponseBytes | impl/firmware/main/prhp.c:78-116 | The answer byte by byte: type 2, opcode and sequence of the request, status 2 for a request with a status, 0 and version 0.1 for a version request, 1 for any other; none for reports that are no sequenced request. |
| Prhp.RequestLaw | impl/firmware/main/prhp.c:78-116 | Over any sequence of reports there is one accepted answer per such request, in order, and nothing else. |
| Prhp.WrongTypeDiscardedExactly | impl/firmware/main/prhp.c:98-115 | The rule of RFC 0001, section 6, that a known opcode used with the wrong message type is discarded holds exactly for wrong-type reports that are not requests with a sequence; those are answered `UNKNOWN_OPCODE`, or `INVALID_MESSAGE` with a non-zero status byte. |
| Prhp.SetLedRequestAnswered | impl/firmware/main/prhp.c:112-114 | A concrete wrong-type request that is answered. |
| Prhp.VersionHandshake | impl/firmware/main/prhp.c:103-110 | For every non-zero sequence the version request is answered with that sequence and decodes at the host to 0.1. |
| Prhp.PublishCardState | impl/firmware/main/prhp.c:57-76 | The report filled in place is the signal of the card, a MIFARE tag without blocks shown as no card. |
| Prhp.SignalDecodes | impl/dll/internal/protocol/card.go:18-47 | The signal of every possible observation is accepted by the host and decodes to the observation's projection. |
| Caller.SequenceIgnoresWrap | impl/dll/internal/hid/caller.go:48 | The 32-bit wrap of the counter does not disturb the 16-bit sequence. |
| Caller.SameSequenceApart | impl/dll/internal/hid/caller.go:48 | Two draws have the same sequence if and only if they are a multiple of 65536 draws apart. |
| Caller.DrawnDistinct | impl/dll/internal/hid/caller.go:47-55 | Up to 65536 consecutive draws give as many different sequences. |
| Caller.FailedDrawsOccupied | impl/dll/internal/hid/caller.go:47-55 | Failed consecutive draws number at most one more than the live calls. |
| Caller.PendingCall.constructor | impl/dll/internal/hid/caller.go:57 | A new call is unconsumed with an empty channel. |
| Caller.Caller.constructor | impl/dll/internal/hid/caller.go:32-40 | A new caller has drawn nothing and holds no call. |
| Caller.Caller.Draw | impl/dll/internal/hid/caller.go:48 | The counter advances by one modulo 2^32 and yields the draw's sequence. |
| Caller.Caller.Add | impl/dll/internal/hid/caller.go:57-58 | The call is entered, below capacity without loss, at capacity in place of at most one other; the table never exceeds 1024. |
| Caller.Caller.Attempt | impl/dll/internal/hid/caller.go:47-59 | One draw; it allocates exactly when its sequence is non-zero and free. |
| Caller.Caller.Allocate | impl/dll/internal/hid/caller.go:42-63 | The sequence is the first draw that is non-zero and free; with at most 1024 live calls one is found within 1026 draws, and exhaustion takes at least 65534 live calls. |
| Caller.Caller.Consume | impl/dll/internal/hid/caller.go:65-74 | A response reaches exactly the live unconsumed call of its sequence, once, and leaves every other call alone; anything else is refused. |
| CallerRaces.InvAlong | impl/dll/internal/hid/caller.go:42-74 | The invariant of the concurrent caller holds in every state of every interleaving. |
| CallerRaces.AtMostOnce | impl/dll/internal/hid/caller.go:65-74 | In every interleaving each call is sent at most one response, the send never blocks, and once anyone tried a call's swap exactly one has won it. |
| CallerRaces.ResponsesSourced | impl/dll/internal/hid/caller.go:65-74 | A call is only sent a response that was looked up for its own sequence while it was the live entry. |
| CallerRaces.AllocationsApart | impl/dll/internal/hid/caller.go:48-58 | In every run, two allocations that end with the same sequence are a non-zero multiple of 65536 draws apart. |
| CallerRaces.EntryHistory | impl/dll/internal/hid/caller.go:42-74 | Over any stretch of any run the entry of a sequence is a call made within the stretch if and only if one was added and not dropped since; else it is the entry of the beginning, or gone. |
| CallerRaces.EveryLookup | impl/dll/internal/hid/caller.go:53-71 | Every `Remove` and every added call has its own thread's lookup before it, with no other lookup of that thread between. |
| CallerRaces.RemoveDropsOtherExactly | impl/dll/internal/hid/caller.go:65-71 | In every run `Remove` drops a live entry that is not the consumer's own if and only if, since the consumer's lookup, a call was added for the sequence and not dropped again. |
| CallerRaces.AddReplacesExactly | impl/dll/internal/hid/caller.go:47-59 | In every run an allocation replaces a live call if and only if, since it found the sequence free, another call was added for it and not dropped again. |
| CallerRaces.PromptAddsReplaceNothing | impl/dll/internal/hid/caller.go:47-59 | In a run in which no allocation lets 65536 draws go by between its draw and its add, every allocation finds its sequence still free. |
| CallerRaces.PromptCallsKeepSequence | impl/dll/internal/hid/caller.go:42-74 | In such a run a call in flight keeps its sequence to itself until it expires, is evicted or is removed, as RFC 0001, section 4.2, wants. |
| CallerRaces.RemoveDropsOwn | impl/dll/internal/hid/caller.go:71 | In a run with prompt allocations, and with fewer than 65536 draws since the consumed call's own, `Remove` drops that call or nothing. |
| CallerRaces.StaleAddLosesEntry | impl/dll/internal/hid/caller.go:48-58 | A whole run, with an allocation stalled for 65536 draws, in which `Remove` drops another live call though no draw was made since the consumed one's. |
| CallerRaces.StaleAddReplacesCall | impl/dll/internal/hid/caller.go:48-58 | A whole run whose last step, an allocation stalled for 65536 draws, replaces another thread's live and unconsumed call. |
| CallerRaces.LateRemoveLosesEntry | impl/dll/internal/hid/caller.go:65-71 | A whole run with prompt allocations in which `Remove`, 65536 draws after the consumed call's own, drops another live call. |
| CallerOutcomes.AllocationOutcome | impl/dll/internal/hid/caller.go:47-62 | Over every run an allocation ends by adding its call, or gives up having drawn 65535 sequences, each of which was zero or taken when it looked; it draws again for no other reason. |
| CallerOutcomes.ConsumeOutcome | impl/dll/internal/hid/caller.go:65-74 | Over every run a consumption ends with its own response in the channel of the call it found, having swapped that call's unset flag, or refused because the flag was set. |
| CallerOutcomes.ConsumedExactly | impl/dll/internal/hid/caller.go:66-69 | Over every run a call's flag is set if and only if some consumption of it has come to the swap. |
| CallerOutcomes.CallBounded | impl/dll/internal/hid/caller.go:42-74 | However much interleaves, a call of either kind takes a bounded number of own steps. |
| CallerOutcomes.CallNeverStuck | impl/dll/internal/hid/caller.go:42-74 | A call in progress always has its next step enabled, the send into the channel included; only an add to a full table waits for an entry to go. |
| DeviceShutdown.InvAlong | impl/dll/internal/hid/device.go:106-188 | The invariant of the device holds in every state of every interleaving. |
| DeviceShutdown.WritesInOrder | impl/dll/internal/hid/device.go:120-149 | In every interleaving the attempted physical writes are a prefix of the accepted reports, none starts once the handle is being closed, and `done` and the handle are each closed at most once. |
| DeviceShutdown.ReturnedClose | impl/dll/internal/hid/device.go:168-182 | When a `Close` has returned the writer has ended; the handle is still open if and only if another thread has won the swap and not yet closed it, so with no other `Close` pending it is closed. |
| DeviceShutdown.CloseReturnsEarly | impl/dll/internal/hid/device.go:174-182 | A concrete interleaving of two `Close` calls in which the loser of the swap returns while the handle is still open. |
| DeviceShutdown.IterationsBounded | impl/dll/internal/hid/device.go:120-149 | After stopping, the writer takes at most the queued reports plus those of `Write` calls past the stopping check, over the whole rest of the run. |
| DeviceShutdown.WriterStepsBounded | impl/dll/internal/hid/device.go:135-149 | After stopping, the writer makes a bounded number of steps whatever the others do. |
| DeviceShutdown.CloserDescends | impl/dll/internal/hid/device.go:168-188 | A pending `Close` moves only by its own at most five steps and ends by returning. |
| DeviceShutdown.CloseBounded | impl/dll/internal/hid/device.go:168-172 | After stopping, a pending `Close` can be helped only a bounded number of times, however much else interleaves. |
| DeviceShutdown.CloseNeverStuck | impl/dll/internal/hid/device.go:168-172 | In every state of the invariant a pending `Close` has a step enabled that helps it. |
| DeviceShutdown.EveryCloseReturns | impl/dll/internal/hid/device.go:120-188 | In every weakly fair execution every `Close` returns, whatever else keeps happening and even if the writer's select always prefers the queue. |
| DeviceProgress.StopHasCause | impl/dll/internal/hid/device.go:106-188 | Over every run the device is stopping only if a physical write failed, a read failed, or `Close` was called before. |
| DeviceProgress.FailedWriteIsLast | impl/dll/internal/hid/device.go:139-144 | Behind a failed physical write nothing is taken from the queue and nothing is written any more. |
| DeviceProgress.WriteOutcome | impl/dll/internal/hid/device.go:120-133 | A `Write` that returns has had its own report accepted at that step, or the device is stopping. |
| DeviceProgress.RoomExactly | impl/dll/internal/hid/device.go:127-132 | A `Write` past the stopping check finds room in the queue exactly while fewer than 64 reports are accepted and not taken. |
| DeviceProgress.EveryReportWritten | impl/dll/internal/hid/device.go:120-149 | In every fair execution every accepted report is handed to the physical write, in order, unless the device stops first. |
| DeviceProgress.StopsExactly | impl/dll/internal/hid/device.go:106-188 | In every fair execution the device stops if and only if a write fails, a read fails or `Close` is called. |
| DeviceProgress.FailedReadReturns | impl/dll/internal/hid/device.go:106-118 | In every fair execution a failing `Read` gets through stop() and returns to its caller. |
| DeviceProgress.FailedWriterCloses | impl/dll/internal/hid/device.go:139-144 | In every fair execution a writer whose physical write failed closes the handle itself, whether or not anybody calls `Close`. |
| DeviceProgress.WriterEnds | impl/dll/internal/hid/device.go:135-149 | In every fair execution the writer loop ends once the device is stopping, for whatever cause. |
| DeviceProgress.OnlyCloseCloses | impl/dll/internal/hid/device.go:168-188 | Over every run only a thread that called `Close` waits for the writer or touches the handle; a failed `Read` does not. |
| DeviceProgress.CallBounded | impl/dll/internal/hid/device.go:106-188 | However much interleaves, a `Write` takes at most two steps of its own, a failed `Read` and a `Close` at most five. |
| Session.OthersIgnored | impl/dll/internal/hid/router.go:29-46 | Reports that are no valid card state, whatever else they are, leave the cached card alone. |
| Session.LastValidWins | impl/dll/internal/aimeio/session.go:46-53 | The cached card is the last valid card state received. |
| Session.BigEndianInjective | impl/dll/internal/aimeio/session.go:143-149 | The big-endian number of a fixed width determines its bytes. |
| Session.BigEndianOfEight | impl/dll/internal/aimeio/session.go:143-149 | The number of eight bytes, written out: the first weighs 256 to the seventh, the last one. |
| Session.Session.constructor | impl/dll/internal/aimeio/session.go:35-57 | A new session shows no card and is not done. |
| Session.JudgedByBytes | impl/dll/internal/aimeio/session.go:81-97 | A reply passes if and only if its bytes are a version reply saying 0.1; a version reply saying anything else is an unsupported version. |
| Session.Session.Dispatch | impl/dll/internal/hid/router.go:29-46 | A response goes to the live call of its sequence and nowhere else, a valid card state to the cache, everything else is refused without effect. |
| Session.Session.ReadLoop | impl/dll/internal/aimeio/session.go:59-67 | While reads succeed the card follows the reports received; the first failing read leaves no card, the failure stored and the session done. |
| Session.Session.Await | impl/dll/internal/aimeio/session.go:81-97 | While the read loop routes what arrives, the call's channel gets the first report that answers its sequence and nothing else; the card follows what was routed. |
| Session.Session.VerifyVersion | impl/dll/internal/aimeio/session.go:69-98 | Given what the read loop receives meanwhile, it judges the first report that answers the sequence it allocated, and no other; it succeeds exactly if that says 0.1, and each other end of the wait gives its own error. |
| Session.Session.AimeId | impl/dll/internal/aimeio/session.go:125-136 | Present exactly for a MIFARE card with a non-zero code. |
| Session.CardOverRun | impl/dll/internal/aimeio/session.go:59-67 | As any goroutine sees it: while reading the card is the fold of all reports received; once `done` is closed it is no card and no step follows. |
| Link.OkStep | impl/dll/internal/aimeio/session.go:59-98 | The invariant of a session among its read loop, verifier and call table is kept by every step of any of them. |
| Link.TableKeeps | impl/dll/internal/hid/caller.go:42-74 | Allocation, consumption, expiry and the receive from the channel move the session's call table by the steps of the concurrent caller alone. |
| Link.TakenIsOwnAnswer | impl/dll/internal/aimeio/session.go:81-90 | What the verifier takes from its call's channel was received on this session and carries the sequence of the request this session sent. |
| Link.RoutingGoesOn | impl/dll/internal/hid/caller.go:65-74 | A response being routed never blocks the read loop and is dealt with in at most four steps. |
| Link.AnswerRouted | impl/dll/internal/aimeio/session.go:69-90 | A response to the first sequence, received once the request is out, is taken by the verifier after five steps of the read loop. |
| Service.InvAlong | impl/dll/internal/aimeio/service.go:50-98 | The invariant of the supervisor holds in every state of every interleaving. |
| Service.OneOpenTransport | impl/dll/internal/aimeio/service.go:50-98 | At most one transport is not closed at any time, the newest; it is open only while `run` deals with it, else somebody is about to close its handle. |
| Service.PublishedIsVerified | impl/dll/internal/aimeio/service.go:67-80 | An active session has taken a reply that it received itself, for the sequence of its own request, saying 0.1; the device information is that device's and no failure is on record. |
| Service.ShownCardIsReceived | impl/dll/internal/aimeio/service.go:114-120 | A getter loads the active session and, at any later moment, that session's card; a card it shows belongs to the session still active, verified and reading, and is the latest valid one it received. |
| Service.ExitedForGood | impl/dll/internal/aimeio/service.go:50-98 | After the supervisor exits no transport is ever opened again. |
| Service.ReturnedIsQuiet | impl/dll/internal/aimeio/service.go:173-184 | Once any `Close` has returned, and ever after, nothing is active or shown, no transport is opened and every read loop has ended; a handle is still open if and only if the one `Close` that won the service's swap stands between committing to it and closing it; once the winner has returned all are closed. |
| Service.LosingCloseReturnsEarly | impl/dll/internal/aimeio/service.go:173-184 | A whole run, with a read that fails by itself, in which a second `Close` returns while the handle of the session is open. |
| ServiceRetry.ErrNamesFailure | impl/dll/internal/aimeio/service.go:122-131 | After an attempt that fails to open or to verify, and after a session's end, `Err` gives that failure until the next attempt ends, at whatever moments it makes its two loads. |
| ServiceRetry.ErrBeforeFirst | impl/dll/internal/aimeio/service.go:122-131 | Until the first attempt ends `Err` says that there is no connection. |
| ServiceRetry.DelayBetweenAttempts | impl/dll/internal/aimeio/service.go:100-112 | Over every run the retry timer has fired between any two attempts to open a device. |
| ServiceRetry.ClosedExactly | impl/dll/internal/hid/device.go:174-182 | Over every run a transport's handle is closed exactly once one of `run`, a `Close` caller or the device's own writer has taken the step that closes it, and stays closed. |
| ServiceProgress.SupervisorDescends | impl/dll/internal/aimeio/service.go:50-112 | Every step of `run` but opening brings it closer to its next attempt or its exit, cancelled or not. |
| ServiceProgress.RunNeverStuck | impl/dll/internal/aimeio/service.go:50-112 | While `run` has not returned and no live session is online, it can move, or the one it waits for can. |
| ServiceProgress.KeepsTrying | impl/dll/internal/aimeio/service.go:50-98 | In every fair execution in which a closed transport hands out only finitely many reports more, while nobody cancels, the service comes from every moment on to a next attempt to open a device, or to a session that is online and goes on. |
| ServiceProgress.OpensAgain | impl/dll/internal/aimeio/service.go:94-112 | From waitRetry, in every fair execution in which nobody cancels, `run` comes to open a device again. |
| ServiceProgress.OpensAfterDisconnect | impl/dll/internal/aimeio/service.go:82-97 | A session that ends while nobody cancels is followed by a next attempt to open a device. |
| ServiceProgress.AcceptedGoesOnline | impl/dll/internal/aimeio/service.go:67-80 | In every fair execution a session whose verifier has taken an answer that says 0.1 is put online and published. |
| ServiceProgress.ExitsOnceCancelled | impl/dll/internal/aimeio/service.go:50-98 | In every such execution `run` returns once the context is cancelled. |
| ServiceShutdown.CloseBounded | impl/dll/internal/aimeio/service.go:173-184 | Once the context is cancelled, a pending `Close` can be helped only a bounded number of times. |
| ServiceShutdown.CloseNeverStuck | impl/dll/internal/aimeio/service.go:173-184 | In every state of the invariant a pending `Close` has an enabled step that helps it, or the winner's cancelling, or the routing of a response by a read loop whose handle is closed. |
| ServiceShutdown.EveryCloseReturns | impl/dll/internal/aimeio/service.go:173-184 | In every weakly fair execution in which a closed transport hands out only finitely many reports more, every `Close` of the service returns. |
| App.Firmware.constructor | impl/firmware/main/app_main.c:16-21 | The loop starts with the empty card and nothing sent. |
| App.Firmware.HandleOne | impl/firmware/main/app_main.c:24-30 | A message is handed to its protocol and changes nothing else. |
| App.Firmware.ScanOne | impl/firmware/main/app_main.c:32-47 | A due scan that succeeds with a different card replaces the current one and publishes it; any other leaves both alone. |
| App.Firmware.Loop | impl/firmware/main/app_main.c:23-47 | Any number of passes leaves the state their specification gives. |
| App.PublishesChanges | impl/firmware/main/app_main.c:38-45 | Over every run the published observations are exactly the successful scans without repeats of the one before, starting from the empty card. |
| App.HostShowsDelivered | impl/dll/internal/aimeio/session.go:46-53 | The host caches the projection of the last observation whose signal arrived, whatever responses lie between. |
| App.HostShowsLastObservation | impl/firmware/main/app_main.c:38-45 | With every signal delivered the host shows the projection of the last successful observation. |
| LoopLaws.ScansLogged | impl/firmware/main/app_main.c:32-42 | Exactly the due passes scan, 200 ms apart at least, and each scan's outcome is what the reader makes of the air of that pass, the reader being the one all earlier scans, commands and this pass's message have left. |
| LoopLaws.PublishesObservedChanges | impl/firmware/main/app_main.c:32-45 | Over every run the published observations are the successful outcomes of the due scans, computed from the air, without repeats of the one before. |
| LoopLaws.HostShowsScan | impl/firmware/main/app_main.c:32-45 | With every signal delivered: once the last due scan has observed a card, whichever, the host shows that card's projection. |
| LoopLaws.HostShowsRemoval | impl/firmware/main/app_main.c:32-45 | So once a due scan has observed the empty field, the host shows no card. |
| LoopLaws.CdcStream | impl/firmware/main/app_main.c:27-29 | Whatever lies between, parser and dispatched frames are those of one run over all CDC bytes received, and the packets written are the replies to them from the reader each pass meets. |
| LoopLaws.ResponsesDelivered | impl/firmware/main/app_main.c:25-26 | Of the reports that reach the host the responses are the answers to the 64-byte reports received, in order, and nothing else. |
| LoopLaws.SignalsDelivered | impl/firmware/main/prhp.c:57-76 | The signals that reach the host are, if none is lost, one for each published observation, in order. |
| App.SignalRepeatsExactly | impl/firmware/main/app_main.c:38-45 | Over every run, two consecutive published observations give the same signal if and only if both are shown as no card, or they are MIFARE tags with the same code and blocks and another identifier, or FeliCa cards with the same IDm and another PMm. |
| App.UnsupportedTagsRepeatNone | impl/firmware/main/prhp.c:63-64 | For any two different four-byte identifiers: two passes of the loop over tags that no key opens publish both tags and deliver two equal `NONE` signals. |
| App.UnsupportedObserved | impl/firmware/main/reader.c:72-127 | A field with one tag that answers its poll and refuses every key is observed as that bare tag, from every reader state. |
| EndToEnd.IdentifiersEndToEnd | impl/dll/internal/aimeio/session.go:125-149 | For any bytes over the air: the host's Aime code is present exactly when the Aime key opened both blocks and the code is valid, the blocks exactly when a key opened both and they are the first such key's, and the FeliCa number is the IDm read big-endian. |
| EndToEnd.FelicaIdNamesIdm | impl/dll/internal/aimeio/session.go:143-149 | The number of a FeliCa card fits 64 bits, and two cards give the same number exactly when they have the same IDm. |
| EndToEnd.FirstCall | impl/dll/internal/aimeio/session.go:69-73 | The first call of a new session has sequence 1. |
| EndToEnd.AskVersion | impl/dll/internal/protocol/version.go:8-17 | The host's request, answered by the device, decodes to 0.1 under the request's sequence. |
| EndToEnd.Open | impl/dll/internal/hid/caller.go:42-63 | Allocating below capacity adds one unused call and drops none. |
| EndToEnd.Route | impl/dll/internal/hid/router.go:34-36 | A response for a live call reaches that call and touches neither the card nor another call. |
| EndToEnd.Handshake | impl/dll/internal/aimeio/session.go:69-90 | The whole version exchange delivers to the call it was made for, decodes to 0.1, and leaves the table and the card as they were. |

## Left out

- I2C transfers, ready polling, timers, GPIO and PN532 initialisation: hardware input and output, entering only as `Air`.
- USB descriptors, TinyUSB callbacks and the FreeRTOS message queue: the messages that reach the main loop are an arbitrary input.
- `hidapi` enumeration and `Open`: foreign code; a device opens with any information, or fails.
- The inside of `go-freelru`: its source is not part of this model; it is taken as a bounded table that may drop entries.
- CardIO reports, LED effects, `FormatLUID`, `FormatIDm`, the Windows exports, the terminal program and configuration: no property beyond their bodies.
- `StatusError` values and error code strings: errors are constructors of a datatype.
- Which error a failed MIFARE authentication or block read gives: every caller asks only whether it failed.
- Padding bytes of `reader_card_t`: the firmware compares cards with `memcmp`; the model compares their fields.
- The stale tail of the ten-byte Type A identifier beyond its length: never read by the firmware, so the model stores only the identifier.
- ServiceShutdown.EveryCloseReturns: fairness, and that a closed transport hands out finitely many reports, are hypotheses; the device's own stopping and waiting for its writer are one step here, shown to end in `DeviceShutdown.EveryCloseReturns`.
- ServiceProgress.KeepsTrying: that a closed transport hands out finitely many reports is a hypothesis here as well, because after a refused version `run` waits for the read loop; `OpensAgain` and `OpensAfterDisconnect` do without.
- DeviceProgress.CallBounded: bounds the steps of a call, not its waiting: a `Write` that waits for room in the queue may wait for ever, because weak fairness promises no single waiter that the channel has room when its turn comes.
- Service.LosingCloseReturnsEarly: the device's own writer, when it closes the handle after a failed write, does so in one step here; no `Close` gets past waiting for the writer in between (`DeviceShutdown.OrderOk`).
- CallerRaces.RemoveDropsOwn: promptness and the bound on draws are hypotheses, because the two witnesses show it false without either; the exact condition is `RemoveDropsOtherExactly`.
- Session.Session.VerifyVersion: the read loop's reports during the wait are an argument; how the two goroutines interleave is in `Link`.
- Caller.Caller.Allocate: the call's lifetime is not modelled in the sequential object; expiry is the `Expire` step of `CallerRaces`.
