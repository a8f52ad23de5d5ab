# Flashforge load cell and TVOC sensor, modelled in Dafny

This project models two small subsystems of a Klipper fork for Flashforge printers. Each has a host half in Python and a firmware half in C.

- The **load cell**:
  - Firmware: a UART bridge on the STM32. It keeps a six-slot command queue and one command outstanding to the sensor (IDLE / CMD_SENT). It extracts reply lines and classifies them by `"ok."`. It parses the weight field of an `H7` reply, formats the `H2 S<n>` calibration command, and checks a 500 ms command timeout, which as written is reached only when a received line or an overflow wakes the task (see Findings).
  - Host: a reply decoder with fallbacks, and the connect-time command registry. A one-in-flight correlator (`_send_and_wait` plus the reply handler) sends a command and waits for its reply. On top of it sit the weight query and the tare retry loop, the periodic safety sampler with its shutdown or pause reaction, the runtime max-force command, and the status getters.
- The **TVOC (air-quality) sensor**:
  - Firmware: receives 9-byte packets (header `FF 18`, big-endian reading in bytes 4–5, two's-complement checksum in byte 8) into a 128-byte ring. A resynchronising scanner reports every packet found and keeps the last good reading.
  - Host: keeps the last reported values, which every message overwrites.

Files, one module each:

| file | module | contents |
|---|---|---|
| `results.dfy` | `Results` | `Option` and `Result` |
| `decimal.dfy` | `Decimal` | digit runs and decimal numerals, shared by parser and formatter |
| `ring.dfy` | `Ring` | the firmware's circular buffers, related to the FIFO sequence they hold |
| `host_params.dfy` | `HostParams` | message parameter dictionaries, `_decode`, and Python `int()` on a value |
| `loadcell_host.dfy` | `LoadCellHost` | reply decoding, connect, correlator, weight query, tare |
| `loadcell_sampler.dfy` | `LoadCellSampler` | `LoadCellSensor`: sampler, max-force command, status |
| `bridge_text.dfy` | `BridgeText` | C strings, reply line, status, weight parser, the `H2` formatter (methods over an array) |
| `loadcell_bridge.dfy` | `LoadCellBridge` | the bridge state machine: queue, rings, interrupt, task, command handlers, timer |
| `bridge_layout.dfy` | `BridgeLayout` | the command queue as bytes: the unbounded `memcpy` as written and the bounded copy |
| `tvoc_packet.dfy` | `TvocPacket` | checksum, packet parse, packet build, round trips |
| `tvoc_scan.dfy` | `TvocScan` | the packet scan: a reference definition and the firmware's loops over the ring |
| `tvoc_firmware.dfy` | `TvocFirmware` | the TVOC firmware state: interrupt, processing, task |
| `tvoc_host.dfy` | `TvocHost` | the host TVOC state and its status |

Modelling conventions:

- Host time is integer milliseconds.
- Firmware time is the 32-bit system timer, with its wrap-around and signed comparison written out.
- Every interrupt byte and every task run is one atomic step over an immutable state.
- Messages sent to the host are returned as a sequence next to the new state.
- The reactor's waiting is modelled by giving a call the replies that reach the host while it waits, each with its delay.

## Model

| member | source | states |
|---|---|---|
| Decimal.Digits | src/stm32/flashforge_load_cell.c:284-303 | the numeral is all digits, at least one, and starts with '0' exactly for zero (no leading zeros) |
| Decimal.ValueOfDigits | src/stm32/flashforge_load_cell.c:280-303 | reading the written numeral back gives the number: `Value(Digits(n)) == n` |
| Decimal.DigitsBound | src/stm32/flashforge_load_cell.c:288 | a number below 10^k has at most k digits |
| Decimal.DigitRunLength | src/stm32/flashforge_load_cell.c:156-159 | the digit loop stops at the first non-digit and everything before it is a digit |
| Decimal.DigitRunOfNumeral | src/stm32/flashforge_load_cell.c:152-159 | a digit loop reads exactly the numeral written in front of a non-digit |
| Decimal.SignedNumeral | src/stm32/flashforge_load_cell.c:130-161 | the decimal numeral the sensor writes in its reply line (a '-' before negatives) is non-empty, with no space and no NUL, so it is a single weight field |
| HostParams.DecodeText | klippy/extras/flashforge_loadcell.py:41-45 | `_decode`: None, a value with no `decode`, and bytes that are not UTF-8 give the default; any other result is the value's own text (the same function appears at flashforge_tvoc.py:21-29) |
| HostParams.ParseIntLiteral | klippy/extras/flashforge_loadcell.py:37 | `int()` on text: blank text raises, and a negative result needs a '-' in the text; `ParseSignedNumeral` and `RejectsForeignCharacter` give what it reads and rejects |
| HostParams.PyInt | klippy/extras/flashforge_loadcell.py:36-39 | `int(value)`: an int passes through, None and other objects raise, and a str or bytes value reads as `int()` of its decoded text, so invalid UTF-8 raises |
| HostParams.ParseSignedNumeral | klippy/extras/flashforge_loadcell.py:271 | `int()` on a gcode parameter written as the decimal text of any integer gives that integer back |
| HostParams.RejectsForeignCharacter | klippy/extras/flashforge_loadcell.py:261-271 | a gcode parameter with a character that is not a digit, sign, underscore or space never converts |
| HostParams.TrimKeeps | klippy/extras/flashforge_loadcell.py:271 | the whitespace `int()` strips from a parameter never includes a non-space character |
| Ring.Empty | src/stm32/flashforge_load_cell.c:332 | a zeroed buffer with head = tail holds nothing |
| Ring.Count | src/stm32/flashforge_tvoc.c:74 | the occupancy `(head - tail + size) % size` is below the size and equals the unwrapped distance |
| Ring.FullIffCount | src/stm32/flashforge_load_cell.c:106-107 | `next == tail` (full) exactly when size − 1 elements are held: one slot always stays free |
| Ring.Push | src/stm32/flashforge_load_cell.c:106-109 | writing at head and advancing it appends the byte to the FIFO contents |
| Ring.Front | src/stm32/flashforge_load_cell.c:122 | the byte at tail is the oldest held |
| Ring.Pop | src/stm32/flashforge_load_cell.c:121-123 | advancing tail removes exactly the oldest element |
| Ring.Skip | src/stm32/flashforge_tvoc.c:117-119 | advancing tail by k drops exactly the k oldest elements |
| Ring.ConsumeAll | src/stm32/flashforge_load_cell.c:172 | `rx_tail = head` leaves the buffer empty |
| Ring.DiscardAll | src/stm32/flashforge_load_cell.c:211 | `rx_head = rx_tail` leaves the buffer empty |
| BridgeText.CStr | src/stm32/flashforge_load_cell.c:187-192 | the C string is the prefix before the first NUL and holds no NUL |
| BridgeText.Truncate | src/stm32/flashforge_load_cell.c:132-133 | at most n characters, a prefix of the input |
| BridgeText.DropBreaks | src/stm32/flashforge_load_cell.c:180-186 | the result holds no '\r' or '\n' and is no longer than the input |
| BridgeText.LineOf | src/stm32/flashforge_load_cell.c:177-187 | the assembled line has at most 63 characters and no line break |
| BridgeText.LineOfPlainText | src/stm32/flashforge_load_cell.c:180-187 | break-free text of at most 63 characters comes through unchanged |
| BridgeText.BreaksDropped | src/stm32/flashforge_load_cell.c:180-186 | a trailing "\r\n" adds nothing to the line |
| BridgeText.Status | src/stm32/flashforge_load_cell.c:189-194 | always "ok" or "error", "ok" exactly when "ok." occurs before the line's first NUL; `StatusOfText`, `StatusStopsAtNul` and `OkBeyondCut` state what this means for the bytes received |
| BridgeText.StatusOfText | src/stm32/flashforge_load_cell.c:191-194 | a line without a NUL is "ok" exactly when "ok." occurs anywhere in it, and "error" otherwise |
| BridgeText.StatusStopsAtNul | src/stm32/flashforge_load_cell.c:187-194 | text after a NUL never changes the status, so an "ok." behind a NUL is not seen |
| BridgeText.OkBeyondCut | src/stm32/flashforge_load_cell.c:180-194 | an "ok." that arrives after 63 kept characters is cut off, and the reply is an "error" |
| BridgeText.WordLength | src/stm32/flashforge_load_cell.c:137-139 | the leading token ends at the first space or at the end |
| BridgeText.Tokens | src/stm32/flashforge_load_cell.c:137-140 | every `strtok_r` token is non-empty and contains no space |
| BridgeText.ParseWeight | src/stm32/flashforge_load_cell.c:130-161 | a missing fifth field, or one with no digit after its sign, reads 0; a fifth field made of an optional '+' or '-', digits (leading zeros allowed) and then its end or a non-digit reads the signed value of those digits, so "+12" reads 12, "007" reads 7 and "-0" reads 0 |
| BridgeText.NoDigitNoWeight | src/stm32/flashforge_load_cell.c:152-154 | a token with no digit after its optional sign reads 0 |
| BridgeText.NumeralRead | src/stm32/flashforge_load_cell.c:144-160 | a token that starts with the numeral of v, followed by its end or a non-digit, reads v |
| BridgeText.SignedDecimalRead | src/stm32/flashforge_load_cell.c:144-160 | a token made of an optional sign, digits and a rest that does not start with a digit reads as the signed value of the digits, whatever zeros lead them |
| BridgeText.SignedDecimalSplit | src/stm32/flashforge_load_cell.c:144-160 | every token with a digit after its optional sign splits that way, so the contract of `ParseWeight` fixes the weight of every line |
| BridgeText.SignedPrefixOfNumeral | src/stm32/flashforge_load_cell.c:144-160 | a signed numeral followed by a non-digit reads back as its value |
| BridgeText.TokensOfWord | src/stm32/flashforge_load_cell.c:137-140 | a word followed by a space or the end is the next token |
| BridgeText.TokensOfFields | src/stm32/flashforge_load_cell.c:137-140 | space-separated words come back as the tokens, in order |
| BridgeText.FifthToken | src/stm32/flashforge_load_cell.c:137-143 | after four fields the next word is the fifth token |
| BridgeText.ParseWeightOfLine | src/stm32/flashforge_load_cell.c:130-161 | round trip: a line whose fifth field is the numeral of v parses to v |
| BridgeText.FieldsHaveNoNul | src/stm32/flashforge_load_cell.c:132-133 | a line built from NUL-free words contains no NUL |
| BridgeText.Reverse | src/stm32/flashforge_load_cell.c:294-302 | index i of the result is index n−1−i of the input |
| BridgeText.DigitsOfWord | src/stm32/flashforge_load_cell.c:271-288 | a 32-bit weight has at most ten digits, so the 32-byte buffer never cuts the digit loop short |
| BridgeText.LowDigitsFirst | src/stm32/flashforge_load_cell.c:288-292 | the loop writes exactly the weight's digits, least significant first, and leaves "H2 S" alone |
| BridgeText.ReverseInPlace | src/stm32/flashforge_load_cell.c:294-302 | the swapping loop leaves the run reversed and the bytes before it unchanged |
| BridgeText.WriteWeight | src/stm32/flashforge_load_cell.c:280-303 | from index 4 the buffer holds the weight's numeral ("0" for zero), ending at most at index 14 |
| BridgeText.FormatH2 | src/stm32/flashforge_load_cell.c:270-305 | the command is "H2 S" then the decimal weight, 4 + digit count long, and its tail reads back as the weight |
| BridgeLayout.Offset | src/stm32/flashforge_load_cell.c:25-31 | every one of the six 52-byte records lies inside `cmd_queue` |
| BridgeLayout.SlotsApart | src/stm32/flashforge_load_cell.c:31 | records do not overlap |
| BridgeLayout.LittleEndianRoundTrip | src/stm32/flashforge_load_cell.c:252 | a number stored in k little-endian bytes reads back unchanged when it fits |
| BridgeLayout.LengthField | src/stm32/flashforge_load_cell.c:252 | the 4-byte `cmd_len` field reads back any 32-bit length stored |
| BridgeLayout.NameField | src/stm32/flashforge_load_cell.c:249-250 | the name field is 16 bytes |
| BridgeLayout.NameFieldRead | src/stm32/flashforge_load_cell.c:85-87 | the name read from a slot is the name `strncpy` stored there |
| BridgeLayout.NameAt | src/stm32/flashforge_load_cell.c:85-87 | the name `try_send_next_queued_command` copies is the start of the slot's 16-byte name field, up to its first NUL; `NameKept` shows it is the name stored |
| BridgeLayout.Load | src/stm32/flashforge_load_cell.c:89 | the bytes sent are exactly `cmd_len` bytes from the start of the slot's data field, and a length that fits the field always loads; `DataKept` shows they are the bytes stored |
| BridgeLayout.StoreAsWritten | src/stm32/flashforge_load_cell.c:248-253 | the unbounded copy leaves `cmd_queue` exactly when name plus data run past its end |
| BridgeLayout.StoreAsWrittenFits | src/stm32/flashforge_load_cell.c:248-253 | data of at most 32 bytes is read back as stored, under the stored name, other slots untouched |
| BridgeLayout.DataKept | src/stm32/flashforge_load_cell.c:251-252 | a copy that fits is what `flashforge_loadcell_send(cmd_data, cmd_len)` later reads |
| BridgeLayout.NameKept | src/stm32/flashforge_load_cell.c:249-250 | the data and length writes do not disturb the name |
| BridgeLayout.OtherSlotKept | src/stm32/flashforge_load_cell.c:248-253 | a copy that fits changes no other record |
| BridgeLayout.OverlongPayloadAsWritten | src/stm32/flashforge_load_cell.c:251-252 | as written, a 40-byte payload reads back altered: byte 32 is the length, and bytes 36–39 land in slot 1 |
| BridgeLayout.OverlongPayloadLastSlot | src/stm32/flashforge_load_cell.c:251 | as written, the same payload in slot 5 runs past the end of `cmd_queue` |
| BridgeLayout.Store | src/stm32/flashforge_load_cell.c:248-253 | the bounded copy agrees with the copy as written whenever the data fits the 32-byte field; `StoreRoundTrip` shows what it reads back |
| BridgeLayout.StoreRoundTrip | src/stm32/flashforge_load_cell.c:248-253 | the bounded copy reads back the first 32 data bytes and the name in every slot, other slots untouched |
| BridgeLayout.StoreMatchesQueue | src/stm32/flashforge_load_cell.c:248-253 | the slot the bounded copy stores is the one `LoadCellBridge.Enqueue` queues |
| LoadCellBridge.Elapsed | src/stm32/flashforge_load_cell.c:229 | the tick count from send to now, modulo the 32-bit wrap |
| LoadCellBridge.TimeoutWindow | src/stm32/flashforge_load_cell.c:228-230 | `timer_is_before(sent + limit, now)` holds exactly when limit < elapsed ≤ limit + 2^31 |
| LoadCellBridge.Init | src/stm32/flashforge_load_cell.c:331-333 | the zeroed state is well formed, IDLE, with every buffer empty |
| LoadCellBridge.CopyName | src/stm32/flashforge_load_cell.c:85-87 | the copy fits 15 characters without a NUL; a name that already fits is kept as it is |
| LoadCellBridge.Transmit | src/stm32/flashforge_load_cell.c:64-79 | the transmit ring stays valid with its size; what it gains is stated by `TransmitAppends` |
| LoadCellBridge.TransmitAppends | src/stm32/flashforge_load_cell.c:64-74 | the ring gains the longest prefix of the data that fits its free space; the rest is dropped |
| LoadCellBridge.TxByte | src/stm32/flashforge_load_cell.c:120-127 | the transmit interrupt sends the oldest pending byte and removes it, or does nothing when none is pending |
| LoadCellBridge.Enqueue | src/stm32/flashforge_load_cell.c:238-255 | a full queue (5 held) answers "MCU command queue overflow" and changes nothing; otherwise the command joins the back and nothing else changes |
| LoadCellBridge.TrySendNext | src/stm32/flashforge_load_cell.c:81-92 | only when IDLE with something queued: the oldest entry leaves the queue, is transmitted and awaited (CMD_SENT, its name, now) |
| LoadCellBridge.Send | src/stm32/flashforge_load_cell.c:257-261 | the state stays well formed; the order of sending is stated by `SendOrder` |
| LoadCellBridge.SendOrder | src/stm32/flashforge_load_cell.c:257-261 | idle and empty: the command goes out at once; with a reply outstanding it waits behind the queued ones and the wire is untouched |
| LoadCellBridge.RequestData | src/stm32/flashforge_load_cell.c:263-329 | the H2 payload is "H2 S" and the weight's digits; every fixed payload fits the 32-byte field |
| LoadCellBridge.Handle | src/stm32/flashforge_load_cell.c:263-329 | every handler keeps the state well formed; the bytes each puts on the wire are stated by `CommandBytes` |
| LoadCellBridge.CommandBytes | src/stm32/flashforge_load_cell.c:264-321 | on an idle bridge a handler puts its whole payload on the wire under its name, and the H2 digits read back as the weight |
| LoadCellBridge.RxByte | src/stm32/flashforge_load_cell.c:104-118 | a byte is appended when there is room (wake and line flag on '\n'); on a full ring it is dropped and the overflow flagged |
| LoadCellBridge.ExtractLine | src/stm32/flashforge_load_cell.c:177-187 | the loop over the ring yields the received bytes without breaks, cut at 63 |
| LoadCellBridge.ReadStep | src/stm32/flashforge_load_cell.c:180-186 | each loop step reads the next held byte and reaches head exactly when all are read |
| LoadCellBridge.LineAfterCap | src/stm32/flashforge_load_cell.c:180 | stopping at 63 kept bytes gives the same line as reading all and cutting |
| LoadCellBridge.DropBreaksAppend | src/stm32/flashforge_load_cell.c:180-186 | dropping breaks distributes over concatenation |
| LoadCellBridge.ProcessLine | src/stm32/flashforge_load_cell.c:163-205 | the receive ring ends empty; without an awaited reply the bytes are discarded and nothing is sent |
| LoadCellBridge.ReplyReported | src/stm32/flashforge_load_cell.c:189-204 | one message under the awaited name with the line as raw text, "ok" iff "ok." occurs; a non-zero value only for an ok H7; then the next queued command is awaited |
| LoadCellBridge.WeightReported | src/stm32/flashforge_load_cell.c:130-201 | a sensor reply "f1 f2 f3 f4 <v> ... ok.\r\n" to H7 is reported as ("ok", "H7", v, the line) |
| LoadCellBridge.HandleOverflow | src/stm32/flashforge_load_cell.c:208-219 | overflow empties the receive ring; an awaited command fails with "RX buffer overflow"; without overflow nothing changes |
| LoadCellBridge.CheckTimeout | src/stm32/flashforge_load_cell.c:228-234 | "timeout" is sent exactly for CMD_SENT past the deadline, and otherwise nothing changes |
| LoadCellBridge.TaskAsWritten | src/stm32/flashforge_load_cell.c:207-235 | an unwoken task does the overflow branch only |
| LoadCellBridge.Task | src/stm32/flashforge_load_cell.c:207-235 | corrected task: same as written whenever it was woken |
| LoadCellBridge.RunAsWritten | src/stm32/flashforge_load_cell.c:207-235 | repeated task runs keep the state well formed; that they never time out a silent sensor is stated by `SilentSensorAsWritten` |
| LoadCellBridge.SilentSensorAsWritten | src/stm32/flashforge_load_cell.c:221-234 | as written, with nothing received, any number of task runs leave the awaited command pending and send nothing |
| LoadCellBridge.SilentSensorExample | src/stm32/flashforge_load_cell.c:221-234 | as written, H7 sent at 0 is past its deadline at 1 s, and the task still sends nothing |
| LoadCellBridge.WeightRequestSent | src/stm32/flashforge_load_cell.c:318-320 | H7 from the initial state is transmitted at once with no flag set |
| LoadCellBridge.OverdueAtTwiceTimeout | src/stm32/flashforge_load_cell.c:228-230 | at twice the timeout the deadline test is true, yet the task as written is idle |
| LoadCellBridge.SilentSensorTimesOut | src/stm32/flashforge_load_cell.c:228-234 | corrected: past the deadline a silent sensor's command gets "timeout" and the next queued one goes out |
| LoadCellBridge.NoEarlyTimeout | src/stm32/flashforge_load_cell.c:228-234 | before the deadline the task leaves the command waiting |
| LoadCellHost.CommandOf | klippy/extras/flashforge_loadcell.py:22-28 | a name maps to a command exactly when it is one of the five formats |
| LoadCellHost.DecodeReply | klippy/extras/flashforge_loadcell.py:30-45 | missing command is '', missing or undecodable status 'unknown', missing raw ''; a value `int()` rejects or that is missing is 0; never fails |
| LoadCellHost.DecodeWireReply | klippy/extras/flashforge_loadcell.py:30-45 | a response as the firmware sends it decodes to exactly its fields |
| LoadCellHost.Connect | klippy/extras/flashforge_loadcell.py:89-102 | succeeds iff all five formats are available and registers them; otherwise it names the first missing one, with the ones before it registered |
| LoadCellHost.FirstMissing | klippy/extras/flashforge_loadcell.py:90-102 | the position of the first required name the firmware lacks; every name before it is available |
| LoadCellHost.ConnectFrom | klippy/extras/flashforge_loadcell.py:90-102 | from lookup position i on: the names before the first missing one are registered, and that one (or none) is named |
| LoadCellHost.ConnectRegistersExactly | klippy/extras/flashforge_loadcell.py:89-102 | from the initial state, a connect registers exactly the five formats, or names one that is required and unavailable |
| LoadCellHost.Handle | klippy/extras/flashforge_loadcell.py:104-117 | a matching reply completes the pending call at most once and leaves the weight; otherwise only an ok H7 sets the weight |
| LoadCellHost.HandleReply | klippy/extras/flashforge_loadcell.py:104-117 | the registered handler keeps the command registry, never creates a pending call, and changes the weight only to the value of an ok H7 reply that is not the awaited one |
| LoadCellHost.UnsolicitedReply | klippy/extras/flashforge_loadcell.py:116-117 | with nothing pending, a reply changes the weight exactly when it is an ok H7 |
| LoadCellHost.Answer | klippy/extras/flashforge_loadcell.py:108-114 | an answer arrives before the reply timeout and carries the awaited tag |
| LoadCellHost.AnswerIsFirstOnTime | klippy/extras/flashforge_loadcell.py:108-114 | the answer is the first arrival with the tag, all before it on time; none when every tagged arrival comes after a late one |
| LoadCellHost.Await | klippy/extras/flashforge_loadcell.py:128-137 | waiting keeps the registry and the pending command, lasts at most 600 ms, and a pending H7 leaves the weight alone |
| LoadCellHost.AwaitAnswer | klippy/extras/flashforge_loadcell.py:128-140 | the wait ends with the answer in the completion at its arrival time, or empty after 600 ms |
| LoadCellHost.WeightFromReading | klippy/extras/flashforge_loadcell.py:104-117 | while a call waits, the weight only changes to the value of an ok H7 reply that arrived |
| LoadCellHost.McuError | klippy/extras/flashforge_loadcell.py:149-153 | the error carries the reply's status and raw text, and its command name or else the fallback |
| LoadCellHost.SendAndWait | klippy/extras/flashforge_loadcell.py:119-147 | busy: error, pending call untouched; unknown name: error, nothing sent; otherwise the command is sent, and the slot is empty again on every exit |
| LoadCellHost.CallOutcome | klippy/extras/flashforge_loadcell.py:137-145 | the outcome is the reference `Expected`: ok answer returned, other status an error with status and raw, no answer a timeout; the caller resumes at the answer or after 600 ms |
| LoadCellHost.CallIgnoresWeightAndTime | klippy/extras/flashforge_loadcell.py:119-147 | a call's outcome depends only on the registry and the replies |
| LoadCellHost.GetWeight | klippy/extras/flashforge_loadcell.py:155-158 | success stores and returns the value of the ok H7 answer; an error leaves the weight; an ok H7 answer always succeeds |
| LoadCellHost.TareAttempt | klippy/extras/flashforge_loadcell.py:164-168 | one attempt reads the reference `Reading`: the H1 error, else the H7 error, else the H7 value |
| LoadCellHost.TareAttemptKeeps | klippy/extras/flashforge_loadcell.py:164-168 | an attempt keeps the registry, takes time, and leaves no call pending |
| LoadCellHost.TareAttemptReads | klippy/extras/flashforge_loadcell.py:164-168 | from the idle state an attempt reads `Reading` |
| LoadCellHost.Tare | klippy/extras/flashforge_loadcell.py:160-176 | success only within the threshold; a timeout only once the deadline passed; attempts bounded by the timeout over 200 ms; a busy device fails untouched |
| LoadCellHost.TareLoop | klippy/extras/flashforge_loadcell.py:162-176 | the same for the loop from any attempt on |
| LoadCellHost.TareLoopBound | klippy/extras/flashforge_loadcell.py:162-175 | each retry starts at least 200 ms after the previous attempt and before the deadline |
| LoadCellHost.TareRetried | klippy/extras/flashforge_loadcell.py:170-175 | every attempt before the last, and every attempt of a timed-out tare, read a value outside the threshold |
| LoadCellHost.LoopRetried | klippy/extras/flashforge_loadcell.py:170-175 | the same for the loop from any attempt on |
| LoadCellHost.TareLastReading | klippy/extras/flashforge_loadcell.py:164-172 | the last attempt decides: success read its weight there, a step failure got its error there |
| LoadCellHost.LoopLastReading | klippy/extras/flashforge_loadcell.py:164-172 | the same for the loop from any attempt on |
| LoadCellSampler.ParseAction | klippy/extras/flashforge_loadcell.py:272-274 | only "shutdown" and "pause" are accepted, and they name the action chosen |
| LoadCellSampler.NewSensor | klippy/extras/flashforge_loadcell.py:217-222 | the policy starts at the configured defaults with no observer |
| LoadCellSampler.Observe | klippy/extras/flashforge_loadcell.py:284-285 | registering the callback changes nothing else |
| LoadCellSampler.SampleOnce | klippy/extras/flashforge_loadcell.py:233-258 | poll iff H7 is registered and no call is pending; over the limit (strict, printing or always): shutdown returns NEVER, pause fires only when not paused; otherwise reschedule at measured + interval, observer gets the weight |
| LoadCellSampler.Run | klippy/extras/flashforge_loadcell.py:233-258 | each firing is a `SampleOnce` of its own tick, and firings stop after NEVER |
| LoadCellSampler.ShutdownIsFinal | klippy/extras/flashforge_loadcell.py:246-248 | a shutdown happens at most once, in the last sample; every earlier sample rescheduled |
| LoadCellSampler.RunStopsOnlyAtShutdown | klippy/extras/flashforge_loadcell.py:246-258 | a run ends early only with a NEVER sample |
| LoadCellSampler.GetInt | klippy/extras/flashforge_loadcell.py:271 | absent: the default; unparsable: an error; otherwise accepted iff within the bounds, as the value written |
| LoadCellSampler.SetMaxForce | klippy/extras/flashforge_loadcell.py:260-282 | RESET=1 restores both defaults; with RESET=0 the command succeeds exactly when FORCE is absent or a number of at least 0 and ACTION is absent, "shutdown" or "pause", and then the given values replace the old ones and absent ones are kept; a bad RESET is an error; an error changes nothing |
| LoadCellSampler.ForceAloneApplied | klippy/extras/flashforge_loadcell.py:268-278 | FORCE alone sets the force and keeps the overload action |
| LoadCellSampler.ResetRestoresDefaults | klippy/extras/flashforge_loadcell.py:263-265 | a reset after any accepted change gives back the configured policy |
| LoadCellSampler.SetThenRead | klippy/extras/flashforge_loadcell.py:270-278 | setting a force and an action, then reading the policy, gives exactly what was written |
| LoadCellSampler.LoadCellStatus | klippy/extras/flashforge_loadcell.py:197-198 | the status has the single key force_g with the last weight |
| LoadCellSampler.SensorStatus | klippy/extras/flashforge_loadcell.py:296-297 | the sensor status adds temperature = last weight to the device status |
| LoadCellSampler.Temperature | klippy/extras/flashforge_loadcell.py:293-294 | `get_temp` reports the status's temperature entry, target 0 |
| LoadCellSampler.StatusAfterReply | klippy/extras/flashforge_loadcell.py:296-297 | after an unsolicited reply, force and temperature show the value of an ok H7 reading, and the earlier weight otherwise |
| LoadCellSampler.ReportDelta | klippy/extras/flashforge_loadcell.py:287-288 | the report interval is at least the 100 ms minimum |
| TvocPacket.Checksum | src/stm32/flashforge_tvoc.c:35-43 | the checksum brings the 8-bit sum of bytes 1–7 to zero |
| TvocPacket.ComputeChecksum | src/stm32/flashforge_tvoc.c:35-43 | the 8-bit accumulator loop and `(~sum) + 1` compute that checksum |
| TvocPacket.ChecksumIffZeroSum | src/stm32/flashforge_tvoc.c:35-56 | the checksum byte is right exactly when bytes 1–8 sum to 0 modulo 256 |
| TvocPacket.Parse | src/stm32/flashforge_tvoc.c:46-61 | accepted iff header FF 18 and zero sum; the value's high byte is byte 4 and its low byte is byte 5 |
| TvocPacket.Build | src/stm32/flashforge_tvoc.c:58-59 | a built packet carries the header, the payload bytes and the value big-endian |
| TvocPacket.ParseBuild | src/stm32/flashforge_tvoc.c:46-61 | round trip: every built packet parses to its value |
| TvocPacket.BuildParse | src/stm32/flashforge_tvoc.c:46-61 | every accepted packet is the one built from its own bytes and value |
| TvocScan.FirstHeader | src/stm32/flashforge_tvoc.c:80-98 | a found header is at or after the start, with nine bytes received behind it |
| TvocScan.FirstHeaderIsFirst | src/stm32/flashforge_tvoc.c:80-98 | no header lies before the one found, and none at all when none is found |
| TvocScan.Decode | src/stm32/flashforge_tvoc.c:109-115 | a packet behind a header is a checksum error exactly when its sum is non-zero, else accepted with its parsed value |
| TvocScan.ScanFrom | src/stm32/flashforge_tvoc.c:74-120 | something is consumed iff a packet was found; the end lies past the first packet and within the bytes; nine bytes per packet |
| TvocScan.ScanLeavesNoHeader | src/stm32/flashforge_tvoc.c:74-107 | after the last packet found (or from the start when none) no whole packet remains |
| TvocScan.At | src/stm32/flashforge_tvoc.c:81 | the storage index `(tail + k) % size` holds the k-th byte received |
| TvocScan.FindHeader | src/stm32/flashforge_tvoc.c:77-98 | the inner loop finds a header iff the reference finds one, at the same place, with nine bytes behind it |
| TvocScan.Extract | src/stm32/flashforge_tvoc.c:88-90 | the nine bytes copied are the received bytes at that offset |
| TvocScan.ProcessPackets | src/stm32/flashforge_tvoc.c:67-121 | the firmware's loops over the ring report the same packets and commit the same tail as `ScanFrom` |
| TvocScan.PendingSkipsByte | src/stm32/flashforge_tvoc.c:100-106 | with no header ahead, advancing the local tail loses nothing |
| TvocScan.PendingTakesPacket | src/stm32/flashforge_tvoc.c:109-119 | taking the first packet and committing past it keeps the scan's result |
| TvocScan.ScanNothing | src/stm32/flashforge_tvoc.c:100-106 | with no header from t on, nothing is found from t or t + 1 |
| TvocScan.ScanStep | src/stm32/flashforge_tvoc.c:74-119 | the scan reports the first packet and then continues right after it |
| TvocFirmware.Init | src/stm32/flashforge_tvoc.c:167-168 | the zeroed state: empty ring, no flag, reading 0 |
| TvocFirmware.RxByte | src/stm32/flashforge_tvoc.c:133-146 | the task is always woken; with room the byte is appended and a packet flagged; with 127 held it is dropped and the overflow flagged |
| TvocFirmware.RxBytesAppend | src/stm32/flashforge_tvoc.c:133-141 | while there is room, bytes are appended in order with no overflow |
| TvocFirmware.ReportOf | src/stm32/flashforge_tvoc.c:109-115 | "ok" with the value exactly for an accepted packet, (0, "checksum_error") otherwise |
| TvocFirmware.Reports | src/stm32/flashforge_tvoc.c:109-115 | one message per packet, in order |
| TvocFirmware.LastValueSnoc | src/stm32/flashforge_tvoc.c:110-111 | the reading kept is that of the latest accepted packet |
| TvocFirmware.LastValueWithoutAccepted | src/stm32/flashforge_tvoc.c:113-115 | checksum errors leave the reading kept unchanged |
| TvocFirmware.Process | src/stm32/flashforge_tvoc.c:67-121 | the packet flag is cleared, the other flags kept, and what remains is a suffix of what was held; the reports and the reading kept are stated by `ProcessLeavesNoPacket`, `GoodPacketReported` and `CorruptPacketRejected` |
| TvocFirmware.Task | src/stm32/flashforge_tvoc.c:149-164 | an overflow empties the ring, sends (0, "rx_overflow") and keeps the reading; unwoken without overflow nothing happens |
| TvocFirmware.ProcessLeavesNoPacket | src/stm32/flashforge_tvoc.c:74-107 | after processing no whole packet is left in the ring |
| TvocFirmware.GoodPacketReported | src/stm32/flashforge_tvoc.c:109-119 | a good packet behind junk is reported "ok" and kept, and only the bytes after it remain |
| TvocFirmware.CorruptPacketRejected | src/stm32/flashforge_tvoc.c:113-119 | a bad checksum sends (0, "checksum_error"), keeps the old reading, and consumes the packet |
| TvocFirmware.LonePacket | src/stm32/flashforge_tvoc.c:74-119 | the scan of junk, a packet and a partial tail finds that packet alone |
| TvocFirmware.PartialPacketKept | src/stm32/flashforge_tvoc.c:74 | fewer than nine bytes: nothing reported, nothing consumed |
| TvocFirmware.PacketAfterInit | src/stm32/flashforge_tvoc.c:133-163 | from start-up, one good packet received and the task run: its value is reported and kept, and the ring is empty |
| TvocHost.DecodeResponse | klippy/extras/flashforge_tvoc.py:8-19 | missing status 'unknown'; the three numbers are converted, and if any conversion fails all three are 0 |
| TvocHost.DecodeWireParams | klippy/extras/flashforge_tvoc.py:8-19 | a firmware report decodes to its reading and status, co2 and hcho 0 |
| TvocHost.UnconvertibleZeroesAll | klippy/extras/flashforge_tvoc.py:12-19 | one unconvertible number zeroes all three |
| TvocHost.Handle | klippy/extras/flashforge_tvoc.py:51-62 | the status kept is the message's decoded status, whatever it is |
| TvocHost.LastResponseWins | klippy/extras/flashforge_tvoc.py:59-62 | after any run of messages the state is the last one's decoding alone |
| TvocHost.ChecksumErrorClearsReading | klippy/extras/flashforge_tvoc.py:59-62 | a checksum-error report sets the host reading to 0 |
| TvocHost.Status | klippy/extras/flashforge_tvoc.py:73-79 | exactly the keys tvoc, co2, hcho, status with the last values |
| TvocHost.Temperature | klippy/extras/flashforge_tvoc.py:113-114 | the TVOC reading is the current value, target 0 |
| TvocHost.SensorStatus | klippy/extras/flashforge_tvoc.py:116-117 | the device status plus temperature = TVOC reading |
| TvocHost.StatusAfterReport | klippy/extras/flashforge_tvoc.py:73-79 | after a firmware report, the status, temperature and sensor status show its reading and status, co2 and hcho 0 |
| TvocHost.Sample | klippy/extras/flashforge_tvoc.py:98-102 | the callback, when set, gets the TVOC reading, and the timer fires again 500 ms after the time measured |

## Left out

- UART, GPIO and clock initialisation, the UART error-flag handling in both interrupt handlers, and the shutdown handler: hardware side effects.
- `irq_disable`/`irq_enable` and concurrency between interrupt and task. Each received byte and each task run is one atomic step, so the task reads `head` once at its start.
- `sched_wake_task`/`sched_check_wake` are modelled as one wake flag that the task clears.
- LoadCellBridge.CMD_TIMEOUT: `timer_from_us` depends on the board clock. The model fixes 72 ticks per microsecond, the STM32F103 rate.
- LoadCellBridge.Task: each task run reads the timer once (`now`), and `try_send_next_queued_command` stamps the send with that same reading.
- LoadCellBridge.Enqueue: keeps at most 32 data bytes, the corrected copy. The unbounded `memcpy` as written is modelled byte by byte in `BridgeLayout` only (see Findings).
- BridgeText.ParseWeight: digits accumulate in unbounded integers. The signed 32-bit overflow of `val * 10 + digit` for ten or more digits is not modelled.
- BridgeText.FormatH2: the weight is taken below 2^32, the range of the `%u` argument.
- HostParams.ParseIntLiteral: `int()` is modelled on ASCII text. Non-ASCII Unicode digits and whitespace are left out.
- HostParams.Field: UTF-8 decoding is abstracted. A bytes value carries its decoding, or none when invalid.
- LoadCellHost.Await: a call's replies are given already decoded, with their delay after the send. The reactor, its completions and its clock are not modelled.
- LoadCellHost.SendAndWait: exceptions raised by the MCU `send` itself are left out, as is the text of the gcode errors.
- LoadCellHost.Tare: the clock is read once per loop check. The retry pause is taken to end exactly 200 ms after the attempt. The gcode text responses are not modelled.
- `cmd_LOAD_CELL_CALIBRATE`, `cmd_LOAD_CELL_SAVE_CALIBRATION` and `cmd_LOAD_CELL_TEST`: their parameter handling is gcode plumbing. The transfer itself is `SendAndWait`; the firmware side of each is `LoadCellBridge.Handle`.
- The command registry is a set of format strings, looked up present or absent. The host lists H3 with a `weight=%u` argument while the firmware declares it without one; this mismatch is not reconciled.
- LoadCellSampler.SampleOnce: the poll is an effect, whose send can fail only with a logged warning. `estimated_print_time` is not modelled. The idle state and the pause flag are inputs.
- LoadCellSampler.Config: configuration parsing is reduced to the field types and `ValidConfig`.
- `cmd_GET_TVOC` and every log line: text output only.
- TvocHost.Sample: `estimated_print_time` is not modelled.
- TvocScan.ProcessPackets: ring positions are offsets from `rx_tail`. `At` and `Ring.ContentsAt` relate them to storage indices.
  - The local tail that the not-found branch advances is not committed; this is modelled.
  - The firmware's `tail == head` break cannot be reached while nine bytes remain, so the loop has no such branch.

## Findings

| source | as written | input that shows it | evidently intended | confidence | as-written member | corrected member |
|---|---|---|---|---|---|---|
| src/stm32/flashforge_load_cell.c:221-234 | The timeout branch is reached only after `sched_check_wake` succeeds, and the receive interrupt wakes the task only for '\n' or overflow. | H7 sent at time 0 to a sensor that never answers; the task runs at 1 s, twice the 500 ms timeout. | A "timeout" response once 500 ms have passed, then the next queued command. | not executed; follows from the wake flag being set only in this file's interrupt handler | LoadCellBridge.SilentSensorExample | LoadCellBridge.SilentSensorTimesOut |
| src/stm32/flashforge_load_cell.c:251-252 | `memcpy` copies `cmd_len` bytes into the 32-byte `cmd_data` without a bound. | A TEST command with a 40-byte payload in slot 0: the length field overwrites payload bytes 32–35, and bytes 36–39 land in slot 1's name. In slot 5 the copy runs past `cmd_queue`. | At most 32 bytes stored (or the command rejected). | not executed; assumes the host can send a TEST payload longer than 32 bytes | BridgeLayout.OverlongPayloadAsWritten | BridgeLayout.StoreRoundTrip |
