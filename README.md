# ComfoAir serial protocol engine, in Dafny

This project models the protocol engine of the ESPHome ComfoAir component,
a controller for ComfoAir ventilation units with heat recovery. The engine has
six parts:

- **Checksum.** The bytes are summed with 8-bit wrap-around, then 0xAD is added.
- **Frame decoder.** It takes one byte at a time into a 30-byte buffer at a
  write index. Each byte gives a verdict: continue, invalid (the index goes
  back to 0) or complete.
- **Command encoder.** It writes `07 F0 00 id len payload... checksum 07 0F`.
- **Message parser.** It handles the fan-status (0x86), temperature (0x84) and
  bypass-control (0x8A) responses.
- **Poll scheduler.** A counter starts at -1 and cycles through 0..8. Counter
  values 0, 1 and 2 send the three status queries.
- **Control mapping.** Fan modes become levels 4/3/2/1 (command 0xA0, payload
  `[level, 0]`). A target temperature in 12..29 °C becomes the byte
  `trunc((t + 20) * 2)` (command 0x8D, a 10-byte payload).

Layout, one module per file:

- `messages.dfy` (`Messages`): the framing constants and identifiers.
- `checksum.dfy` (`Checksums`): the checksum, as a function and as the
  accumulating loop.
- `framing.dfy` (`Framing`): the decoder verdict `CheckByte`, the decoder step
  `Feed` and its runs `Run` and `Trace`, and the encoded frame `Frame`. It also
  holds the round trip and its converse.
- `parser.dfy` (`Parser`): the climate and sensor types, the published events,
  and the parser as functions.
- `control.dfy` (`Control`): the commands that control requests and poll
  ticks write, and the poll counter.
- `component.dfy` (`ComfoAir`): the class `ComfoAirComponent`, with the
  buffer as an `array`, the index, the counter and the climate fields. Its
  methods are proved against the pure functions. `Receive` and `ReceiveAll`
  give the effect of received bytes on the whole component.

How the outside world is represented:

- Inbound UART bytes are a sequence given to `Loop`.
- UART writes (one `ByteWritten` per byte) and `publish_state` calls are
  appended to one log, the field `events`, in the order they happen. For
  example, the two acknowledgment bytes come before anything the parser
  publishes, and a control request's commands come before its
  `publish_state`.
- Which sensors are configured is a constructor parameter, `Wiring`.
- Temperatures are exact `real` values. A device byte `b` means `b / 2 - 20`
  degrees, which is exact in half degrees.

The model follows the code in these places:

- An acknowledgment `07 F3` completes at index 1.
- An oversize length (more than 22) is rejected at index 5, not at index 4.
- The buffer is never cleared. The parser reads payload bytes 0..8 whatever
  the declared length is, so a short frame sees bytes left over from an
  earlier frame (`ShortFanStatusReadsStaleByte`).
- The temperature query is sent when the outside, supply or return sensor is
  wired. The code tests the outside sensor twice and never tests the exhaust
  sensor (`ExhaustAloneNeverPolled`).
- The first poll tick, with the counter at -1, sends nothing.
- The set-level payload is the two bytes `[level, 0]`, sized by
  `COMFOAIR_SET_LEVEL_LENGTH` (messages.h:36).
- The comfort-temperature payload is 10 bytes, `[0, byte, 0, ...]`
  (messages.h:40).
- The comfort-temperature byte is `(t + 20) * 2` cast to an integer, which
  truncates (comfoair.h:157).
- The supply-air temperature is published as the constant 0
  (comfoair.h:293).

## Model

| member | source | states |
|---|---|---|
| `Messages.MarkersDistinct` | components/comfoair/messages.h:13-16 | prefix 0x07, head 0xF0, tail 0x0F and ack 0xF3 are pairwise distinct, so index 1 tells an ack from a data frame |
| `Messages.FieldIndicesInHead` | components/comfoair/messages.h:11-19 | the identifier (3) and length (4) indices lie inside the 5-byte head; the ack index is 1 |
| `Messages.ResponseIsRequestMinusOne` | components/comfoair/messages.h:21-31 | each polled query's response identifier is the request minus one (0x87/0x86, 0x85/0x84, 0x8B/0x8A) |
| `Framing.MaxDataLengthIs22` | components/comfoair/comfoair.h:211-216 | with a 5-byte head, a 3-byte tail and a 30-byte buffer, 22 is the largest data length that fits |
| `Checksums.ComfoairChecksum` | components/comfoair/comfoair.h:179-185 | the 8-bit accumulating loop returns (sum of the first `length` bytes + 0xAD) mod 256 |
| `Checksums.ChecksumOfPrefixed` | components/comfoair/comfoair.h:179-185 | the checksum of `head + s` is the sum of `head` added, mod 256, to the checksum of `s` |
| `Framing.CheckByte` | components/comfoair/comfoair.h:187-243 | a byte is judged "continue" only when the next index is still inside the 30-byte buffer |
| `Framing.Feed` | components/comfoair/comfoair.h:98-121 | storing a byte and stepping keeps the index in 0..29; an invalid or complete verdict resets it to 0 |
| `Framing.Run` | components/comfoair/comfoair.h:98-121 | after any run of bytes the decoder index is still inside the buffer |
| `Framing.EncoderChecksumAgrees` | components/comfoair/comfoair.h:168-172 | both encoder branches (`id + len + checksum(payload)` with a payload, `checksum([id])` without) equal the decoder's checksum over `00 id len payload` |
| `Framing.FrameLayout` | components/comfoair/comfoair.h:162-177 | an encoded frame is `5 + n + 3` bytes: `07 F0 00 id n`, the payload, the decoder's checksum of bytes 2..5+n, then `07 0F` |
| `Framing.RoundTrip` | components/comfoair/comfoair.h:187-243 | from index 0 and any buffer contents, every frame with at most 22 data bytes continues on all bytes but the last, completes on the last, and leaves identifier, length and payload in place |
| `Framing.AcceptedIsAckOrFrame` | components/comfoair/comfoair.h:187-243 | conversely, a byte run the decoder accepts from index 0 is exactly `07 F3` or an encoded frame of at most 22 data bytes |
| `Framing.AckCompletesAtIndexOne` | components/comfoair/comfoair.h:195-197 | `07 F3` gives continue, then complete, and the index returns to 0 |
| `Framing.OversizeRejectedAtIndexFive` | components/comfoair/comfoair.h:207-216 | a declared length above 22 passes index 4 and is rejected at index 5 |
| `Framing.RejectedByteNotReexamined` | components/comfoair/comfoair.h:112-115 | a rejected byte is not retried as a prefix: `07 07 F0` gives continue, invalid, invalid |
| `Framing.FrameAcceptedAfterReset` | components/comfoair/comfoair.h:111-115 | after an invalid or complete verdict, the next encoded frame is accepted in full whatever bytes were left in the buffer |
| `Parser.TemperatureInHalfDegrees` | components/comfoair/comfoair.h:288 | a temperature byte `b` reads as `b/2 - 20`, exactly `(b - 40)` half degrees, within -20..107.5, and distinct bytes read differently |
| `Parser.PublishedReadings` | components/comfoair/comfoair.h:250-306 | a sensor is published to iff it is wired and the frame is the response carrying it; the value is its reading (bytes 0/1, bytes 2/3 × 20, bytes 3/4/5 as temperatures, supply temperature 0) |
| `Parser.PublishedValve` | components/comfoair/comfoair.h:282-284 | the bypass valve is published iff wired and the frame is a temperature response, as open iff payload byte 0 is non-zero |
| `Parser.ParsedClimate` | components/comfoair/comfoair.h:264-313 | 0x86 sets fan mode low/medium/high for byte 8 = 0/1/2 and leaves it otherwise; 0x84 sets the current temperature only when the return sensor is wired; 0x8A sets the target from byte 1 and publishes; other identifiers change nothing |
| `Parser.ParseIgnoresDataLength` | components/comfoair/comfoair.h:245-249 | the parser's result does not depend on the declared data length |
| `Parser.FanStatusScenario` | components/comfoair/comfoair.h:250-279 | payload `[50, 60, 2, 3, 0, 0, 0, 0, 1]` publishes 50, 60, 40, 60 and sets fan mode medium |
| `Parser.TemperatureScenario` | components/comfoair/comfoair.h:281-306 | payload `[1, 0, 0, 84, 84, 84]` publishes valve open, 22 °C outside/return/exhaust, supply 0, and current temperature 22 |
| `Control.ZeroFilled` | components/comfoair/comfoair.h:144 | a C byte array of the given size keeps its initialisers and is zero after them |
| `Control.LevelMapping` | components/comfoair/comfoair.h:49-65 | exactly high, medium, low and off have a level; the levels 4, 3, 2, 1 are distinct; high, medium and low are the parser's fan-status codes plus two |
| `Control.ComfortByteRoundTrip` | components/comfoair/comfoair.h:157 | the truncated comfort byte lies in 64..98 and reads back as the request rounded down to the half degree, exactly on the half-degree grid |
| `Control.ControlCommandsShape` | components/comfoair/comfoair.h:44-78 | a control request writes `0xA0 [level, 0]` (10 bytes) exactly for a mapped fan mode, then `0x8D [0, byte, 0×8]` (18 bytes) exactly for a target in 12..29 |
| `Control.RejectedRequestsStillStored` | components/comfoair/comfoair.h:44-78 | an unmapped fan mode and an out-of-range target send nothing but are both stored |
| `Control.SetLevelHighScenario` | components/comfoair/comfoair.h:50-52 | fan mode high writes command 0xA0 with payload `[4, 0]` |
| `Control.ComfortBoundaryScenario` | components/comfoair/comfoair.h:150-158 | 29.5 °C writes nothing; 29.0 °C writes 0x8D with payload byte 98 (0x62) |
| `Control.ResetFilterPayload` | components/comfoair/comfoair.h:125-129 | the reset command is 0xDB with payload `{0, 0, 0, 1}` |
| `Control.NextCounter` | components/comfoair/comfoair.h:93-95 | from -1 or any later value the stepped counter lies in 0..8 |
| `Control.CounterCycle` | components/comfoair/comfoair.h:80-96 | after n ticks from -1 the counter is -1 for n = 0 and (n - 1) mod 9 otherwise |
| `Control.PollSchedule` | components/comfoair/comfoair.h:80-96 | tick n sends 0x87 when n mod 9 = 1 and a fan sensor is wired, 0x85 when n mod 9 = 2 and a temperature sensor is wired, 0x8B when n mod 9 = 3, else nothing |
| `Control.ExhaustAloneNeverPolled` | components/comfoair/comfoair.h:332-340 | with only the exhaust-air sensor wired, the temperature query is never sent |
| `ComfoAir.Receive` | components/comfoair/comfoair.h:100-119 | one received byte keeps the decoder index inside the buffer |
| `ComfoAir.ReceiveAccepted` | components/comfoair/comfoair.h:101-111 | an accepted run changes only the decoder until its last byte. Then a data frame logs the writes of `07 F3` and, after them, the parser's events, and an ack changes nothing more |
| `ComfoAir.DataFrameAcknowledgedAndParsed` | components/comfoair/comfoair.h:104-111 | a received data frame logs exactly the writes of `07 F3`, then the events of parsing the buffer that holds the frame over the old contents |
| `ComfoAir.AckReceivedSilently` | components/comfoair/comfoair.h:105-111 | a received `07 F3` writes nothing, publishes nothing and leaves the climate state unchanged |
| `ComfoAir.PolledResponsesParsed` | components/comfoair/comfoair.h:245-313 | the response to each polled query (its identifier minus one), with any payload of at most 22 bytes, is received from index 0. The model logs the ack, then applies the parser branch for that response (fan status, temperature or bypass control) to a payload that starts with the one sent |
| `ComfoAir.ShortFanStatusReadsStaleByte` | components/comfoair/comfoair.h:265-278 | a fan-status frame with at most 5 data bytes takes its fan mode from buffer byte 13, left over from an earlier frame |
| `ComfoAir.ComfoAirComponent.constructor` | components/comfoair/comfoair.h:350-352 | a 30-byte buffer, index 0, counter -1, an empty log |
| `ComfoAir.ComfoAirComponent.Loop` | components/comfoair/comfoair.h:98-121 | consuming the input bytes one by one leaves the component in the state `ReceiveAll` gives |
| `ComfoAir.ComfoAirComponent.ReadByte` | components/comfoair/comfoair.h:100-119 | one pass of the loop body moves the component as `Receive` does: the byte is stored in bounds, the ack is written before `parse_data_` runs, and the index steps or resets |
| `ComfoAir.ComfoAirComponent.WriteBytes` | components/comfoair/comfoair.h:163-176 | the bytes are logged as written, in order |
| `ComfoAir.ComfoAirComponent.ParseData` | components/comfoair/comfoair.h:245-315 | the climate fields and published events become those of `Parse` over the buffer |
| `ComfoAir.ComfoAirComponent.ParseFanStatus` | components/comfoair/comfoair.h:250-279 | the fan-status branch publishes and sets the fan mode as `Parser.ParseFanStatus` says |
| `ComfoAir.ComfoAirComponent.ParseTemperature` | components/comfoair/comfoair.h:281-306 | the temperature branch publishes and sets the current temperature as `Parser.ParseTemperature` says |
| `ComfoAir.ComfoAirComponent.ParseBypassControl` | components/comfoair/comfoair.h:308-313 | the bypass-control branch sets the target and publishes the climate state |
| `ComfoAir.ComfoAirComponent.WriteCommand` | components/comfoair/comfoair.h:162-177 | the bytes logged are exactly the encoded frame of the identifier and payload, in order |
| `ComfoAir.ComfoAirComponent.SetLevel` | components/comfoair/comfoair.h:136-147 | a level in 0..4 writes 0xA0 with payload `[level, 0]`; any other writes nothing |
| `ComfoAir.ComfoAirComponent.SetComfortTemperature` | components/comfoair/comfoair.h:149-160 | a temperature in 12..29 writes 0x8D with the 10-byte payload `[0, trunc((t+20)*2), 0...]`; any other writes nothing |
| `ComfoAir.ComfoAirComponent.ResetFilter` | components/comfoair/comfoair.h:125-129 | writes the reset-filter frame |
| `ComfoAir.ComfoAirComponent.Control` | components/comfoair/comfoair.h:44-78 | stores the requested fan mode and target. It logs the set-level command for a mapped fan mode, then the comfort command for an accepted target, then always one publish of the new climate state |
| `ComfoAir.ComfoAirComponent.Update` | components/comfoair/comfoair.h:80-96 | writes the query due at the current counter and steps the counter with the wrap from 9 to 0, keeping it in -1..8 |
| `ComfoAir.ComfoAirComponent.GetFanStatus` | components/comfoair/comfoair.h:317-325 | sends 0x87 only when one of the four fan sensors is wired |
| `ComfoAir.ComfoAirComponent.GetBypassControlStatus` | components/comfoair/comfoair.h:327-330 | always sends 0x8B |
| `ComfoAir.ComfoAirComponent.GetTemperature` | components/comfoair/comfoair.h:332-340 | sends 0x85 only when the outside, supply or return sensor is wired |
| `ComfoAir.ComfoAirComponent.GetUint8` | components/comfoair/comfoair.h:342-344 | returns payload byte `start` of the buffer |
| `ComfoAir.ComfoAirComponent.GetUint16` | components/comfoair/comfoair.h:346-348 | returns payload bytes `start`, `start + 1` as a big-endian 16-bit value (high byte `r / 256`, low byte `r mod 256`) |

## Left out

- The UART transport (`available`, `read_byte`, `write_byte`, `write_array`, `flush`) is foreign I/O. Inbound bytes are a sequence parameter. Writes are `ByteWritten` entries in the event log. `flush` adds nothing to the log, and the model does not capture that the ack is flushed before parsing starts.
- The host plumbing has no protocol logic: `traits()`, `get_setup_priority`, `set_name`, `set_uart_component`, the sensor setters, and the 6000 ms polling period in the constructor. Wiring is fixed at construction.
- Logging (`ESP_LOG*`) and `status_clear_warning` are presentation only.
- Floating point is not modelled. Temperatures are exact reals. The model agrees with the code for every byte-derived value, since `b/2 - 20` is exact in binary floating point. For a requested target, float rounding of `(t + 20) * 2` just below an integer is not captured.
- The climate framework's own `publish_state` behaviour is not modelled. The model records the published climate state as an event.
- The `int8_t` and `uint8_t` widths of `update_counter_` and `data_index_` are not written out. The counter stays in -1..8 and the index in 0..29 (both proved), so neither wraps.
- `get_uint8_t_` and `get_uint16_` require their bytes to lie inside the buffer. The code does not check this, and nothing calls them.
- The identifiers and lengths nothing uses (messages.h:23-26, 29, 32, 37-38, 45-49) have no behaviour and are not declared.
