# Photonicat PMU drivers, modelled in Dafny

The Photonicat board has a power-management microcontroller (the PMU). The
Linux host talks to it over a UART using fixed-layout frames:

- A 9-byte head: `A5`, source, destination, then frame id, length and
  command as little-endian u16 values.
- The payload.
- A 4-byte foot: `need_ack`, a CRC-16 of everything from the second head
  byte up to `need_ack`, then `5A`.

The multi-function core driver `drivers/mfd/photonicat-pmu.c` does four
things:

- It writes frames.
- It reassembles the frames it receives in an 8192-byte buffer.
- It matches a reply to the single pending request, with up to three
  retries.
- It hands every other frame to a notifier chain, and acknowledges the frame
  when no listener claims it and the frame asks for an acknowledgement.

The RTC, power-supply, hwmon and watchdog drivers sit on top of the core:

- The first three listen for the periodic status report.
- The RTC and the watchdog also send requests through the core.

The project has these modules:

- `Wire` (`wire.dfy`): the packed structs, the boot-reason enum and the
  opcode table of `include/linux/mfd/photonicat-pmu.h`, with serialisers,
  parsers and their round trips.
- `Bits` and `Crc16` (`bits.dfy`, `crc16.dfy`): the kernel's `crc16()`, the
  reflected 0x8005 polynomial with initial value 0xFFFF (CRC-16/MODBUS). The
  chaining law and error-detection lemmas are proved about it.
- `Codec` (`codec.dfy`): the frame layout of `pcat_pmu_raw_write` and the
  classification `pcat_process_data` makes of a buffer. The classification
  is defined for any checksum function; the crc16 facts are plugged in
  separately.
- `Pmu` (`pmu.dfy`): `struct pcat_pmu` and `struct pcat_request` as
  classes. These hold the frame counter, the receive buffer and its fill
  length, the reply slot, and a log of every raw write, from which the bytes
  on the line follow. The transmit, execute, reply-matching, dispatch and
  reassembly paths are proved against the functions `Execution`, `Decode`
  and `ChainResult`.
- `Rtc`, `Supply`, `Hwmon`, `Watchdog` (`rtc.dfy`, `supply.dfy`,
  `hwmon.dfy`, `watchdog.dfy`): the listener and client drivers.
- `Photonicat` (`photonicat.dfy`): the notifier chain as the listener
  drivers leave it, and the receive path through the listeners' `Notify`
  methods.

Things outside the model are parameters:

- What the UART driver answers to each write is a `Writes` value.
- What arrives while `pcat_pmu_execute` waits is an `Attempt` oracle.
- `rtc_year_days` and `power_supply_batinfo_ocv2cap` are functions passed
  in.

Where the code and its comments disagree, the model follows the code:

- `pcat_pmu_send` is documented to return 0 on success. It actually returns
  what the foot write returned, which is the byte count 4 for a whole write.
  `Pmu.RawWriteResult` says so.
- `bat_microvolt` and `chg_microvolt` hold millivolts.

## Model

| member | source | states |
|---|---|---|
| Wire.LE16 | include/linux/mfd/photonicat-pmu.h:67-74 | A u16 field is stored as two bytes, low byte first. |
| Wire.LE16RoundTrip | include/linux/mfd/photonicat-pmu.h:67-74 | Reading a u16 back from where it was stored gives the same value. |
| Wire.LE16BytesRoundTrip | include/linux/mfd/photonicat-pmu.h:67-74 | Any two bytes are the encoding of the u16 read from them. |
| Wire.SerializeHead | include/linux/mfd/photonicat-pmu.h:67-74 | The head is 9 packed bytes: magic, source, destination, then frame id, length and command, each two bytes. |
| Wire.HeadRoundTrip | include/linux/mfd/photonicat-pmu.h:67-74 | Parsing a serialised head gives the head back. |
| Wire.HeadBytesRoundTrip | include/linux/mfd/photonicat-pmu.h:67-74 | Any 9 bytes are the serialisation of the head parsed from them. |
| Wire.SerializeFoot | include/linux/mfd/photonicat-pmu.h:61-65 | The foot is 4 packed bytes: need_ack, the two-byte crc16, the end magic. |
| Wire.FootRoundTrip | include/linux/mfd/photonicat-pmu.h:61-65 | Parsing a serialised foot gives the foot back. |
| Wire.FootBytesRoundTrip | include/linux/mfd/photonicat-pmu.h:61-65 | Any 4 bytes are the serialisation of the foot parsed from them. |
| Wire.SerializeDateTime | include/linux/mfd/photonicat-pmu.h:15-22 | The date-time payload is 7 bytes. |
| Wire.DateTimeRoundTrip | include/linux/mfd/photonicat-pmu.h:15-22 | The date-time payload (two-byte year first, then month, day, hour, minute, second) parses back to itself. |
| Wire.SerializeLedSetup | include/linux/mfd/photonicat-pmu.h:24-28 | The LED setup payload is 6 bytes. |
| Wire.LedSetupRoundTrip | include/linux/mfd/photonicat-pmu.h:24-28 | The LED setup payload (on time, down time, repeat) parses back to itself. |
| Wire.SerializeWatchdog | include/linux/mfd/photonicat-pmu.h:55-59 | The watchdog payload is 3 bytes. |
| Wire.WatchdogRoundTrip | include/linux/mfd/photonicat-pmu.h:55-59 | The watchdog payload (startup, shutdown, running timeout) parses back to itself. |
| Wire.SerializeStatus | include/linux/mfd/photonicat-pmu.h:45-53 | The status report is 18 bytes. |
| Wire.StatusRoundTrip | include/linux/mfd/photonicat-pmu.h:45-53 | The status report parses back to itself: battery at 0, charger at 2, GPIOs at 4 and 6, the date-time at 8, reserved at 15, temperature at 17. |
| Wire.BootReasonNotInjective | include/linux/mfd/photonicat-pmu.h:84-90 | Two different boot reasons share one code, so the code does not identify the reason. |
| Wire.AckIsNextOpcode | include/linux/mfd/photonicat-pmu.h:99-128 | There are 14 request opcodes, the odd numbers 0x01 to 0x1B, and each one's acknowledgement is the next opcode. |
| Crc16.Crc | drivers/mfd/photonicat-pmu.c:89-91 | crc16(seed, data): the reflected 0x8005 polynomial applied byte by byte from the seed; it has no contract of its own, and its laws are the lemmas below. |
| Crc16.Chaining | drivers/mfd/photonicat-pmu.c:89-91 | Feeding a crc16 result back in as the initial value continues the checksum over the concatenation. |
| Crc16.Crc16Injective | drivers/mfd/photonicat-pmu.c:366-371 | Different registers stay different over any data. |
| Crc16.SingleByteChangeDetected | drivers/mfd/photonicat-pmu.c:366-371 | Changing any one byte of the data changes the checksum. |
| Crc16.AppendedChecksumLeavesZero | drivers/mfd/photonicat-pmu.c:89-91 | Running the CRC over data followed by its own little-endian checksum leaves a zero register. |
| Crc16.ModbusCheckValue | drivers/mfd/photonicat-pmu.c:89 | With initial value 0xFFFF, the CRC of "123456789" is the catalogued 0x4B37. |
| Codec.DecodeStatus | drivers/mfd/photonicat-pmu.c:320-371 | The classification returns 0, -EAGAIN or -EBADMSG, and -EAGAIN exactly when more bytes are awaited. |
| Codec.Serialize | drivers/mfd/photonicat-pmu.c:74-97 | A frame takes its payload length plus 13 bytes on the wire. |
| Codec.Covered | drivers/mfd/photonicat-pmu.c:89-91 | The checksum covers 9 bytes more than the payload. |
| Codec.Seal | drivers/mfd/photonicat-pmu.c:67-72 | The head has the start magic, the addresses, the id, the length (payload + 3, truncated to u16) and the command; the foot has need_ack and the end magic. |
| Codec.SealIsSealed | drivers/mfd/photonicat-pmu.c:86-91 | The three-chunk checksum is correct for the whole frame whenever the length fits its u16 field. |
| Codec.ChunkedChecksumIsWhole | drivers/mfd/photonicat-pmu.c:89-91 | Summing the head bytes 1 to 8, then the payload, then need_ack equals the receiver's single crc16 over the covered bytes. |
| Codec.Encode | drivers/mfd/photonicat-pmu.c:59-98 | A raw write emits payload length + 13 bytes. |
| Codec.EncodeLayout | drivers/mfd/photonicat-pmu.c:59-98 | The emitted bytes are `A5 01 81`, then the id, length+3 and command (little-endian), the payload, need_ack, the crc16 of bytes 1 to 9+len, and `5A`. |
| Codec.DecodeBy | drivers/mfd/photonicat-pmu.c:320-371 | A frame accepted as valid comes from the PMU to this host, has both magics and a length that matches its payload, and lies within the buffer. |
| Codec.ForThisHost | drivers/mfd/photonicat-pmu.c:333-344 | A frame is taken only from the PMU (0x81), addressed to this CPU (0x01), to all CPUs (0x80) or to everyone (0xFF). |
| Codec.Decode | drivers/mfd/photonicat-pmu.c:311-371 | The driver's classification is `DecodeBy` with crc16 (seed 0xFFFF) as the checksum, so every `...By` lemma holds for it. |
| Codec.HeadMagicCorrupt | drivers/mfd/photonicat-pmu.c:327-331 | Once a head has arrived, a first byte other than 0xA5 makes the buffer corrupt, whatever the checksum. |
| Codec.EndMagicCorrupt | drivers/mfd/photonicat-pmu.c:361-365 | A complete frame for this host with a valid length whose last byte is not 0x5A is corrupt, whatever the checksum. |
| Codec.Layout | include/linux/mfd/photonicat-pmu.h:61-74 | Where every head and foot field and the checksummed span lie in a frame's bytes. |
| Codec.NeedMoreExactly | drivers/mfd/photonicat-pmu.c:320-356 | The buffer is kept for more bytes exactly when it is shorter than a head, or starts a well-formed head for this host whose declared frame runs past the bytes at hand. |
| Codec.ForeignFrameIgnored | drivers/mfd/photonicat-pmu.c:333-344 | A head from anyone but the PMU, or for anyone but this host, is ignored before its length is checked, whatever follows. |
| Codec.BadLengthCorrupt | drivers/mfd/photonicat-pmu.c:345-350 | A length below 3, or of U16_MAX-4 or more, is corrupt however many bytes are at hand. |
| Codec.DecodeSerializedBy | drivers/mfd/photonicat-pmu.c:320-371 | For any checksum function, a sealed frame for this host decodes to itself, whatever follows it. |
| Codec.ValidIsSerializedBy | drivers/mfd/photonicat-pmu.c:357-371 | For any checksum function, a valid frame is sealed and is exactly the bytes it was read from. |
| Codec.PrefixNeedsMoreBy | drivers/mfd/photonicat-pmu.c:320-356 | For any checksum function, every proper prefix of a frame for this host needs more bytes. |
| Codec.DecisionStableBy | drivers/mfd/photonicat-pmu.c:320-371 | For any checksum function, once a buffer is classified as anything but "need more", appending bytes does not change the classification. |
| Codec.ChecksumMismatchCorruptBy | drivers/mfd/photonicat-pmu.c:366-371 | Changing covered bytes so that their sum changes, with head and foot unchanged, makes the frame corrupt. |
| Codec.PayloadChangeCorruptBy | drivers/mfd/photonicat-pmu.c:366-371 | A payload byte change that changes the sum makes the frame corrupt. |
| Codec.DecodeSerialized | drivers/mfd/photonicat-pmu.c:320-371 | With crc16, a sealed frame for this host decodes to itself, whatever follows it. |
| Codec.ValidIsSerialized | drivers/mfd/photonicat-pmu.c:357-371 | With crc16, a valid frame is sealed and is exactly the bytes it was read from. |
| Codec.DecodeSealed | drivers/mfd/photonicat-pmu.c:333-371 | A frame the PMU builds the way the host builds its own, addressed to 0x01, 0x80 or 0xFF, decodes back to the same id, command, payload and need_ack. |
| Codec.DecodeOwnFrameIgnored | drivers/mfd/photonicat-pmu.c:333-337 | The host's own emitted frames (source 0x01) are only ever ignored by its decoder. |
| Codec.PrefixNeedsMore | drivers/mfd/photonicat-pmu.c:351-356 | With crc16, a partly received frame for this host asks for more bytes. |
| Codec.DecisionStable | drivers/mfd/photonicat-pmu.c:320-371 | With crc16, a classification other than "need more" is final. |
| Codec.CoveredByteChecksumDiffers | drivers/mfd/photonicat-pmu.c:366 | Changing any one covered byte changes the crc16 the receiver computes. |
| Codec.PayloadChangeDetected | drivers/mfd/photonicat-pmu.c:366-371 | A frame with any one payload byte changed is rejected as corrupt. |
| Pmu.RawWriteResult | drivers/mfd/photonicat-pmu.c:74-97 | A raw write fails exactly when one of its three writes fails; otherwise it returns the foot write's value. |
| Pmu.Emitted | drivers/mfd/photonicat-pmu.c:74-97 | A successful raw write puts the whole frame on the line; a failed one puts a strict prefix (the chunks before the failure). |
| Pmu.Bytes | drivers/mfd/photonicat-pmu.c:59-98 | A raw write that succeeds puts exactly the encoded frame on the line. |
| Pmu.Rounds | drivers/mfd/photonicat-pmu.c:147-173 | `k` rounds make `k` transmissions. |
| Pmu.Execution | drivers/mfd/photonicat-pmu.c:124-183 | An exchange makes 1 to 4 transmissions, succeeds exactly when a reply is taken, and any reply taken has the request's id and expected command. |
| Pmu.ExecutionStep | drivers/mfd/photonicat-pmu.c:160-163 | A round that is written whole and gets no reply is followed by a retry. |
| Pmu.ExecutionSkips | drivers/mfd/photonicat-pmu.c:147-173 | After `k` unanswered rounds, the exchange is those `k` transmissions followed by the rest of the exchange. |
| Pmu.ExecutionAnswered | drivers/mfd/photonicat-pmu.c:172-177 | The first round whose reply matches ends the exchange with 0 and that reply, after exactly that many transmissions. |
| Pmu.ExecutionWriteError | drivers/mfd/photonicat-pmu.c:152-157 | A write error ends the exchange at once with that error, with no retry and no reply. |
| Pmu.ExecutionTimesOut | drivers/mfd/photonicat-pmu.c:160-170 | Four whole, unanswered transmissions (1 + 3 retries) end in -ETIMEDOUT. |
| Pmu.RoundsSendRequest | drivers/mfd/photonicat-pmu.c:149-150 | Every retry sends the same id, command and payload with need_ack set. |
| Pmu.RetriesRepeatFrame | drivers/mfd/photonicat-pmu.c:147-163 | Whole retries put the same frame bytes on the line each time. |
| Pmu.ChainResult | drivers/mfd/photonicat-pmu.c:376-377 | An empty chain gives NOTIFY_DONE; a first listener that sets the stop bit decides the result. |
| Pmu.ChainAllDone | drivers/mfd/photonicat-pmu.c:376-378 | When every listener answers NOTIFY_DONE, so does the chain. |
| Pmu.AckFrame | drivers/mfd/photonicat-pmu.c:378-380 | The acknowledgement has the same frame id and the next command, goes from host to PMU with an empty payload, length 3 and need_ack 0, and is correctly sealed. |
| Pmu.AckOf | drivers/mfd/photonicat-pmu.c:379-380 | The acknowledging raw write carries no payload and does not ask for an acknowledgement. |
| Pmu.AckBytes | drivers/mfd/photonicat-pmu.c:379-380 | Written whole, the acknowledging raw write puts exactly the sealed acknowledgement frame on the line. |
| Pmu.Request.constructor | drivers/mfd/photonicat-pmu.c:199-204 | A new request has the command and data, no frame id, no expected reply and an empty reply. |
| Pmu.Request.Want | drivers/mfd/photonicat-pmu.c:141-142 | The expected reply is `want`, or the command plus one (mod 2^16) when `want` is 0. |
| Pmu.Request.State | drivers/mfd/photonicat-pmu.c:27-43 | The request's id, expected reply, received flag and reply copy, taken together as one value. |
| Pmu.Offered | drivers/mfd/photonicat-pmu.c:254-309 | What offering a frame does to the pending request: the id stays; `want` becomes cmd + 1 when the id matches and it was 0; when the frame is taken, received is set and head and foot are copied, and the payload is replaced only by a non-empty one. |
| Pmu.StringOf | drivers/mfd/photonicat-pmu.c:229-233 | The string buffer has its `len` bytes: the reply's first bytes up to `len - 1`, then zeros, so it always ends in NUL. |
| Pmu.Pmu.constructor | drivers/mfd/photonicat-pmu.c:45-57 | A new PMU has counter 0, an empty buffer of 8192 bytes, no pending request and nothing sent. |
| Pmu.Pmu.NextFrameId | drivers/mfd/photonicat-pmu.c:112 | The counter is incremented and the new value, truncated to u16, is the id. |
| Pmu.Pmu.RawWrite | drivers/mfd/photonicat-pmu.c:59-98 | One raw write is logged with its frame and write results, and returns the first failing write's error or the foot write's value. |
| Pmu.Pmu.Send | drivers/mfd/photonicat-pmu.c:109-115 | Send takes a fresh id from the counter and makes one raw write without need_ack. |
| Pmu.Pmu.ProcessReply | drivers/mfd/photonicat-pmu.c:254-309 | A frame is consumed exactly when a request is pending with the same id, the expected command (defaulted once the id matches) and no reply yet. Then the slot is cleared; either way the request changes as `Offered` says. |
| Pmu.Pmu.Transmit | drivers/mfd/photonicat-pmu.c:147-160 | One round makes one raw write with need_ack; a matching arrival after a whole write fills the reply and frees the slot. |
| Pmu.Pmu.Execute | drivers/mfd/photonicat-pmu.c:124-183 | An id is taken from the counter only when the request has none, and `want` is defaulted. The return value, the raw writes made and the reply are exactly those of `Execution`, and the slot is free afterwards. |
| Pmu.Pmu.Exchange | drivers/mfd/photonicat-pmu.c:147-182 | The retry loop's return value, transmissions and reply are those of `Execution`; on every failure path the slot is cleared. |
| Pmu.Pmu.WriteData | drivers/mfd/photonicat-pmu.c:195-209 | Write data runs one exchange with a fresh id, the payload and expected reply cmd + 1, and returns its result. |
| Pmu.Pmu.ReadString | drivers/mfd/photonicat-pmu.c:221-237 | Read string runs one exchange with an empty payload; the buffer ends as `StringOf` the reply payload (all zeros without a reply). The receive buffer and its fill length are untouched. |
| Pmu.Pmu.WriteU8 | drivers/mfd/photonicat-pmu.c:248-251 | Write u8 is a write-data exchange with the one-byte payload. |
| Pmu.Pmu.ProcessData | drivers/mfd/photonicat-pmu.c:311-384 | Returns the classification. A buffer that is not a valid frame changes nothing and reaches no listener. A valid frame is offered to the pending request, which changes as `Offered` says. If the request takes it, the slot is cleared, nothing is sent and nothing reaches the chain. Otherwise the slot stays, the frame is the one handed to the chain, and exactly one acknowledgement is sent when the chain answers NOTIFY_DONE and need_ack is set, none otherwise. |
| Pmu.Pmu.Gather | drivers/mfd/photonicat-pmu.c:393-405 | Takes min(size, 8192 - length) bytes of the input and appends them after the bytes already gathered, which stay as they were. |
| Pmu.Pmu.ReceiveBuf | drivers/mfd/photonicat-pmu.c:386-412 | Keeps the fill length within 0..8192. Returns 0 for an empty input, otherwise min(size, 8192 - length). The new bytes land after the old ones, which are unchanged. The buffer is emptied exactly when the classification is not "need more", and a full buffer takes nothing more. The request, the slot, the acknowledgements sent and the frame handed to the chain are as `ProcessData` gives for the bytes gathered so far. |
| Pmu.OversizedFrameNeverCompletes | drivers/mfd/photonicat-pmu.c:345-356 | A head for this host declaring more than 8182 bytes stays "need more" in every buffer that fits, so the frame never completes. |
| Pmu.Pmu.Valid | drivers/mfd/photonicat-pmu.c:386-412 | Between calls the buffer is 8192 bytes, the fill length is at most 8192, and a non-empty buffer holds a frame still arriving. |
| Photonicat.PoweroffVerdict | drivers/power/reset/photonicat-poweroff.c:28-59 | The poweroff listener answers NOTIFY_DONE to every frame. |
| Photonicat.UnclaimedFramesAcknowledged | drivers/mfd/photonicat-pmu.c:376-381 | With the hwmon, poweroff, RTC and supply listeners, a frame that is not a reply is acknowledged exactly when it asks to be. |
| Photonicat.Board.Refreshed | drivers/mfd/photonicat-pmu.c:376-377 | After a status report the temperature, the cached time and both voltages are the ones the report carries. |
| Photonicat.Board.Notify | drivers/mfd/photonicat-pmu.c:376-377 | Running every listener's `Notify` gives the chain's verdict for `Listeners`. A status report refreshes all listeners; any other frame changes none. |
| Photonicat.Board.constructor | drivers/rtc/rtc-photonicat.c:113 | A board wires the drivers to the one parent PMU: the RTC talks through the board's PMU. |
| Photonicat.Board.ReceiveBuf | drivers/mfd/photonicat-pmu.c:386-412 | The bytes gathered so far decide the outcome. The buffer, its fill length, the slot and the pending request end exactly as `Pmu.Pmu.ReceiveBuf` leaves them. A frame reaches the listeners exactly when it is valid and does not answer the pending request. It is acknowledged exactly when it asks to be, and a status report refreshes every listener. When no frame reaches them, nothing is sent and no listener changes. |
| Rtc.CRem | drivers/rtc/rtc-photonicat.c:35-37 | C's remainder: in 0..6 for a non-negative sum, and never positive for a negative one. |
| Rtc.Weekday | drivers/rtc/rtc-photonicat.c:35-37 | The weekday of a day counted from 0 lies in 0..6. |
| Rtc.ToRtcTime | drivers/rtc/rtc-photonicat.c:20-40 | A time converts exactly when second < 60, minute < 60, hour < 24, day in 1..31, month in 1..12 and year in 1900..9999 (so 31 February passes). The fields are copied with month - 1 in 0..11 and year - 1900, and the weekday lies in 0..6. |
| Rtc.FromRtcTime | drivers/rtc/rtc-photonicat.c:42-51 | Year and month come back as tm_year + 1900 and tm_mon + 1 whenever they fit their fields. |
| Rtc.TimeRoundTrip | drivers/rtc/rtc-photonicat.c:20-51 | A valid PMU time survives the round trip through `struct rtc_time` in all six fields. |
| Rtc.RtcTimeRoundTrip | drivers/rtc/rtc-photonicat.c:20-51 | A kernel time within the PMU's ranges goes to the PMU and comes back with the same fields. |
| Rtc.NewYear2024 | drivers/rtc/rtc-photonicat.c:35-37 | The weekday formula gives Monday for 1 January 2024. |
| Rtc.WeekdayNextDay | drivers/rtc/rtc-photonicat.c:35-37 | Within a year, each day moves the weekday on by one. |
| Rtc.WeekdayNewYear | drivers/rtc/rtc-photonicat.c:35-37 | From one 1 January to the next, the weekday moves on by the Gregorian length of the year. |
| Rtc.Rtc.ReadTime | drivers/rtc/rtc-photonicat.c:53-62 | Returns 0 exactly when the cached time is valid, together with its conversion. Otherwise it returns -EINVAL with an all-zero `tm`. |
| Rtc.Rtc.SetTime | drivers/rtc/rtc-photonicat.c:64-80 | Sends the converted time with DATE_TIME_SYNC through one write-data exchange, and updates the cache only when that returns 0. |
| Rtc.Rtc.Notify | drivers/rtc/rtc-photonicat.c:87-101 | Only a status report replaces the cached time, taking it from payload offset 8; the result is always NOTIFY_DONE, the value `Rtc.Verdict` gives. |
| Rtc.Verdict | drivers/rtc/rtc-photonicat.c:94-100 | The RTC listener answers NOTIFY_DONE to every frame. |
| Rtc.NotifyReadsReportedTime | drivers/rtc/rtc-photonicat.c:97 | The time taken from a status report is the time the report carries. |
| Supply.TruncatedShare | drivers/power/supply/photonicat-supply.c:49 | Dividing before multiplying gives at most the exact share and loses less than one unit per percent. |
| Supply.CDiv | drivers/power/supply/photonicat-supply.c:49 | C's division truncates toward zero, also for a negative design energy. |
| Supply.Supply.Energy | drivers/power/supply/photonicat-supply.c:41-50 | 0 for a negative capacity. Otherwise the truncated share of the design energy, between 0 and the design energy and within one percent unit of the exact share; an unset design energy gives 0. |
| Supply.Supply.ChargerOnline | drivers/power/supply/photonicat-supply.c:25-28 | The charger is online when it gives more than 1000 mV. |
| Supply.Supply.BatteryPresent | drivers/power/supply/photonicat-supply.c:30-33 | The battery is present when it gives more than 1000 mV. |
| Supply.Supply.Capacity | drivers/power/supply/photonicat-supply.c:35-39 | The capacity is what `ocv2cap` gives for the battery voltage in microvolts. |
| Supply.Supply.BatteryStatus | drivers/power/supply/photonicat-supply.c:52-62 | FULL exactly when capacity >= 100; otherwise CHARGING exactly when the charger is online, else DISCHARGING. |
| Supply.Supply.BatteryProperty | drivers/power/supply/photonicat-supply.c:64-99 | Exactly the advertised battery properties are answered and every other gives -EINVAL. VOLTAGE_NOW is millivolts × 1000 and fits an int; PRESENT means above 1000 mV. |
| Supply.Supply.ChargerProperty | drivers/power/supply/photonicat-supply.c:101-118 | Only VOLTAGE_NOW and ONLINE are answered and every other gives -EINVAL. ONLINE means above 1000 mV; VOLTAGE_NOW is millivolts × 1000. |
| Supply.Supply.Notify | drivers/power/supply/photonicat-supply.c:136-152 | Only a status report sets both voltages, from its first two u16 fields; the result is always NOTIFY_DONE, the value `Supply.Verdict` gives. |
| Supply.Verdict | drivers/power/supply/photonicat-supply.c:143-151 | The supply listener answers NOTIFY_DONE to every frame. |
| Supply.NotifyReadsReportedVoltages | drivers/power/supply/photonicat-supply.c:146-147 | The voltages taken from a status report are the ones it carries. |
| Hwmon.IsVisible | drivers/hwmon/photonicat-hwmon.c:20-25 | Every attribute is mode 0444. |
| Hwmon.Hwmon.Read | drivers/hwmon/photonicat-hwmon.c:27-48 | Succeeds exactly for the temperature input, with the temperature × 1000; anything else gives -EOPNOTSUPP. |
| Hwmon.Hwmon.Notify | drivers/hwmon/photonicat-hwmon.c:65-79 | Only a status report sets the temperature: its last byte minus 40, within -40..215. The result is always NOTIFY_DONE, the value `Hwmon.Verdict` gives. |
| Hwmon.Verdict | drivers/hwmon/photonicat-hwmon.c:72-78 | The hwmon listener answers NOTIFY_DONE to every frame. |
| Hwmon.ReportedTemperature | drivers/hwmon/photonicat-hwmon.c:75 | After a status report, the reading is (report byte - 40) × 1000, within -40000..215000. |
| Hwmon.TwentyFiveDegrees | drivers/hwmon/photonicat-hwmon.c:75 | A byte of 65 reads as 25000 millidegrees. |
| Watchdog.AsInt | drivers/watchdog/photonicat-wdt.c:35 | An unsigned timeout passed as an `int` is unchanged below 2^31 and negative from there on. |
| Watchdog.Clamp | drivers/watchdog/photonicat-wdt.c:25 | The running timeout is the timeout itself within 0..255, 0 below and 255 above. |
| Watchdog.SetupPayload | drivers/watchdog/photonicat-wdt.c:21-25 | Startup and shutdown timeouts are 60; the running timeout is the timeout within 0..255, 0 below and 255 above. |
| Watchdog.SetupPayloadBytes | drivers/watchdog/photonicat-wdt.c:21-29 | The setup payload is 3 bytes: 60, 60, then the clamped timeout. |
| Watchdog.Setup | drivers/watchdog/photonicat-wdt.c:21-29 | Setup runs one write-data exchange with WATCHDOG_TIMEOUT_SET and that payload. |
| Watchdog.Start | drivers/watchdog/photonicat-wdt.c:31-36 | Start sends the device's timeout. |
| Watchdog.StartSendsTimeout | drivers/watchdog/photonicat-wdt.c:83-85 | A timeout within the limits 1..255 is sent unchanged. |
| Watchdog.Stop | drivers/watchdog/photonicat-wdt.c:38-43 | Stop sends the payload 60, 60, 0. |
| Watchdog.Ping | drivers/watchdog/photonicat-wdt.c:45-50 | Ping makes one HEARTBEAT raw write with no payload and no need_ack, with a fresh id and no wait. |
| Watchdog.SetTimeout | drivers/watchdog/photonicat-wdt.c:52-61 | An inactive watchdog returns 0 with nothing sent. An active one runs setup with the new value. The device's timeout is not written. |

## Left out

- The serial transport: opening the port, baud rate, flow control and the
  serdev callbacks. Each raw write takes the three write results as a
  `Writes` parameter.
- Pmu.Emitted: a non-negative result from `serdev_device_write_buf` is taken
  to mean the whole chunk went out. Partial writes are not modelled.
- Concurrency:
  - the `bus_lock` spinlock, the `reply_lock` mutex and the completions;
  - a second caller overwriting the reply slot;
  - acknowledgements and sends interleaving with an exchange.
  A single caller is assumed.
- `wait_for_completion_timeout` is modelled by the `Attempt` oracle: the frame
  that arrives during a wait goes straight to `ProcessReply`. A reply
  arriving outside a wait is not modelled.
- Pmu.Pmu.ProcessReply: `devm_kzalloc` for the reply copy is assumed to
  succeed. The `devm_kfree` in write_data and read_string (memory only) is
  left out.
- Pmu.Pmu.ReadString: requires a buffer of at least one byte. With
  `len == 0`, the source computes `len - 1` in `size_t` and overflows the
  buffer. It also requires a buffer other than the core's receive buffer,
  which is private to the core driver.
- The frame counter is kept modulo 65536. Only its u16 truncation reaches
  the wire.
- In `Pmu`, `blocking_notifier_call_chain` is an ordered list of verdict
  functions (`ChainResult`). `Photonicat.Board` runs the listeners' `Notify`
  methods on the frame the core hands over. Registering and unregistering
  listeners is not modelled. The chain follows the order of the PMU's
  cells, which probing need not keep. The order changes nothing here,
  because every listener answers NOTIFY_DONE and no two share state.
- Photonicat.Board.ReceiveBuf: the listeners run after the acknowledgement
  is logged, while the source runs them before it. They touch no state the
  acknowledgement does, so the outcome is the same.
- Rtc.Rtc.Notify, Supply.Supply.Notify and Hwmon.Hwmon.Notify: each requires
  that a status report's payload is long enough for the fields it reads. The
  source reads them without checking the frame's size. The `initial_report`
  completions they signal are left out.
- Photonicat.Board.Notify and Photonicat.Board.ReceiveBuf: for the same
  reason, each requires that a status report carries the whole 18-byte
  status payload.
- `rtc_year_days` and `power_supply_batinfo_ocv2cap` are parameters, because
  their code is not part of this model.
- Probe and remove of every driver: allocation, device-tree reads, the
  initial watchdog and version requests made at probe, and device
  registration.
- The watchdog core's own validation of timeouts against the limits, and its
  bookkeeping of `wdd.timeout`.
- The LED, poweroff, AC300 PHY and GPU power-domain drivers. The poweroff
  listener always answers NOTIFY_DONE, and it stands in the listener list
  only as that verdict. The LED driver only sends requests and registers no
  listener. The other two do not use the PMU.
- The shutdown-reason enum and the startup-time payload, which no modelled
  operation uses.
