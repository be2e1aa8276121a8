# ESP32 VFD clock: a Dafny model of its core

The firmware drives a four-digit vacuum fluorescent display from an ESP32 and
sets its clock over SNTP. This project models the parts of `src/main.cpp`
that decide what goes on the wire and on the pins:

- **board.dfy** (`Board`): the wiring. It holds the grid, segment and colon
  pin tables, the active-low `digitPatterns` table, and the split of an hour
  and a minute into the four displayed digits.
- **sntp.dfy** (`Sntp`): the NTP exchange. It covers:
  - the 48-byte request built by `sendNtpPacket`;
  - the size gate and the polling loop of `getNtpTime`;
  - the big-endian read of the Transmit Timestamp seconds (bytes 40..43);
  - the conversion from the 1900 epoch to local Unix time in 32-bit unsigned
    arithmetic.

  The class `NtpClient` holds the global `packetBuffer` as an `array<bv8>`.
  It also logs the datagrams sent.
- **pinstate.dfy** (`PinState`): one `digitalWrite` as a `PinWrite`, and the
  replay of a write log over a vector of pin levels.
- **multiplexer.dfy** (`Multiplexer`): the pin writes made by `setup`,
  `displayDigit`, `blinkColon` and one pass of `loop`, each given as a write
  sequence. The lemmas follow the levels through every prefix of those
  sequences.

  The class `Panel` is the hardware. It holds the pin levels as an
  `array<Level>` and the log of every write made. Its invariant says the
  array always equals the power-on levels with the log replayed over them.

A level is a `bool` with `HIGH == true`. The entries of `digitPatterns` are
passed to `digitalWrite` unchanged, so entry 0 means LOW, which lights the
segment. The board is taken to have 16 pins; every pin the sketch drives is
below 16.

Two things the sketch reads become inputs:

- **`polls`**, the datagrams that `parsePacket` finds in order before the
  one-second deadline. An empty sequence means nothing arrived.
- **`millis`**, the value of the millisecond counter.

The sketch sends `0b11100011` as the first request octet. That is leap
indicator 3 ("clock not synchronised"), version 4 and mode 3 (client).
RFC 4330 clients commonly send leap indicator 0; this sketch sends 3, and the
model follows it (`Sntp.RequestHeaderFields`).

## Model

| member | source | states |
|---|---|---|
| Board.PinTablesDisjoint | src/main.cpp:25-36 | The tables have 4, 7 and 2 entries, all below 16. No table repeats a pin. No pin is in two tables, and pin 9 (the colon grid) is in none. |
| Board.Pattern | src/main.cpp:39-50 | The table row `digitPatterns[d]` read by the segment loop at src/main.cpp:179: seven levels for every digit 0..9. |
| Board.PatternIsActiveLowGlyph | src/main.cpp:38-50 | Segment line i of digit d is LOW exactly when stroke i belongs to the conventional seven-segment glyph of d. |
| Board.EightAndZeroPatterns | src/main.cpp:40-48 | Digit 8 drives all seven segments LOW. Digit 0 leaves only index 6 (the middle bar) HIGH. |
| Board.DigitAt | src/main.cpp:108-119 | For hour 0..23 and minute 0..59, each digit is in 0..9, so the table index is in bounds. The tens of the hour are at most 2 and the tens of the minute at most 5. |
| Board.DigitsRecompose | src/main.cpp:111-118 | 10·d0 + d1 is the hour and 10·d2 + d3 is the minute. |
| Board.DigitsDetermineTime | src/main.cpp:111-118 | Two times that show the same four digits are equal, so the display is unambiguous. |
| Board.NineOhFive | src/main.cpp:111-118 | 09:05 is shown as 0, 9, 0, 5. |
| Sntp.RequestPacket | src/main.cpp:154-160 | The request is 48 bytes: 0xE3, 0, 6, 0xEC, then 44 zero bytes. |
| Sntp.RequestHeaderFields | src/main.cpp:157-160 | Decoded per RFC 4330 section 4: LI 3, version 4, mode 3 (client), stratum 0, poll 2^6 s, precision 2^-20 s. |
| Sntp.ShiftOr32 | src/main.cpp:139-142 | The sketch's assembly of four bytes with 32-bit shifts and ORs. Byte lanes 3, 2, 1 and 0 of the result hold the four bytes in order. |
| Sntp.ShiftOrIsBigEndian | src/main.cpp:139-142 | The four 32-bit shifts and ORs equal the unsigned big-endian value of the four bytes. |
| Sntp.SecsSince1900 | src/main.cpp:139-142 | The seconds read from a 48-byte buffer are the big-endian value of bytes 40..43. |
| Sntp.EncodeBE32RoundTrip | src/main.cpp:139-142 | Any 32-bit value written most significant byte first reads back as itself, for the shift/OR assembly and the big-endian reading alike. |
| Sntp.DecodeWrittenSeconds | src/main.cpp:138-142 | Whatever else a 48-byte reply holds, its seconds decode to the value the server put at offsets 40..43. |
| Sntp.LocalTime | src/main.cpp:143 | The result is congruent modulo 2^32 to seconds − 2208988800 + tz·3600. It equals that value when the value lies in 0..2^32−1. |
| Sntp.LocalTimeInverse | src/main.cpp:143 | At any offset the conversion is a bijection on 32-bit seconds fields. FieldFor is its inverse both ways. |
| Sntp.EpochExamples | src/main.cpp:143 | Field 2208988800 at offset 0 gives 0. Field 2208988800 + 3600 at offset 8 gives 32400. |
| Sntp.SentinelField | src/main.cpp:143-148 | At offset 8, a field decodes to 0 exactly when it is 2208988800 − 8·3600. |
| Sntp.FirstReply | src/main.cpp:133-138 | None exactly when every datagram is shorter than 48 bytes. Otherwise it gives the index of the first datagram of at least 48 bytes, and every datagram before it is shorter. |
| Sntp.NtpTime | src/main.cpp:133-148 | The value `getNtpTime` returns for the given polls: 0 when FirstReply is None, else the local time of the first 48 bytes of the accepted datagram. `GetNtpTime` is proved equal to it. |
| Sntp.FirstReplyAt | src/main.cpp:133-138 | The accepted datagram is determined by sizes alone: any index that is long enough, with only short ones before it, is the one taken. |
| Sntp.TimeoutGivesZero | src/main.cpp:147-148 | With no datagram of 48 bytes or more, the result is 0. |
| Sntp.ShortDatagramIgnored | src/main.cpp:135-138 | Inserting a datagram shorter than 48 bytes anywhere among the polls leaves the result unchanged: short datagrams are never read. |
| Sntp.OnlyTransmitSecondsRead | src/main.cpp:138-143 | Replacing the accepted reply by any other of at least 48 bytes with the same bytes 40..43 leaves the result unchanged. No other header field is checked. |
| Sntp.SentinelAmbiguous | src/main.cpp:143-148 | Every accepted datagram whose bytes 40..43 hold 2208960000 yields 0, the same value as a timeout. |
| Sntp.SentinelExample | src/main.cpp:136-148 | Such a datagram exists: a 48-byte datagram (the request with 2208960000 at offsets 40..43) is accepted and yields 0. |
| Sntp.NtpClient.constructor | src/main.cpp:17 | The buffer is 48 zero bytes and nothing has been sent. |
| Sntp.NtpClient.SendNtpPacket | src/main.cpp:151-166 | Afterwards the buffer holds exactly the request, and the request is appended to the datagrams sent. |
| Sntp.NtpClient.GetNtpTime | src/main.cpp:126-149 | Sends one request, then returns the first qualifying reply's time or 0 on timeout. On success the buffer holds that reply's first 48 bytes; on timeout it still holds the request. |
| PinState.Apply | src/main.cpp:173 | The effect of a run of `digitalWrite` calls: the levels keep their count, the last write takes effect, and (ApplyUnchanged, ApplyAppend, ApplyDistinct) unnamed pins keep their level and writes to distinct pins all take effect. |
| Multiplexer.SetupWrites | src/main.cpp:55-75 | The writes of `setup`, in order: the grids, segments and colon lines HIGH, then the colon grid LOW. All pins are on the board. |
| Multiplexer.GridsOff | src/main.cpp:171-174 | The first loop of `displayDigit`: the four grids HIGH, in table order. |
| Multiplexer.SegmentWrites | src/main.cpp:177-180 | The second loop: seven writes, segment line i to entry i of the digit's pattern. |
| Multiplexer.DisplayWrites | src/main.cpp:171-188 | All writes of `displayDigit`: grids off, segments, then the grid LOW and HIGH again, 13 writes in all. |
| Multiplexer.ColonLevel | src/main.cpp:197 | The colon level for a counter value: LOW in the first 500 ms of every second (ColonBoundaries, ColonSquareWave). |
| Multiplexer.ColonWrites | src/main.cpp:199-205 | The two writes of `blinkColon`: both colon lines to ColonLevel(millis). |
| Multiplexer.DigitPassWrites | src/main.cpp:108-120 | The writes of the first n iterations of the digit loop, each a `displayDigit(i, DigitAt(i, …))`; 13 writes per digit. |
| Multiplexer.FrameWrites | src/main.cpp:107-123 | One pass of `loop` once the time is set: the four digits, then `blinkColon`. |
| Multiplexer.GridsOffEffect | src/main.cpp:171-174 | After the first loop every grid is HIGH, and no other pin has changed. |
| Multiplexer.SegmentsEffect | src/main.cpp:177-180 | After the second loop segment line i is at `digitPatterns[digit][i]`, and no other pin has changed. |
| Multiplexer.PulseEffect | src/main.cpp:183-188 | Selecting the grid and deselecting it leaves it HIGH and every other pin unchanged. |
| Multiplexer.DisplayWritesKeepOthersOff | src/main.cpp:171-188 | No write of `displayDigit(grid, …)` drives a grid other than `gridPins[grid]` LOW. |
| Multiplexer.DisplayDigitExclusive | src/main.cpp:171-188 | Starting with every grid off, no grid other than `gridPins[grid]` is LOW after any prefix of the writes, so at most one grid is LOW throughout. |
| Multiplexer.DisplayDigitEffect | src/main.cpp:171-188 | After `displayDigit` all grids are HIGH, the segments show the digit's pattern, and every other pin (colon lines and colon grid included) is unchanged. |
| Multiplexer.BlinkColonEffect | src/main.cpp:197-206 | Both colon lines are at ColonLevel(millis), so they are equal, and nothing else changes. |
| Multiplexer.ColonBoundaries | src/main.cpp:197 | At 0 and 499 ms into a second the colon is LOW; at 500 and 999 it is HIGH. |
| Multiplexer.ColonSquareWave | src/main.cpp:197-206 | The colon level repeats every 1000 ms and flips every 500 ms. |
| Multiplexer.DigitPassExclusive | src/main.cpp:108-120 | The first n digit pulses of a pass, starting with every grid off, keep at most one grid LOW at every instant and end with every grid off. |
| Multiplexer.UnchangedOffDisplay | src/main.cpp:108-120 | The digit pulses touch only grid and segment lines. |
| Multiplexer.FrameExclusive | src/main.cpp:107-123 | Over a whole pass of `loop` (four digits, then the colon), at most one grid is LOW at every instant. |
| Multiplexer.FrameEffect | src/main.cpp:107-123 | After a pass: every grid HIGH, the segments show the minute's ones digit, both colon lines at ColonLevel(millis), and every other pin unchanged. |
| Multiplexer.SetupEffect | src/main.cpp:55-75 | From any power-on levels, `setup` leaves grids, segments and colon lines HIGH and the colon grid LOW, with every other pin unchanged. So the first pass starts with every grid off. |
| Multiplexer.Panel.Setup | src/main.cpp:52-75 | Logs exactly the setup writes. The levels are the power-on levels replayed with them, every grid is HIGH and the colon grid is LOW. |
| Multiplexer.Panel.DriveAllHigh | src/main.cpp:55-73 | Logs one HIGH write per table entry, in table order. |
| Multiplexer.Panel.DigitalWrite | src/main.cpp:173 | Appends the write to the log; the levels stay the replay of the log. |
| Multiplexer.Panel.DriveSegments | src/main.cpp:177-180 | Logs the segment writes of the digit's pattern, in segment order. |
| Multiplexer.Panel.DisplayDigit | src/main.cpp:168-189 | Logs exactly the `displayDigit` writes and updates the levels to match. Every grid ends HIGH and the segments hold the pattern; everything else is unchanged. If no grid was selected before, none but `grid` is selected at any instant. |
| Multiplexer.Panel.BlinkColon | src/main.cpp:191-207 | Logs the two colon writes. Both colon lines end LOW exactly when millis % 1000 < 500, and every other pin is unchanged. |
| Multiplexer.Panel.ShowTime | src/main.cpp:107-123 | Logs one pass in order (four digits, then the colon), and the levels follow it. The panel stays idle (every grid off), with at most one grid LOW at every instant. |

## Left out

- Wi-Fi connection, `Serial` output, and the `blinkColon` calls made while waiting for Wi-Fi (src/main.cpp:76-92): I/O with no effect on the modelled state beyond the colon writes.
- UDP transport (`udp.begin`, `beginPacket`, `write`, `endPacket`, `parsePacket`, `read`): foreign network calls. Only the bytes they carry appear, as `NtpClient.sent` and the `polls` input.
- The one-second busy-wait on `millis()` and `delayMicroseconds(1000)`: real time. The datagrams found before the deadline and the counter value are inputs, and the hold interval is not modelled.
- TimeLib (`timeStatus`, `setTime`, `now`, `hour`, `minute`): the library is not part of this model. Hour and minute are bounded inputs, so when `getNtpTime` is re-run and what `setTime(0)` does are not modelled.
- `pinMode`: hardware configuration. Only the `digitalWrite` calls of `setup` are modelled.
- Sntp.LocalTime: the whole expression is computed in 32-bit unsigned arithmetic, as on targets where `time_t` is 32 bits. The conversion of the result to a signed `time_t`, and the case of a 64-bit `time_t` (where the offset addition would not wrap), are not modelled.
- Multiplexer.ColonLevel: `millis` is an unbounded natural; the wrap of the 32-bit counter after about 49.7 days is not modelled.
- Board.PIN_COUNT: the GPIO bank is abstracted to 16 pins, enough for every pin the sketch drives.
- Multiplexer.Panel.ShowTime: the per-pin levels after a pass are not restated in its contract. They follow from its state equation and Multiplexer.FrameEffect.
- Multiplexer.FrameWrites: the clock is taken as read once per pass, while `loop` calls `hour()` and `minute()` once per digit (src/main.cpp:112-118), so a pass that straddles a minute or hour rollover can mix digits of two times. Nothing proved depends on this: Board.DigitAt is bounded for every valid time, the exclusivity and effect lemmas hold for every digit 0..9, and a mixed pass still shows the digits of some valid time.
