# ESP32 NTP clock firmware — a Dafny model

The firmware is a single Arduino sketch for an ESP32 with a battery-backed
PCF8563 real-time clock and an I2C display. It has two lives, chosen at boot
by byte 0 of the EEPROM:

- **Unprovisioned** (byte 0 is 255, the erased value). The device becomes a
  WiFi access point and serves a form. Submitting the form (`POST /save`)
  stores a 156-byte configuration record at EEPROM offset 1, sets byte 0 to
  0 and restarts.
- **Provisioned.** The device loads the record and joins the configured
  network, with at most eleven status reads one second apart. Each
  iteration of `loop()` then reads the link status once:
  - Link down: it blinks the LED once and does nothing else.
  - Link up: it re-joins and waits up to five seconds for the link. It
    fetches NTP time, translates it to the RTC's count and writes it.
    It switches the radio off and sends hour, minute and second to the
    display at I2C address 0x20. Then it either deep-sleeps for
    `syncInterval` ms, waking into a fresh boot, or waits that long.

  In sleep mode every wake-up is a new boot that rejoins, so the clock is
  synced once per interval. Without sleep mode, a sync that switched the
  radio off is the last one: `loop()` never re-joins, so every later
  iteration reads the link down and only blinks until the next reset.
  `Firmware.Device.LoopTwice` states this. The exception is a failed NTP
  request, which returns with the radio still joined.

The model is six modules:

| module | contents |
|---|---|
| `Bytes` | 8/32-bit machine integers, two's complement, the little-endian memory image of a 4-byte `int` |
| `CString` | `strlen` and `strncpy` over byte strings |
| `ConfigRecord` | the `config` struct, its 156-byte image (`EEPROM.put`/`EEPROM.get` copy it verbatim), the submitted form |
| `Retry` | the two bounded polling loops over `WiFi.status()`, as functions of the link's answers |
| `Clock` | the epoch translation written to the RTC, the clock fields read back, the conversions of `syncInterval` |
| `Firmware` | class `Device`: committed EEPROM (`flash`), its RAM copy (`eeprom`), `config`, the RTC, the radio mode, the web server flag, and the trace of outside effects; one method per firmware function |

The hardware is abstract:

- **Link.** `WiFi.status()` is answered by an oracle sequence `wifi`. The
  counter `checks` says how many answers have been consumed. An answer
  reports "connected" only while the radio is in station mode. Reads past
  the end of the sequence report the link down.
- **NTP.** `timeClient.update()` and `getEpochTime()` are a parameter of
  the loop: `NtpFailed`, or `NtpTime(epoch)`.
- **Effects.** Every call with an outside effect appends an `Event` to
  `trace`. These are: a delay, an LED write, an EEPROM commit (with the
  image committed), an RTC write, an I2C transmission, the wake timer,
  deep sleep, an HTTP status and a restart.
- **Reboots.** `ESP.restart()` and waking from deep sleep are a fresh call
  of `Setup`. `Setup` resets what lives in RAM (the record to zeros, the
  radio off) and keeps `flash` and the RTC.

Two facts about the code that the model follows as written:

- **RTC epoch offset.** `RtcDateTime` counts seconds from
  2000-01-01T00:00:00Z, 946684800 s after the Unix epoch.
  `src/main.cpp:169` subtracts 1577836800 instead, the Unix time of
  2020-01-01.
  - Both constants are midnights, 7305 days apart
    (`Clock.OffsetsAreWholeDays`). So the hour, minute and second on the
    display are those of the NTP time (`Clock.TimeOfDayPreserved`).
  - The calendar date the RTC holds is 7305 days before the true date.
  - The subtraction is done in 32-bit `unsigned long`. An NTP time below
    the offset wraps modulo 2^32 (`Clock.EpochToRtc`).
- **Wake-timer overflow.** `syncInterval * 1000` is an `int`
  multiplication, and nothing guards it against overflow. Signed overflow
  is undefined behaviour in C++. The model takes the two's-complement
  wrap the target produces in practice, then the conversion to `uint64_t`.
  `Clock.WakeTimerExact` proves that the timer gets exactly
  `syncInterval * 1000` µs if and only if `0 <= syncInterval <= 2147483`.

## Model

| member | source | states |
|---|---|---|
| `Bytes.IntAtIntBytes` | src/main.cpp:33-36 | an `int` field copied into memory as four little-endian bytes and read back is the same `int`, negative values included |
| `Bytes.WordAtLittleEndian` | src/main.cpp:33-36 | four little-endian bytes written from a 32-bit word read back as that word |
| `Bytes.WrapInt32` | src/main.cpp:200 | an integer reduced to a 32-bit `int` is congruent to it modulo 2^32, and equal to it when it is in range |
| `Bytes.Signed` | src/main.cpp:33-36 | reading a bit pattern as a signed `int` inverts the two's-complement encoding |
| `CString.Length` | src/main.cpp:97 | the C length of a value stops before its first NUL, which is there unless the value ends first |
| `CString.StrNCpy` | src/main.cpp:97 | `strncpy` into a buffer of `n` bytes writes exactly `n` bytes |
| `CString.StrNCpyPrefix` | src/main.cpp:97 | the buffer holds the first `min(n, strlen)` bytes of the value followed by zeros |
| `CString.StrNCpyShort` | src/main.cpp:97 | a NUL-free value shorter than the field is copied whole, zero padded, and terminated |
| `CString.StrNCpyLong` | src/main.cpp:97 | a NUL-free value at least as long as the field is cut to the field size and left unterminated |
| `ConfigRecord.Encode` | src/main.cpp:30-39 | the record image is 156 bytes, starts with the ssid buffer and holds the sleep flag as one byte at offset 120 |
| `ConfigRecord.Decode` | src/main.cpp:120 | loading copies the ssid buffer from the first 32 bytes and reads any non-zero byte at offset 120 as "sleep mode on" |
| `ConfigRecord.DecodeEncode` | src/main.cpp:120-126 | loading the record that was saved gives back every field of it |
| `ConfigRecord.FormConfigFields` | src/main.cpp:96-106 | a complete submission stores the first 32/64/32 bytes of ssid, password and timezone (zero padded when shorter), `syncInterval`, `lampCount`, the three RGB values and `brightness` as `toInt()` gives them, and sets the sleep flag exactly when the checkbox parameter was sent |
| `ConfigRecord.StrNCpyFits` | src/main.cpp:97-106 | each string field holds the value truncated or zero padded to the field's size |
| `Retry.FailedRun` | src/main.cpp:132-152 | the count of failed status reads before the first success is at most the cap, every counted read failed, and the next read succeeds unless the cap was reached |
| `Retry.FailedRunIs` | src/main.cpp:132-152 | those three facts determine the count: no other count satisfies them |
| `Retry.ConnectFailures` | src/main.cpp:132-138 | `connectToWiFi` waits one second after each failed read, at most eleven times, and stops waiting at the first read that reports the link up |
| `Retry.ConnectReads` | src/main.cpp:132-138 | `connectToWiFi` makes between one and eleven status reads, all failing except possibly the last, and ends early only on a success |
| `Retry.SyncWaits` | src/main.cpp:148-152 | the polling loop of `updateNTP` waits at most five times, once per failed read, and stops early only on a read that reports the link up |
| `Clock.EpochToRtc` | src/main.cpp:169 | the RTC receives the NTP time minus 1577836800, wrapped modulo 2^32 when the NTP time is smaller |
| `Clock.Second` | src/main.cpp:184 | the second sent to the display is below 60 |
| `Clock.Minute` | src/main.cpp:183 | the minute sent to the display is below 60 |
| `Clock.Hour` | src/main.cpp:182 | the hour sent to the display is below 24 |
| `Clock.OffsetsAreWholeDays` | src/main.cpp:169 | the offset in the code and the 2000-01-01 origin are both midnights, 7305 days apart |
| `Clock.TimeOfDayPreserved` | src/main.cpp:169-184 | for NTP times past the offset, the hour, minute and second read back from the RTC are those of the NTP time |
| `Clock.WakeTimerMicros` | src/main.cpp:200 | the value handed to the wake timer is a valid `uint64_t` |
| `Clock.WakeTimerExact` | src/main.cpp:200 | the wake timer equals `syncInterval * 1000` µs if and only if `0 <= syncInterval <= 2147483` |
| `Clock.DelayMs` | src/main.cpp:203 | `delay` waits `syncInterval` ms for a non-negative interval and `syncInterval + 2^32` ms for a negative one |
| `Firmware.SyncWritesRtcOnce` | src/main.cpp:154-171 | one `updateNTP` writes the RTC once, with the translated NTP time, when the link is up after polling and the NTP request succeeded, and never otherwise |
| `Firmware.ProvisionedImageBoots` | src/main.cpp:108-110 | the first commit keeps the old sentinel and holds the encoded record at offsets 1..156; the second image boots as provisioned and loads exactly that record |
| `Firmware.Device.constructor` | src/main.cpp:24-39 | a device before power-on: the committed EEPROM and the RTC as given, radio off, nothing read or done yet |
| `Firmware.Device.Setup` | src/main.cpp:41-58 | a boot serves the provisioning form exactly when committed byte 0 is 255; otherwise it loads the stored record, joins the configured network and makes the polling reads of `connectToWiFi` |
| `Firmware.Device.Begin` | src/main.cpp:46 | `EEPROM.begin` fills the RAM copy with the committed image |
| `Firmware.Device.SetupAPMode` | src/main.cpp:60-71 | the radio becomes an access point and the form handler is reachable |
| `Firmware.Device.LoadConfig` | src/main.cpp:120 | the record becomes what the EEPROM holds at offsets 1..156 |
| `Firmware.Device.SaveConfig` | src/main.cpp:122-126 | the record's image replaces offsets 1..156 of the RAM copy (byte 0 and the rest unchanged) and is committed |
| `Firmware.Device.Write` | src/main.cpp:109 | `EEPROM.write` changes one byte of the RAM copy and nothing else |
| `Firmware.Device.Commit` | src/main.cpp:110 | `EEPROM.commit` makes the RAM copy the persisted image |
| `Firmware.Device.Delay` | src/main.cpp:133 | a delay is one wait in the trace |
| `Firmware.Device.Status` | src/main.cpp:132 | a status read consumes one answer of the link and reports connected only in station mode |
| `Firmware.Device.Join` | src/main.cpp:145-146 | `WiFi.begin` puts the radio in station mode with the configured credentials |
| `Firmware.Device.ConnectToWiFi` | src/main.cpp:128-141 | joins, makes `ConnectReads` status reads and `ConnectFailures` one-second waits, and returns nothing either way |
| `Firmware.Device.AwaitConnection` | src/main.cpp:130-139 | the polling loop of `connectToWiFi` returns at the first success or after the eleventh failed read |
| `Firmware.Device.UpdateNTP` | src/main.cpp:143-175 | at most five waits; the RTC is set to the translated time only when the link is up and NTP succeeded, and is otherwise unchanged; the radio is off on every path except the early return after a failed NTP request |
| `Firmware.Device.AwaitSync` | src/main.cpp:148-152 | the polling loop of `updateNTP` makes one read more than it waits, and waits at most five times |
| `Firmware.Device.DisplayTime` | src/main.cpp:177-186 | one transmission to address 0x20 of the RTC's hour, minute and second, in that order |
| `Firmware.Device.Loop` | src/main.cpp:188-206 | not connected: one blink and nothing else changes; connected: sync, then display the synced time, then either arm the wake timer and reboot from deep sleep or wait `syncInterval` ms |
| `ConfigRecord.FormConfig` | src/main.cpp:97-106 | the record a complete submission produces; the sleep flag is the presence of the checkbox parameter, not its value |
| `Firmware.IsFirstBoot` | src/main.cpp:58 | an image counts as a first boot when byte 0 is 255, so an image marked provisioned (byte 0 is 0) never does |
| `Firmware.Device.FirstBootCheck` | src/main.cpp:58 | read from the RAM copy right after `EEPROM.begin`, the check is true exactly when committed byte 0 is 255 |
| `Firmware.RecordImage` | src/main.cpp:108 | the EEPROM after `saveConfig()`: 512 bytes, and byte 0 keeps its old value |
| `Firmware.ProvisionedImage` | src/main.cpp:108-110 | the EEPROM after the sentinel write: 512 bytes, and it never boots into provisioning |
| `Firmware.SyncedRtc` | src/main.cpp:154-171 | the RTC after `updateNTP` differs from before only when the link was up and NTP succeeded, and then holds the translated NTP time |
| `Firmware.SyncedRadio` | src/main.cpp:154-174 | the radio after `updateNTP` is never an access point, and is left in station mode only when the link was up at line 154 |
| `Firmware.SyncEvents` | src/main.cpp:145-170 | `updateNTP` starts with `WiFi.begin` using the stored credentials and has at most seven effects: the join, up to five waits and one RTC write |
| `Firmware.Device.SyncAndDisplay` | src/main.cpp:196-197 | the display shows the RTC value that `updateNTP` left |
| `Firmware.Device.Blink` | src/main.cpp:190-194 | the LED on, 100 ms, the LED off, 100 ms |
| `Firmware.Device.SleepAndWake` | src/main.cpp:199-201 | the wake timer is armed from `syncInterval`, then deep sleep, then a fresh boot from the committed EEPROM |
| `Firmware.Device.LoopTwice` | src/main.cpp:173-206 | without sleep mode, after a connected iteration whose sync switched the radio off, the next iteration only blinks and the RTC keeps the synced value |
| `Firmware.Device.HandleSaveConfig` | src/main.cpp:94-118 | without both credentials: a 400 reply and nothing else changes; with them: the record is committed before the sentinel is set to 0 and committed, then a 200 reply, a three-second wait and a restart that boots into the stored record |
| `Firmware.Device.Provision` | src/main.cpp:96-114 | the success path: the record built from the form ends up persisted behind a provisioned sentinel, and the device reboots into it |
| `Firmware.Device.FillConfig` | src/main.cpp:97-106 | the record becomes the one the form describes |
| `Firmware.Device.StoreAndRestart` | src/main.cpp:108-114 | store, answer and restart: the next boot is not a first boot and rejoins the network |
| `Firmware.Device.StoreAndReply` | src/main.cpp:108-113 | two commits (record, then sentinel), leaving the RAM copy equal to the persisted image, then the 200 reply and the three-second wait |

## Left out

- Serial logging, `Wire.begin`, `Serial.begin`, `timeClient.begin()` and
  `rtc.Begin()` have no effect on the modelled state.
- `handleConfigPage` and the HTML it sends are not modelled. Neither are
  `WiFi.softAP` and the server's route registration: `SetupAPMode` keeps
  only the radio mode and the fact that the handler can be reached.
- The asynchronous web server's concurrency is not modelled: a request is
  handled as one atomic step.
- `toInt()` parsing is not modelled. Each form parameter carries its text
  and the integer `toInt()` yields for it.
- The NTPClient library internals are not modelled, including the
  3600-second offset its constructor is given. The model takes the value
  `getEpochTime()` returns.
- RtcDateTime's calendar conversion is not modelled: only the clock fields
  are. The RTC's ticking between calls is not modelled either.
- Time does not pass: a delay is a `Wait` event.
- Wire's transmission details beyond address and payload are not modelled.
- Firmware.Device.HandleSaveConfig: a request that has both credentials
  but lacks one of `syncInterval`, `lampCount`, `R`, `G`, `B`,
  `brightness` or `timezone` dereferences a null parameter in the source.
  That case is excluded by a precondition instead of being modelled.
- `WiFi.begin` reads `config.ssid` as a C string. An ssid of exactly 32
  bytes has no terminator, and the read runs into the password. The model
  passes the 32-byte buffer as is.
- ConfigRecord.Decode: a stored sleep-flag byte other than 0 or 1 is
  undefined behaviour in C++. The model reads any non-zero byte as `true`.
- The three padding bytes at the end of the record are written as zero.
  The record is only saved in provisioning mode, starting from the
  zero-initialised global, so they are zero there.
- The WiFi link after the end of the oracle sequence is taken to be down.
- `EEPROM.commit` always persists the RAM copy. Its dirty-flag shortcut
  makes no observable difference.
