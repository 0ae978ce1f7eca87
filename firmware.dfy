/** The firmware's state machine: boot dispatch on the EEPROM sentinel,
    provisioning, record persistence, the bounded WiFi connection, NTP sync
    into the RTC, and the per-iteration scheduler. Hardware is abstract:
    the radio is a mode, `WiFi.status()` an oracle, and every call with an
    outside effect (a delay, an LED or I2C write, an EEPROM commit, an RTC
    write, the sleep timer, an HTTP reply, a restart) an event in `trace`. */
module Firmware {
  import opened Bytes
  import opened ConfigRecord
  import opened Retry
  import opened Clock

  const EEPROM_SIZE := 512
  /** Byte 0 of the EEPROM; the record follows it. */
  const SENTINEL_AT := 0
  const RECORD_AT := 1
  const RECORD_END := RECORD_AT + RECORD_SIZE
  /** The erased value of the sentinel: the device has never been provisioned. */
  const UNPROVISIONED: uint8 := 255
  /** The value the provisioning handler writes to the sentinel. */
  const PROVISIONED: uint8 := 0

  const BLINK_MS := 100
  const RESTART_DELAY_MS := 3000
  /** The I2C address `displayTime` writes the clock fields to. */
  const DISPLAY_ADDRESS := 0x20

  datatype Radio = Off | Station | AccessPoint

  /** What `timeClient.update()` reports, and the time `getEpochTime()` then gives. */
  datatype NtpReply = NtpFailed | NtpTime(epoch: uint32)

  datatype Event =
    | WifiBegin(ssid: seq<uint8>, password: seq<uint8>)  // WiFi.begin(config.ssid, config.password)
    | Wait(ms: nat)                                      // delay(ms)
    | Led(high: bool)                                    // digitalWrite(LED_BUILTIN, ...)
    | EepromCommit(image: seq<uint8>)                    // EEPROM.commit(): the image now persisted
    | RtcWrite(seconds: uint32)                          // rtc.SetDateTime(RtcDateTime(seconds))
    | I2cWrite(address: int, data: seq<uint8>)           // one Wire transmission
    | WakeTimer(micros: int)                             // esp_sleep_enable_timer_wakeup(micros)
    | DeepSleep                                          // esp_deep_sleep_start()
    | Reply(status: int)                                 // request->send(status, ...)
    | Restart                                            // ESP.restart()

  /** The sentinel test of `firstBootCheck`. */
  predicate IsFirstBoot(image: seq<uint8>)
    requires |image| > SENTINEL_AT
    ensures IsFirstBoot(image) ==> image[SENTINEL_AT] != PROVISIONED
  {
    image[SENTINEL_AT] == UNPROVISIONED
  }

  /** The record an EEPROM image holds at offset 1. */
  function StoredConfig(image: seq<uint8>): Config
    requires |image| == EEPROM_SIZE
  {
    Decode(image[RECORD_AT..RECORD_END])
  }

  /** `n` calls of `delay(ms)`. */
  function Waits(n: nat, ms: nat): (w: seq<Event>)
    ensures |w| == n
    ensures forall i :: 0 <= i < n ==> w[i] == Wait(ms)
  {
    seq(n, _ => Wait(ms))
  }

  /** What `connectToWiFi` does, from status read `start` on. */
  function ConnectEvents(c: Config, link: seq<bool>, start: nat): seq<Event>
  {
    [WifiBegin(c.ssid, c.password)] + Waits(ConnectFailures(link, start), RETRY_DELAY_MS)
  }

  /** Whether the status read of `updateNTP` after its polling loop (the
      one that guards the NTP request) reports the link up. */
  predicate SyncLinked(link: seq<bool>, start: nat)
  {
    Up(link, start + SyncWaits(link, start) + 1)
  }

  /** Whether `updateNTP` reaches the RTC write. */
  predicate SyncSucceeds(link: seq<bool>, start: nat, ntp: NtpReply)
  {
    SyncLinked(link, start) && ntp.NtpTime?
  }

  /** The RTC value after `updateNTP`. */
  function SyncedRtc(link: seq<bool>, start: nat, ntp: NtpReply, rtc: uint32): (r: uint32)
    ensures r != rtc ==> SyncSucceeds(link, start, ntp) && r == EpochToRtc(ntp.epoch)
  {
    if SyncSucceeds(link, start, ntp) then EpochToRtc(ntp.epoch) else rtc
  }

  /** The radio after `updateNTP`: switched off on every path except the
      early return after a failed NTP request. */
  function SyncedRadio(link: seq<bool>, start: nat, ntp: NtpReply): (r: Radio)
    ensures r != AccessPoint
    ensures r == Station ==> Up(link, start + SyncWaits(link, start) + 1)
  {
    if SyncLinked(link, start) && ntp.NtpFailed? then Station else Off
  }

  /** What `updateNTP` does, from status read `start` on. */
  function SyncEvents(c: Config, link: seq<bool>, start: nat, ntp: NtpReply): (e: seq<Event>)
    ensures 1 <= |e| <= 2 + SYNC_MAX_ATTEMPTS
    ensures e[0] == WifiBegin(c.ssid, c.password)
  {
    [WifiBegin(c.ssid, c.password)] + Waits(SyncWaits(link, start), RETRY_DELAY_MS)
    + (if SyncSucceeds(link, start, ntp) then [RtcWrite(EpochToRtc(ntp.epoch))] else [])
  }

  /** Status reads made by `updateNTP`: its polling loop makes one more
      than it waits, and line 154 makes one more. */
  function SyncReads(link: seq<bool>, start: nat): nat
  {
    SyncWaits(link, start) + 2
  }

  /** The values written to the RTC by the events of `t`, in order. */
  function RtcWrites(t: seq<Event>): (w: seq<uint32>)
    ensures |w| <= |t|
  {
    if t == [] then []
    else (if t[0].RtcWrite? then [t[0].seconds] else []) + RtcWrites(t[1..])
  }

  lemma {:induction false} RtcWritesAppend(a: seq<Event>, b: seq<Event>)
    ensures RtcWrites(a + b) == RtcWrites(a) + RtcWrites(b)
    decreases |a|
  {
    if a == [] {
      assert a + b == b;
    } else {
      assert (a + b)[0] == a[0] && (a + b)[1..] == a[1..] + b;
      RtcWritesAppend(a[1..], b);
    }
  }

  lemma {:induction false} WaitsWriteNoRtc(n: nat, ms: nat)
    ensures RtcWrites(Waits(n, ms)) == []
    decreases n
  {
    if n > 0 {
      assert Waits(n, ms) == [Wait(ms)] + Waits(n - 1, ms);
      RtcWritesAppend([Wait(ms)], Waits(n - 1, ms));
      WaitsWriteNoRtc(n - 1, ms);
    }
  }

  /** `updateNTP` sets the RTC at most once: to the translated NTP time
      when the link came up and the request succeeded, and not at all
      otherwise. */
  lemma SyncWritesRtcOnce(c: Config, link: seq<bool>, start: nat, ntp: NtpReply)
    ensures RtcWrites(SyncEvents(c, link, start, ntp))
            == if SyncSucceeds(link, start, ntp) then [EpochToRtc(ntp.epoch)] else []
  {
    var joined := [WifiBegin(c.ssid, c.password)];
    var waits := Waits(SyncWaits(link, start), RETRY_DELAY_MS);
    var written := if SyncSucceeds(link, start, ntp) then [RtcWrite(EpochToRtc(ntp.epoch))] else [];
    RtcWritesAppend(joined + waits, written);
    RtcWritesAppend(joined, waits);
    WaitsWriteNoRtc(SyncWaits(link, start), RETRY_DELAY_MS);
    assert RtcWrites(joined) == [];
    if SyncSucceeds(link, start, ntp) {
      assert RtcWrites(written) == [EpochToRtc(ntp.epoch)];
    }
  }

  /** The transmission of `displayTime`: hour, minute, second, in that order. */
  function ClockBytes(rtc: uint32): seq<uint8>
  {
    [Hour(rtc), Minute(rtc), Second(rtc)]
  }

  /** The four steps of the "not connected" blink. */
  const BLINK: seq<Event> := [Led(true), Wait(BLINK_MS), Led(false), Wait(BLINK_MS)]

  class Device {
    /** What the EEPROM has committed: survives restarts and deep sleep. */
    var flash: seq<uint8>
    /** The RAM copy `EEPROM.begin(512)` makes; writes go here until a commit. */
    const eeprom: array<uint8>
    /** The global `config` struct. */
    var config: Config
    /** The battery-backed RTC, in seconds from its origin. */
    var rtc: uint32
    var radio: Radio
    /** Whether the provisioning web server has been started. */
    var serving: bool
    /** The link's answers to `WiFi.status()`, one per read, while in station mode. */
    const wifi: seq<bool>
    /** How many status reads have been made: the index of the next answer. */
    var checks: nat
    var trace: seq<Event>

    ghost predicate Valid()
      reads this
    {
      eeprom.Length == EEPROM_SIZE && |flash| == EEPROM_SIZE
    }

    /** A device with `stored` committed to its EEPROM and `clock` in its RTC,
      before anything has run. */
    constructor (stored: seq<uint8>, clock: uint32, link: seq<bool>)
      requires |stored| == EEPROM_SIZE
      ensures Valid() && fresh(eeprom)
      ensures flash == stored && rtc == clock && wifi == link
      ensures radio == Off && !serving && checks == 0 && trace == []
    {
      flash := stored;
      eeprom := new uint8[EEPROM_SIZE];
      config := ZERO_CONFIG;
      rtc := clock;
      radio := Off;
      serving := false;
      wifi := link;
      checks := 0;
      trace := [];
    }

    /** The state right after `setup()` ran from status read `start` with
        `before` already in the trace. */
    ghost predicate Booted(start: nat, before: seq<Event>)
      reads this, eeprom
      requires Valid()
    {
      && eeprom[..] == flash
      && (if IsFirstBoot(flash) then
            && config == ZERO_CONFIG && radio == AccessPoint && serving
            && checks == start && trace == before
          else
            && config == StoredConfig(flash) && radio == Station && !serving
            && checks == start + ConnectReads(wifi, start)
            && trace == before + ConnectEvents(config, wifi, start))
    }

    /** A boot: RAM starts from zero (the record, the radio), then `setup()`
        loads the EEPROM and picks provisioning when byte 0 is 255, and
        otherwise loads the record and connects. */
    method Setup()
      requires Valid()
      modifies this`config, this`radio, this`serving, this`checks, this`trace, eeprom
      ensures Valid()
      ensures serving <==> flash[SENTINEL_AT] == UNPROVISIONED
      ensures Booted(old(checks), old(trace))
    {
      config := ZERO_CONFIG;
      radio := Off;
      serving := false;
      Begin();
      if FirstBootCheck() {
        SetupAPMode();
      } else {
        LoadConfig();
        ConnectToWiFi();
      }
    }

    /** `EEPROM.begin(512)`: the RAM copy is filled from what was committed. */
    method Begin()
      requires Valid()
      modifies eeprom
      ensures eeprom[..] == flash
    {
      forall i | 0 <= i < EEPROM_SIZE {
        eeprom[i] := flash[i];
      }
    }

    /** `firstBootCheck()`. */
    predicate FirstBootCheck()
      reads this, eeprom
      requires Valid()
      ensures eeprom[..] == flash ==> (FirstBootCheck() <==> flash[SENTINEL_AT] == UNPROVISIONED)
    {
      IsFirstBoot(eeprom[..])
    }

    /** `setupAPMode()`, reduced to its effect on the state: the radio is an
        access point and the form handler can be reached. */
    method SetupAPMode()
      modifies this`radio, this`serving
      ensures radio == AccessPoint && serving
    {
      radio := AccessPoint;
      serving := true;
    }

    /** `loadConfig()`: the record is copied out of the EEPROM at offset 1. */
    method LoadConfig()
      requires Valid()
      modifies this`config
      ensures config == StoredConfig(eeprom[..])
    {
      config := Decode(eeprom[RECORD_AT..RECORD_END]);
    }

    /** `saveConfig()`: the record is copied into the EEPROM at offset 1 and
        committed; the sentinel and the bytes after the record are kept. */
    method SaveConfig()
      requires Valid()
      modifies this`flash, this`trace, eeprom
      ensures Valid()
      ensures eeprom[..] == RecordImage(old(eeprom[..]), config)
      ensures flash == eeprom[..]
      ensures trace == old(trace) + [EepromCommit(flash)]
    {
      var image := Encode(config);
      forall i | RECORD_AT <= i < RECORD_END {
        eeprom[i] := image[i - RECORD_AT];
      }
      assert eeprom[..] == old(eeprom[..])[..RECORD_AT] + image + old(eeprom[..])[RECORD_END..];
      assert eeprom[..] == RecordImage(old(eeprom[..]), config);
      Commit();
    }

    /** `EEPROM.commit()`: the RAM copy becomes what is persisted. */
    method Commit()
      requires Valid()
      modifies this`flash, this`trace
      ensures Valid()
      ensures flash == eeprom[..]
      ensures trace == old(trace) + [EepromCommit(flash)]
    {
      flash := eeprom[..];
      trace := trace + [EepromCommit(flash)];
    }

    /** `delay(ms)`. */
    method Delay(ms: nat)
      modifies this`trace
      ensures trace == old(trace) + [Wait(ms)]
    {
      trace := trace + [Wait(ms)];
    }

    /** `WiFi.status() == WL_CONNECTED`: the next answer of the link, which
        can only be "connected" while the radio is in station mode. */
    method Status() returns (connected: bool)
      modifies this`checks
      ensures checks == old(checks) + 1
      ensures connected <==> radio == Station && Up(wifi, old(checks))
    {
      connected := radio == Station && Up(wifi, checks);
      checks := checks + 1;
    }

    /** `WiFi.begin(config.ssid, config.password)`: station mode, joining
        the configured network. */
    method Join()
      modifies this`radio, this`trace
      ensures radio == Station
      ensures trace == old(trace) + [WifiBegin(config.ssid, config.password)]
    {
      radio := Station;
      trace := trace + [WifiBegin(config.ssid, config.password)];
    }

    /** `connectToWiFi()`: polls the link, waiting a second after each
        failed read, until a read reports it up or eleven reads failed; the
        caller is not told which. */
    method ConnectToWiFi()
      modifies this`radio, this`checks, this`trace
      ensures radio == Station
      ensures checks == old(checks) + ConnectReads(wifi, old(checks))
      ensures trace == old(trace) + ConnectEvents(config, wifi, old(checks))
    {
      Join();
      AwaitConnection();
    }

    /** The polling loop of `connectToWiFi`. */
    method AwaitConnection()
      requires radio == Station
      modifies this`checks, this`trace
      ensures checks == old(checks) + ConnectReads(wifi, old(checks))
      ensures trace == old(trace) + Waits(ConnectFailures(wifi, old(checks)), RETRY_DELAY_MS)
    {
      var attempt := 0;
      var start := checks;
      var connected := Status();
      while !connected
        invariant 0 <= attempt <= CONNECT_MAX_ATTEMPT
        invariant checks == start + attempt + 1
        invariant forall j :: start <= j < start + attempt ==> !Up(wifi, j)
        invariant connected == Up(wifi, start + attempt)
        invariant trace == old(trace) + Waits(attempt, RETRY_DELAY_MS)
        decreases CONNECT_MAX_ATTEMPT - attempt
      {
        Delay(RETRY_DELAY_MS);
        attempt := attempt + 1;
        assert Waits(attempt - 1, RETRY_DELAY_MS) + [Wait(RETRY_DELAY_MS)] == Waits(attempt, RETRY_DELAY_MS);
        if attempt > CONNECT_MAX_ATTEMPT {
          FailedRunIs(wifi, start, CONNECT_MAX_ATTEMPT + 1, attempt);
          return;
        }
        connected := Status();
      }
      FailedRunIs(wifi, start, CONNECT_MAX_ATTEMPT + 1, attempt);
    }

    /** `updateNTP()`: rejoins, polls the link at most five more seconds,
        and writes the translated NTP time to the RTC only when the link is
        up and the NTP request succeeded; the radio is then switched off,
        except after a failed NTP request, which returns early. */
    method UpdateNTP(ntp: NtpReply)
      modifies this`radio, this`checks, this`trace, this`rtc
      ensures checks == old(checks) + SyncReads(wifi, old(checks))
      ensures rtc == SyncedRtc(wifi, old(checks), ntp, old(rtc))
      ensures radio == SyncedRadio(wifi, old(checks), ntp)
      ensures trace == old(trace) + SyncEvents(config, wifi, old(checks), ntp)
    {
      Join();
      var start := checks;
      AwaitSync();
      var connected := Status();
      assert connected == SyncLinked(wifi, start);
      if connected {
        if ntp.NtpFailed? {
          return;
        }
        rtc := EpochToRtc(ntp.epoch);
        trace := trace + [RtcWrite(rtc)];
      }
      radio := Off;
    }

    /** The polling loop of `updateNTP`: at most five one-second waits. */
    method AwaitSync()
      requires radio == Station
      modifies this`checks, this`trace
      ensures checks == old(checks) + SyncWaits(wifi, old(checks)) + 1
      ensures trace == old(trace) + Waits(SyncWaits(wifi, old(checks)), RETRY_DELAY_MS)
    {
      var start := checks;
      var attempts := 0;
      var connected := Status();
      while !connected && attempts < SYNC_MAX_ATTEMPTS
        invariant 0 <= attempts <= SYNC_MAX_ATTEMPTS
        invariant checks == start + attempts + 1
        invariant forall j :: start <= j < start + attempts ==> !Up(wifi, j)
        invariant connected == Up(wifi, start + attempts)
        invariant trace == old(trace) + Waits(attempts, RETRY_DELAY_MS)
      {
        Delay(RETRY_DELAY_MS);
        attempts := attempts + 1;
        assert Waits(attempts - 1, RETRY_DELAY_MS) + [Wait(RETRY_DELAY_MS)] == Waits(attempts, RETRY_DELAY_MS);
        connected := Status();
      }
      FailedRunIs(wifi, start, SYNC_MAX_ATTEMPTS, attempts);
    }

    /** `displayTime()`: hour, minute and second of the RTC, sent in that
        order to the display. */
    method DisplayTime()
      modifies this`trace
      ensures trace == old(trace) + [I2cWrite(DISPLAY_ADDRESS, ClockBytes(rtc))]
    {
      trace := trace + [I2cWrite(DISPLAY_ADDRESS, [Hour(rtc), Minute(rtc), Second(rtc)])];
    }

    /** The connected branch of `loop()` up to the sleep decision:
        `updateNTP()`, then `displayTime()` shows the RTC it left. */
    method SyncAndDisplay(ntp: NtpReply)
      modifies this`radio, this`checks, this`trace, this`rtc
      ensures checks == old(checks) + SyncReads(wifi, old(checks))
      ensures rtc == SyncedRtc(wifi, old(checks), ntp, old(rtc))
      ensures radio == SyncedRadio(wifi, old(checks), ntp)
      ensures trace == old(trace) + SyncEvents(config, wifi, old(checks), ntp)
                       + [I2cWrite(DISPLAY_ADDRESS, ClockBytes(rtc))]
    {
      UpdateNTP(ntp);
      DisplayTime();
    }

    /** One iteration of `loop()`. Not connected: blink once and change
        nothing else. Connected: sync the RTC, show the time, then either
        arm the wake timer and deep-sleep (which reboots into `setup()`)
        or wait `syncInterval` ms. */
    method Loop(ntp: NtpReply)
      requires Valid()
      modifies this`config, this`radio, this`serving, this`checks, this`trace, this`rtc, eeprom
      ensures Valid()
      ensures !(old(radio) == Station && Up(wifi, old(checks))) ==>
        && trace == old(trace) + BLINK && checks == old(checks) + 1
        && radio == old(radio) && rtc == old(rtc) && config == old(config)
        && serving == old(serving) && eeprom[..] == old(eeprom[..])
      ensures old(radio) == Station && Up(wifi, old(checks)) ==>
        var start := old(checks) + 1;
        var synced := SyncedRtc(wifi, start, ntp, old(rtc));
        var cycle := old(trace) + SyncEvents(old(config), wifi, start, ntp)
                     + [I2cWrite(DISPLAY_ADDRESS, ClockBytes(synced))];
        && rtc == synced
        && (if old(config).isSleepMode then
              Booted(start + SyncReads(wifi, start),
                     cycle + [WakeTimer(WakeTimerMicros(old(config).syncInterval)), DeepSleep])
            else
              && trace == cycle + [Wait(DelayMs(old(config).syncInterval))]
              && checks == start + SyncReads(wifi, start)
              && radio == SyncedRadio(wifi, start, ntp)
              && config == old(config) && serving == old(serving)
              && eeprom[..] == old(eeprom[..]))
    {
      var connected := Status();
      if !connected {
        Blink();
      } else {
        SyncAndDisplay(ntp);
        if config.isSleepMode {
          assert checks == old(checks) + 1 + SyncReads(wifi, old(checks) + 1);
          assert trace == old(trace) + SyncEvents(old(config), wifi, old(checks) + 1, ntp)
            + [I2cWrite(DISPLAY_ADDRESS, ClockBytes(rtc))];
          SleepAndWake();
        } else {
          Delay(DelayMs(config.syncInterval));
        }
      }
    }

    /** The "not connected" branch of `loop()`: the LED on for 100 ms, then
        off for 100 ms. */
    method Blink()
      modifies this`trace
      ensures trace == old(trace) + BLINK
    {
      trace := trace + [Led(true)];
      Delay(BLINK_MS);
      trace := trace + [Led(false)];
      Delay(BLINK_MS);
    }

    /** `esp_sleep_enable_timer_wakeup` and `esp_deep_sleep_start()`: the
        device sleeps for `syncInterval` ms and wakes into `setup()`. */
    method SleepAndWake()
      requires Valid()
      modifies this`config, this`radio, this`serving, this`checks, this`trace, eeprom
      ensures Valid()
      ensures Booted(old(checks), old(trace) + [WakeTimer(WakeTimerMicros(old(config).syncInterval)), DeepSleep])
    {
      trace := trace + [WakeTimer(WakeTimerMicros(config.syncInterval)), DeepSleep];
      Setup();
    }

    /** Two iterations of `loop()` without sleep mode. When the first one
        is connected and its `updateNTP` does not take the early return,
        the radio is left off, and `loop()` never rejoins: the second
        iteration (and, by `Loop`'s first postcondition, every later one)
        only blinks, so the RTC is not synced again until a reset. */
    method LoopTwice(first: NtpReply, second: NtpReply)
      requires Valid()
      requires !config.isSleepMode && radio == Station && Up(wifi, checks)
      requires !(SyncLinked(wifi, checks + 1) && first.NtpFailed?)
      modifies this`config, this`radio, this`serving, this`checks, this`trace, this`rtc, eeprom
      ensures Valid() && radio == Off && config == old(config)
      ensures rtc == SyncedRtc(wifi, old(checks) + 1, first, old(rtc))
      ensures trace == old(trace) + SyncEvents(config, wifi, old(checks) + 1, first)
                       + [I2cWrite(DISPLAY_ADDRESS, ClockBytes(rtc))]
                       + [Wait(DelayMs(config.syncInterval))] + BLINK
    {
      Loop(first);
      Loop(second);
    }

    /** `handleSaveConfig`: without both credentials, answer 400 and change
        nothing; otherwise fill the record from the form, commit it at
        offset 1, then write 0 to the sentinel and commit again, answer
        200 and restart, which boots the stored record. */
    method HandleSaveConfig(form: Form)
      requires Valid()
      requires HasCredentials(form) ==> HasSettings(form)
      modifies this`config, this`flash, this`radio, this`serving, this`checks, this`trace, eeprom
      ensures Valid()
      ensures !HasCredentials(form) ==>
        && trace == old(trace) + [Reply(400)]
        && flash == old(flash) && eeprom[..] == old(eeprom[..]) && config == old(config)
        && radio == old(radio) && serving == old(serving) && checks == old(checks)
      ensures HasCredentials(form) ==>
        && config == FormConfig(form)
        && flash == ProvisionedImage(old(eeprom[..]), config) && !IsFirstBoot(flash)
        && eeprom[..] == flash && radio == Station && !serving
        && checks == old(checks) + ConnectReads(wifi, old(checks))
        && trace == old(trace) + ProvisioningEvents(old(eeprom[..]), config)
                    + ConnectEvents(config, wifi, old(checks))
    {
      if HasCredentials(form) {
        Provision(form);
      } else {
        trace := trace + [Reply(400)];
      }
    }

    /** The success path of `handleSaveConfig`. */
    method Provision(form: Form)
      requires Valid()
      requires HasCredentials(form) && HasSettings(form)
      modifies this`config, this`flash, this`radio, this`serving, this`checks, this`trace, eeprom
      ensures Valid()
      ensures config == FormConfig(form)
      ensures flash == ProvisionedImage(old(eeprom[..]), config) && !IsFirstBoot(flash)
      ensures eeprom[..] == flash && radio == Station && !serving
      ensures checks == old(checks) + ConnectReads(wifi, old(checks))
      ensures trace == old(trace) + ProvisioningEvents(old(eeprom[..]), config)
                       + ConnectEvents(config, wifi, old(checks))
    {
      ghost var before := eeprom[..];
      FillConfig(form);
      assert eeprom[..] == before;
      StoreAndRestart();
    }

    /** The end of a successful submission: store the record, answer and
        restart, which boots into the stored record and rejoins the network. */
    method StoreAndRestart()
      requires Valid()
      modifies this`config, this`flash, this`radio, this`serving, this`checks, this`trace, eeprom
      ensures Valid() && config == old(config)
      ensures flash == ProvisionedImage(old(eeprom[..]), config) && !IsFirstBoot(flash)
      ensures eeprom[..] == flash && radio == Station && !serving
      ensures checks == old(checks) + ConnectReads(wifi, old(checks))
      ensures trace == old(trace) + ProvisioningEvents(old(eeprom[..]), config)
                       + ConnectEvents(config, wifi, old(checks))
    {
      ghost var before := eeprom[..];
      StoreAndReply();
      ProvisionedImageBoots(before, config);
      Setup();
    }

    /** `saveConfig()`, `EEPROM.write(0, 0)` and a second commit, so that
        the next boot loads the record; then the 200 reply, three seconds'
        delay and `ESP.restart()`. */
    method StoreAndReply()
      requires Valid()
      modifies this`flash, this`trace, eeprom
      ensures Valid()
      ensures flash == ProvisionedImage(old(eeprom[..]), config) && eeprom[..] == flash
      ensures trace == old(trace) + ProvisioningEvents(old(eeprom[..]), config)
    {
      ghost var before, events := eeprom[..], trace;
      SaveConfig();
      Write(SENTINEL_AT, PROVISIONED);
      Commit();
      assert trace == events + [EepromCommit(RecordImage(before, config)), EepromCommit(ProvisionedImage(before, config))];
      trace := trace + [Reply(200)];
      Delay(RESTART_DELAY_MS);
      trace := trace + [Restart];
      ProvisioningTrace(events, before, config);
    }

    /** The field-by-field copy of `handleSaveConfig`: strings through
        `strncpy`, numbers through `toInt()`, the sleep flag from the
        checkbox's presence. */
    method FillConfig(form: Form)
      requires HasCredentials(form) && HasSettings(form)
      modifies this`config
      ensures config == FormConfig(form)
    {
      config := config.(ssid := CString.StrNCpy(form[Ssid].text, SSID_SIZE));
      config := config.(password := CString.StrNCpy(form[Password].text, PASSWORD_SIZE));
      config := config.(syncInterval := form[SyncInterval].asInt);
      config := config.(lampCount := form[LampCount].asInt);
      config := config.(rgb := config.rgb[0 := form[R].asInt]);
      config := config.(rgb := config.rgb[1 := form[G].asInt]);
      config := config.(rgb := config.rgb[2 := form[B].asInt]);
      config := config.(brightness := form[Brightness].asInt);
      config := config.(isSleepMode := IsSleepMode in form);
      config := config.(timezone := CString.StrNCpy(form[Timezone].text, TIMEZONE_SIZE));
    }

    /** `EEPROM.write(address, value)`: changes the RAM copy only. */
    method Write(address: nat, value: uint8)
      requires Valid() && address < EEPROM_SIZE
      modifies eeprom
      ensures eeprom[..] == old(eeprom[..])[address := value]
    {
      eeprom[address] := value;
    }
  }

  /** The EEPROM image after `saveConfig()`: the record at offset 1, the
      sentinel and the bytes after the record as they were. */
  function RecordImage(before: seq<uint8>, c: Config): (image: seq<uint8>)
    requires |before| == EEPROM_SIZE
    ensures |image| == EEPROM_SIZE
    ensures image[SENTINEL_AT] == before[SENTINEL_AT]
  {
    before[..RECORD_AT] + Encode(c) + before[RECORD_END..]
  }

  /** The EEPROM image after the sentinel is set as well. */
  function ProvisionedImage(before: seq<uint8>, c: Config): (image: seq<uint8>)
    requires |before| == EEPROM_SIZE
    ensures |image| == EEPROM_SIZE
    ensures !IsFirstBoot(image)
  {
    RecordImage(before, c)[SENTINEL_AT := PROVISIONED]
  }

  /** The events of a successful submission, up to the restart: the two
      commits, the 200 reply, the three-second delay. */
  function ProvisioningEvents(before: seq<uint8>, c: Config): seq<Event>
    requires |before| == EEPROM_SIZE
  {
    [EepromCommit(RecordImage(before, c)), EepromCommit(ProvisionedImage(before, c)),
     Reply(200), Wait(RESTART_DELAY_MS), Restart]
  }

  /** Provisioning commits the record before the sentinel: the first image
      keeps the old sentinel (so a power loss in between leaves a device
      that still boots into provisioning when it was unprovisioned), and
      the second boots into the stored record. */
  lemma ProvisionedImageBoots(before: seq<uint8>, c: Config)
    requires |before| == EEPROM_SIZE
    ensures RecordImage(before, c)[SENTINEL_AT] == before[SENTINEL_AT]
    ensures RecordImage(before, c)[RECORD_AT..RECORD_END] == Encode(c)
    ensures !IsFirstBoot(ProvisionedImage(before, c))
    ensures StoredConfig(ProvisionedImage(before, c)) == c
  {
    var marked := ProvisionedImage(before, c);
    assert marked[RECORD_AT..RECORD_END] == Encode(c);
    DecodeEncode(c);
  }

  /** The events of a submission as the handler appends them, one call at a time. */
  lemma ProvisioningTrace(t: seq<Event>, before: seq<uint8>, c: Config)
    requires |before| == EEPROM_SIZE
    ensures t + [EepromCommit(RecordImage(before, c)), EepromCommit(ProvisionedImage(before, c))]
      + [Reply(200)] + [Wait(RESTART_DELAY_MS)] + [Restart]
      == t + ProvisioningEvents(before, c)
  {
  }
}
