/** Time arithmetic of `updateNTP`, `displayTime` and `loop`: the epoch
    translation written to the RTC, the clock fields read back from it, and
    the conversions of the sync interval for the sleep timer and `delay`. */
module Clock {
  import opened Bytes

  /** The literal subtracted from NTP time before it is written to the RTC:
      the Unix time of 2020-01-01T00:00:00Z. */
  const NTP_TO_RTC_OFFSET: int := 1577836800
  /** The Unix time of 2000-01-01T00:00:00Z, the origin RtcDateTime counts from. */
  const RTC_EPOCH_UNIX: int := 946684800

  const SECONDS_PER_DAY: int := 86400

  /** `getEpochTime() - 1577836800`: an `unsigned long` (32 bits on this
      target) minus an `int` literal, so the difference wraps modulo 2^32. */
  function EpochToRtc(epoch: uint32): (seconds: uint32)
    ensures epoch as int >= NTP_TO_RTC_OFFSET ==> seconds as int == epoch as int - NTP_TO_RTC_OFFSET
    ensures epoch as int < NTP_TO_RTC_OFFSET ==> seconds as int == epoch as int - NTP_TO_RTC_OFFSET + TWO_32
  {
    ((epoch as int - NTP_TO_RTC_OFFSET) % TWO_32) as uint32
  }

  /** The clock fields of `RtcDateTime(seconds)`: it splits off seconds,
      minutes and hours before turning whole days into a calendar date. */
  function Second(t: uint32): (s: uint8) ensures s < 60 { (t as int % 60) as uint8 }
  function Minute(t: uint32): (m: uint8) ensures m < 60 { (t as int / 60 % 60) as uint8 }
  function Hour(t: uint32): (h: uint8) ensures h < 24 { (t as int / 3600 % 24) as uint8 }

  /** Both origins fall on a midnight: the offset written in the source and
      the one RtcDateTime counts from differ by 7305 whole days. */
  lemma OffsetsAreWholeDays()
    ensures NTP_TO_RTC_OFFSET % SECONDS_PER_DAY == 0 && RTC_EPOCH_UNIX % SECONDS_PER_DAY == 0
    ensures NTP_TO_RTC_OFFSET == 18262 * SECONDS_PER_DAY
    ensures NTP_TO_RTC_OFFSET - RTC_EPOCH_UNIX == 7305 * SECONDS_PER_DAY
  {
  }

  /** Because the offset is a whole number of days, the hour, minute and
      second read back from the RTC are those of the NTP time itself, for
      every NTP time after the offset (no wrap-around). */
  lemma TimeOfDayPreserved(epoch: uint32)
    requires epoch as int >= NTP_TO_RTC_OFFSET
    ensures Hour(EpochToRtc(epoch)) == Hour(epoch)
    ensures Minute(EpochToRtc(epoch)) == Minute(epoch)
    ensures Second(EpochToRtc(epoch)) == Second(epoch)
  {
    OffsetsAreWholeDays();
    var e := epoch as int;
    assert EpochToRtc(epoch) as int == e - 18262 * SECONDS_PER_DAY;
    WholeDaysShift(e, 18262);
  }

  /** Moving a time back by whole days keeps its hour, minute and second. */
  lemma WholeDaysShift(t: int, days: int)
    ensures (t - days * SECONDS_PER_DAY) / 3600 % 24 == t / 3600 % 24
    ensures (t - days * SECONDS_PER_DAY) / 60 % 60 == t / 60 % 60
    ensures (t - days * SECONDS_PER_DAY) % 60 == t % 60
  {
    QuotientShift(t, days * 24, 3600);
    QuotientShift(t / 3600, days, 24);
    QuotientShift(t, days * 1440, 60);
    QuotientShift(t / 60, days * 24, 60);
  }

  /** Subtracting `k` multiples of `m` lowers the quotient by `k` and keeps
      the remainder. */
  lemma QuotientShift(x: int, k: int, m: int)
    requires m > 0
    ensures (x - k * m) / m == x / m - k
    ensures (x - k * m) % m == x % m
  {
    var q, r := x / m, x % m;
    assert x - k * m == (q - k) * m + r;
    DivisionUnique(x - k * m, q - k, r, m);
  }

  lemma DivisionUnique(x: int, q: int, r: int, m: int)
    requires m > 0 && 0 <= r < m && x == q * m + r
    ensures x / m == q && x % m == r
  {
    var q', r' := x / m, x % m;
    assert x == q' * m + r' && 0 <= r' < m;
    if q' > q {
      assert (q' - q) * m == r - r';
      AtLeastOnce(q' - q, m);
    } else if q' < q {
      assert (q - q') * m == r' - r;
      AtLeastOnce(q - q', m);
    }
  }

  lemma {:induction false} AtLeastOnce(a: int, m: int)
    requires a >= 1 && m > 0
    ensures a * m >= m
    decreases a
  {
    if a > 1 {
      AtLeastOnce(a - 1, m);
      assert a * m == (a - 1) * m + m;
    }
  }

  /** `config.syncInterval * 1000`: an `int` product (wrapping, in practice,
      on overflow) converted to the `uint64_t` that
      `esp_sleep_enable_timer_wakeup` takes. */
  function WakeTimerMicros(syncInterval: int32): (micros: int)
    ensures 0 <= micros < TWO_64
  {
    var product := WrapInt32(syncInterval as int * 1000);
    if product < 0 then product as int + TWO_64 else product as int
  }

  /** The timer is armed for exactly `syncInterval` milliseconds precisely
      when the interval is between 0 and 2147483. */
  lemma WakeTimerExact(syncInterval: int32)
    ensures WakeTimerMicros(syncInterval) == syncInterval as int * 1000 <==> 0 <= syncInterval <= 2147483
  {
    var p := syncInterval as int * 1000;
    if 0 <= syncInterval <= 2147483 {
      assert -TWO_31 <= p < TWO_31;
    } else if syncInterval > 2147483 {
      assert p >= TWO_31;
    } else {
      assert p < 0;
    }
  }

  /** `delay(config.syncInterval)`: delay takes a `uint32_t`, so a negative
      interval becomes a very long one. */
  function DelayMs(syncInterval: int32): (ms: nat)
    ensures syncInterval >= 0 ==> ms == syncInterval as int
    ensures syncInterval < 0 ==> ms == syncInterval as int + TWO_32
  {
    Bits(syncInterval) as int
  }
}
