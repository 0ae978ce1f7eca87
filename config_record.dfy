/** The firmware's global `config` struct, its 156-byte memory image (which
    `EEPROM.put` and `EEPROM.get` copy verbatim) and the form that fills it. */
module ConfigRecord {
  import opened Bytes
  import opened CString

  const SSID_SIZE := 32
  const PASSWORD_SIZE := 64
  const TIMEZONE_SIZE := 32

  /** sizeof(config): 32 + 64 chars, six 4-byte ints, one bool, 32 chars and
      three bytes of tail padding that keep the struct a multiple of 4. */
  const RECORD_SIZE := 156

  // Byte offsets of the fields inside the record.
  const PASSWORD_AT := 32
  const SYNC_INTERVAL_AT := 96
  const LAMP_COUNT_AT := 100
  const RGB_AT := 104
  const BRIGHTNESS_AT := 116
  const SLEEP_MODE_AT := 120
  const TIMEZONE_AT := 121
  const PADDING_AT := 153

  type Chars32 = s: seq<uint8> | |s| == 32 witness Zeros(32)
  type Chars64 = s: seq<uint8> | |s| == 64 witness Zeros(64)
  type Rgb = s: seq<int32> | |s| == 3 witness [0, 0, 0]

  datatype Config = Config(
    ssid: Chars32,
    password: Chars64,
    syncInterval: int32,
    lampCount: int32,
    rgb: Rgb,
    brightness: int32,
    isSleepMode: bool,
    timezone: Chars32)

  /** The record as a global of static storage duration starts: all zero. */
  const ZERO_CONFIG := Config(Zeros(32), Zeros(64), 0, 0, [0, 0, 0], 0, false, Zeros(32))

  /** A C++ `bool` in memory. */
  function BoolByte(b: bool): uint8 { if b then 1 else 0 }

  /** The memory image of the record. Padding bytes are zero: the record is
      zero-initialised and is only stored in provisioning mode, where it
      was never loaded from EEPROM. */
  function Encode(c: Config): (image: seq<uint8>)
    ensures |image| == RECORD_SIZE
    ensures image[..SSID_SIZE] == c.ssid
    ensures image[SLEEP_MODE_AT] == BoolByte(c.isSleepMode)
  {
    c.ssid + c.password
    + IntBytes(c.syncInterval) + IntBytes(c.lampCount)
    + IntBytes(c.rgb[0]) + IntBytes(c.rgb[1]) + IntBytes(c.rgb[2])
    + IntBytes(c.brightness)
    + [BoolByte(c.isSleepMode)] + c.timezone + Zeros(3)
  }

  /** The record that a 156-byte memory image holds (any image: the copy
      does not check anything). */
  function Decode(image: seq<uint8>): (c: Config)
    requires |image| == RECORD_SIZE
    ensures c.ssid == image[..SSID_SIZE]
    ensures c.isSleepMode <==> image[SLEEP_MODE_AT] != 0
  {
    Config(
      image[..PASSWORD_AT],
      image[PASSWORD_AT..SYNC_INTERVAL_AT],
      IntAt(image[SYNC_INTERVAL_AT..LAMP_COUNT_AT]),
      IntAt(image[LAMP_COUNT_AT..RGB_AT]),
      [IntAt(image[RGB_AT..RGB_AT + 4]), IntAt(image[RGB_AT + 4..RGB_AT + 8]), IntAt(image[RGB_AT + 8..BRIGHTNESS_AT])],
      IntAt(image[BRIGHTNESS_AT..SLEEP_MODE_AT]),
      image[SLEEP_MODE_AT] != 0,
      image[TIMEZONE_AT..PADDING_AT])
  }

  /** Loading a stored record gives back the record that was stored. */
  lemma DecodeEncode(c: Config)
    ensures Decode(Encode(c)) == c
  {
    var image := Encode(c);
    assert image[PASSWORD_AT..SYNC_INTERVAL_AT] == c.password;
    assert image[SYNC_INTERVAL_AT..LAMP_COUNT_AT] == IntBytes(c.syncInterval);
    assert image[LAMP_COUNT_AT..RGB_AT] == IntBytes(c.lampCount);
    assert image[RGB_AT..RGB_AT + 4] == IntBytes(c.rgb[0]);
    assert image[RGB_AT + 4..RGB_AT + 8] == IntBytes(c.rgb[1]);
    assert image[RGB_AT + 8..BRIGHTNESS_AT] == IntBytes(c.rgb[2]);
    assert image[BRIGHTNESS_AT..SLEEP_MODE_AT] == IntBytes(c.brightness);
    assert image[TIMEZONE_AT..PADDING_AT] == c.timezone;
    IntAtIntBytes(c.syncInterval);
    IntAtIntBytes(c.lampCount);
    IntAtIntBytes(c.rgb[0]);
    IntAtIntBytes(c.rgb[1]);
    IntAtIntBytes(c.rgb[2]);
    IntAtIntBytes(c.brightness);
  }

  /** One submitted form field: its text, and the value `toInt()` gives for
      that text (the parsing itself is library code outside this model). */
  datatype Param = Param(text: seq<uint8>, asInt: int32)

  /** The names of the form's fields. Other parameters a request may carry
      are never read by the handler. */
  datatype Field =
    | Ssid | Password | SyncInterval | LampCount | R | G | B | Brightness | IsSleepMode | Timezone

  /** The POST parameters of a request to /save, by name. */
  type Form = map<Field, Param>

  /** The two parameters whose presence the handler checks. */
  predicate HasCredentials(form: Form)
  {
    Ssid in form && Password in form
  }

  /** The parameters the handler reads without checking for them. */
  predicate HasSettings(form: Form)
  {
    && SyncInterval in form && LampCount in form
    && R in form && G in form && B in form
    && Brightness in form && Timezone in form
  }

  /** The record a complete submission produces. */
  function FormConfig(form: Form): (c: Config)
    requires HasCredentials(form) && HasSettings(form)
    ensures c.isSleepMode <==> IsSleepMode in form
  {
    Config(
      StrNCpy(form[Ssid].text, SSID_SIZE),
      StrNCpy(form[Password].text, PASSWORD_SIZE),
      form[SyncInterval].asInt,
      form[LampCount].asInt,
      [form[R].asInt, form[G].asInt, form[B].asInt],
      form[Brightness].asInt,
      IsSleepMode in form,
      StrNCpy(form[Timezone].text, TIMEZONE_SIZE))
  }

  /** No NUL byte in `s`: the whole value is one C string. */
  predicate NulFree(s: seq<uint8>)
  {
    forall i :: 0 <= i < |s| ==> s[i] != 0
  }

  /** A fixed-size field holds the first `|field|` bytes of `value`, zero
      padded when the value is shorter (and then terminated). */
  predicate HoldsTruncated(field: seq<uint8>, value: seq<uint8>)
  {
    if |value| < |field| then field == value + Zeros(|field| - |value|)
    else field == value[..|field|]
  }

  /** What a complete submission stores: the first 32/64/32 bytes of the
      string values, the ints as given, and the sleep flag set exactly when
      the checkbox parameter was sent. */
  lemma FormConfigFields(form: Form)
    requires HasCredentials(form) && HasSettings(form)
    requires NulFree(form[Ssid].text) && NulFree(form[Password].text) && NulFree(form[Timezone].text)
    ensures HoldsTruncated(FormConfig(form).ssid, form[Ssid].text)
    ensures HoldsTruncated(FormConfig(form).password, form[Password].text)
    ensures HoldsTruncated(FormConfig(form).timezone, form[Timezone].text)
    ensures FormConfig(form).isSleepMode <==> IsSleepMode in form
    ensures FormConfig(form).syncInterval == form[SyncInterval].asInt
    ensures FormConfig(form).lampCount == form[LampCount].asInt
    ensures FormConfig(form).rgb == [form[R].asInt, form[G].asInt, form[B].asInt]
    ensures FormConfig(form).brightness == form[Brightness].asInt
  {
    StrNCpyFits(form[Ssid].text, SSID_SIZE);
    StrNCpyFits(form[Password].text, PASSWORD_SIZE);
    StrNCpyFits(form[Timezone].text, TIMEZONE_SIZE);
  }

  lemma StrNCpyFits(value: seq<uint8>, n: nat)
    requires NulFree(value)
    ensures HoldsTruncated(StrNCpy(value, n), value)
  {
    if |value| < n {
      StrNCpyShort(value, n);
    } else {
      StrNCpyLong(value, n);
    }
  }
}
