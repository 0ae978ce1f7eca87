/** Machine integers of the ESP32 (a 32-bit little-endian target) and the
    byte layout of a 4-byte `int` in memory. */
module Bytes {

  const TWO_8: int := 0x100
  const TWO_31: int := 0x8000_0000
  const TWO_32: int := 0x1_0000_0000
  const TWO_64: int := 0x1_0000_0000_0000_0000

  newtype uint8 = x: int | 0 <= x < 0x100
  newtype uint32 = x: int | 0 <= x < 0x1_0000_0000
  newtype int32 = x: int | -0x8000_0000 <= x < 0x8000_0000

  /** `n` zero bytes, as left by a zero-initialised buffer or by strncpy's padding. */
  function Zeros(n: nat): (z: seq<uint8>)
    ensures |z| == n
    ensures forall i :: 0 <= i < n ==> z[i] == 0
  {
    seq(n, _ => 0)
  }

  /** Reduces a mathematical integer to a C `int` the way the target's
      two's-complement arithmetic does. */
  function WrapInt32(x: int): (r: int32)
    ensures (r as int - x) % TWO_32 == 0
    ensures -TWO_31 <= x < TWO_31 ==> r as int == x
  {
    var u := x % TWO_32;
    if u < TWO_31 then u as int32 else (u - TWO_32) as int32
  }

  /** The bit pattern of a signed `int`, read as unsigned. */
  function Bits(x: int32): (u: uint32)
    ensures x >= 0 ==> u as int == x as int
    ensures x < 0 ==> u as int == x as int + TWO_32
  {
    if x < 0 then (x as int + TWO_32) as uint32 else x as int as uint32
  }

  /** The signed `int` whose bit pattern is `u`. */
  function Signed(u: uint32): (x: int32)
    ensures Bits(x) == u
  {
    if u as int < TWO_31 then u as int as int32 else (u as int - TWO_32) as int32
  }

  /** The four bytes of a 32-bit word in memory, least significant first. */
  function LittleEndian(u: uint32): (b: seq<uint8>)
    ensures |b| == 4
  {
    var q1 := u as int / TWO_8;
    var q2 := q1 / TWO_8;
    var q3 := q2 / TWO_8;
    [(u as int % TWO_8) as uint8, (q1 % TWO_8) as uint8, (q2 % TWO_8) as uint8, (q3 % TWO_8) as uint8]
  }

  /** The 32-bit word held by four bytes in memory, least significant first. */
  function WordAt(b: seq<uint8>): (u: uint32)
    requires |b| == 4
  {
    (b[0] as int + TWO_8 * (b[1] as int + TWO_8 * (b[2] as int + TWO_8 * b[3] as int))) as uint32
  }

  /** Storing a word and reading it back gives the word. */
  lemma WordAtLittleEndian(u: uint32)
    ensures WordAt(LittleEndian(u)) == u
  {
    var n := u as int;
    var q1 := n / TWO_8;
    var q2 := q1 / TWO_8;
    var q3 := q2 / TWO_8;
    assert n == n % TWO_8 + TWO_8 * q1;
    assert q1 == q1 % TWO_8 + TWO_8 * q2;
    assert q2 == q2 % TWO_8 + TWO_8 * q3;
    assert q3 < TWO_8;
  }

  /** The memory image of a C `int`. */
  function IntBytes(x: int32): (b: seq<uint8>)
    ensures |b| == 4
  {
    LittleEndian(Bits(x))
  }

  /** The C `int` held by four bytes of memory. */
  function IntAt(b: seq<uint8>): (x: int32)
    requires |b| == 4
  {
    Signed(WordAt(b))
  }

  /** Copying an `int` into memory and back out yields the same `int`. */
  lemma IntAtIntBytes(x: int32)
    ensures IntAt(IntBytes(x)) == x
  {
    WordAtLittleEndian(Bits(x));
  }
}
