/**
 * Machine-level arithmetic used by the IDL decoder in rts/idl.c: bytes, the
 * masks the decoders apply to them, 32-bit unsigned wrap-around and the
 * reinterpretation of a uint32_t as an int32_t.
 *
 * The masks are written as integer arithmetic on a byte in 0..255; the
 * comment beside each one names the C expression it stands for.
 */
module Bits {

  newtype byte = x: int | 0 <= x < 256

  const U32_MOD: int := 0x1_0000_0000
  const I32_MIN: int := -0x8000_0000
  const I32_MAX: int := 0x7FFF_FFFF

  predicate IsU32(x: int) { 0 <= x < U32_MOD }
  predicate IsI32(x: int) { I32_MIN <= x <= I32_MAX }

  /** b & 0x7F: the seven payload bits of a LEB128 byte. */
  function Low7(b: byte): nat { b as int % 128 }

  /** b & 0x80: the continuation bit. */
  predicate HasMore(b: byte) { b >= 128 }

  /** b & 0x40: bit 6, the sign bit of an SLEB128 group. */
  predicate SignBit(b: byte) { b as int % 128 >= 64 }

  /** (b & 0xF0) >> 4: the upper nibble of a byte. */
  function UpperNibble(b: byte): nat { b as int / 16 }

  /** The shift amounts s = 0, 7, 14, 21, 28 of the five bytes of a group. */
  predicate IsShift(s: nat) { s == 0 || s == 7 || s == 14 || s == 21 || s == 28 }

  /** x << s on unbounded integers, for the shift amounts of a group: x times 2^s. */
  function Shl(x: int, s: nat): int
    requires IsShift(s)
  {
    if s == 0 then x
    else if s == 7 then 0x80 * x
    else if s == 14 then 0x4000 * x
    else if s == 21 then 0x20_0000 * x
    else 0x1000_0000 * x
  }

  /** Adding a seven-bit group x at shift s to r < 1 << s stays below 1 << (s + 7). */
  lemma Accumulate(r: int, x: int, s: nat)
    requires IsShift(s) && 0 <= r < Shl(1, s) && 0 <= x < 128
    ensures 0 <= r + Shl(x, s) < 0x80 * Shl(1, s)
    ensures s < 28 ==> r + Shl(x, s) < Shl(1, s + 7)
  {
  }

  /** A group x at shift s followed by the groups y at shift s + 7. */
  lemma Regroup(r: int, x: int, y: int, s: nat)
    requires IsShift(s) && s < 28
    ensures r + Shl(x, s) + Shl(y, s + 7) == r + Shl(x + 128 * y, s)
  {
  }

  /** The int32_t that has the same 32 bits as the uint32_t u (two's complement). */
  function ToInt32(u: int): (v: int)
    requires IsU32(u)
    ensures IsI32(v)
  {
    if u <= I32_MAX then u else u - U32_MOD
  }

  /** An unbounded integer truncated to 32 bits and read as an int32_t. */
  function Int32Wrap(x: int): (v: int)
    ensures IsI32(v)
  {
    ToInt32(x % U32_MOD)
  }

  /** Int32Wrap(x) has the same low 32 bits as x, and it is the only int32 that has. */
  lemma Int32WrapCongruent(x: int, v: int)
    requires IsI32(v)
    ensures (v - x) % U32_MOD == 0 <==> v == Int32Wrap(x)
  {
  }

  lemma Int32WrapIdentity(x: int)
    requires IsI32(x)
    ensures Int32Wrap(x) == x
  {
  }

  /**
   * r | (~(uint32_t)0 << s) for the shifts 7, 14, 21 and 28 after a byte:
   * the low s bits of r are kept and every bit from s up to 31 is set.
   */
  function SignExtend(r: int, s: nat): (x: int)
    requires IsU32(r) && IsShift(s) && s > 0
    ensures IsU32(x)
  {
    var m := Shl(1, s);
    r % m + (U32_MOD - m)
  }

  /** When r has no bit at or above s, setting the bits s..31 adds them. */
  lemma SignExtendLow(r: int, s: nat)
    requires IsShift(s) && s > 0 && 0 <= r < Shl(1, s)
    ensures SignExtend(r, s) == r + (U32_MOD - Shl(1, s))
  {
    if s == 7 {
      assert r % 0x80 == r;
    } else if s == 14 {
      assert r % 0x4000 == r;
    } else if s == 21 {
      assert r % 0x20_0000 == r;
    } else {
      assert r % 0x1000_0000 == r;
    }
  }

  /** Four bytes read as a little-endian uint32_t. */
  function LittleEndian32(b0: byte, b1: byte, b2: byte, b3: byte): (w: int)
    ensures IsU32(w)
  {
    b0 as int + 0x100 * b1 as int + 0x1_0000 * b2 as int + 0x100_0000 * b3 as int
  }
}
