/**
 * read_u32_of_leb128 and read_i32_of_sleb128 of rts/idl.c as functions of
 * the buffer contents and the cursor, and what they decode: the unsigned and
 * signed LEB128 formats of section 7.6 "Variable Length Data" of DWARF
 * version 4.
 *
 * Each decoder is a do-while loop over the locals r (the uint32_t
 * accumulator), s (the shift) and, for the signed one, last_sign_bit_set.
 * ReadU32From and ReadI32From give the outcome of that loop from any such
 * state on; ReadU32 and ReadI32 start it in its initial state.
 */
module Leb128 {
  import opened Bits
  import opened Outcome
  import opened Buffer

  // ------------------------------------------------------------------------
  // Unsigned LEB128

  /** The remaining iterations of read_u32_of_leb128 with cursor p, accumulator r and shift s. */
  function ReadU32From(data: seq<byte>, e: nat, p: nat, r: int, s: nat): (res: Result<int>)
    requires e <= |data| && IsShift(s)
    ensures res.Ok? ==> IsU32(res.value) && p < res.next <= e
    decreases 28 - s
  {
    match ReadByteAt(data, e, p)
    case Trapped(t) => Trapped(t)
    case Ok(b, p') =>
      if s > 0 && b == 0x00 then Trapped(NotShortest)
      else if s == 28 && UpperNibble(b) != 0x0 then Trapped(IntOverflow)
      else
        var r' := (r + Shl(Low7(b), s)) % U32_MOD;
        if HasMore(b) then ReadU32From(data, e, p', r', s + 7) else Ok(r', p')
  }

  /** read_u32_of_leb128 on a buffer whose cursor is p. */
  function ReadU32(data: seq<byte>, e: nat, p: nat): (res: Result<int>)
    requires e <= |data|
    ensures res.Ok? ==> IsU32(res.value) && p < res.next <= e
  {
    ReadU32From(data, e, p, 0, 0)
  }

  /** The shortest unsigned LEB128 encoding of v. */
  function EncodeU(v: nat): (bs: seq<byte>)
    ensures |bs| >= 1
    decreases v
  {
    if v < 128 then [v as byte] else [(v % 128 + 128) as byte] + EncodeU(v / 128)
  }

  /** The value of a group of LEB128 bytes, low-order group first, without any bound. */
  function LebValue(bs: seq<byte>): nat
    requires |bs| >= 1
  {
    if |bs| == 1 then Low7(bs[0]) else Low7(bs[0]) + 128 * LebValue(bs[1..])
  }

  /** Every byte of EncodeU(v) but the last carries the continuation bit, and only a one-byte encoding ends in 0x00. */
  lemma {:induction false} EncodeUShape(v: nat)
    ensures forall i :: 0 <= i < |EncodeU(v)| - 1 ==> HasMore(EncodeU(v)[i])
    ensures !HasMore(EncodeU(v)[|EncodeU(v)| - 1])
    ensures |EncodeU(v)| > 1 ==> EncodeU(v)[|EncodeU(v)| - 1] != 0x00
    decreases v
  {
    if v >= 128 {
      EncodeUShape(v / 128);
    }
  }

  /** EncodeU and LebValue are inverse: the encoding denotes v. */
  lemma {:induction false} LebValueEncodeU(v: nat)
    ensures LebValue(EncodeU(v)) == v
    decreases v
  {
    if v >= 128 {
      LebValueEncodeU(v / 128);
      var bs := EncodeU(v);
      assert bs[1..] == EncodeU(v / 128);
    }
  }

  lemma EncodeUCons(x: int, w: nat)
    requires 0 <= x < 128 && w > 0
    ensures EncodeU(x + 128 * w) == [(x + 128) as byte] + EncodeU(w)
  {
    var v := x + 128 * w;
    assert v % 128 == x && v / 128 == w;
  }

  lemma LebValueCons(b: byte, bs: seq<byte>)
    requires |bs| >= 1
    ensures LebValue([b] + bs) == Low7(b) + 128 * LebValue(bs)
  {
    assert ([b] + bs)[1..] == bs;
  }

  lemma SliceCons(data: seq<byte>, p: nat, q: nat)
    requires p < q <= |data|
    ensures data[p..q] == [data[p]] + data[p + 1..q]
  {
  }

  /** A group read by one more iteration that saw a continuation byte. */
  lemma EncodeUStep(data: seq<byte>, p: nat, q: nat)
    requires p + 1 < q <= |data| && HasMore(data[p])
    requires LebValue(data[p + 1..q]) > 0
    requires data[p + 1..q] == EncodeU(LebValue(data[p + 1..q]))
    ensures LebValue(data[p..q]) == Low7(data[p]) + 128 * LebValue(data[p + 1..q])
    ensures data[p..q] == EncodeU(LebValue(data[p..q]))
  {
    var b, w' := data[p], LebValue(data[p + 1..q]);
    SliceCons(data, p, q);
    LebValueCons(b, data[p + 1..q]);
    EncodeUCons(Low7(b), w');
    assert (Low7(b) + 128) as byte == b;
  }

  /** A group of one final byte. */
  lemma EncodeULast(data: seq<byte>, p: nat)
    requires p < |data| && !HasMore(data[p])
    ensures LebValue(data[p..p + 1]) == data[p] as nat
    ensures data[p..p + 1] == EncodeU(LebValue(data[p..p + 1]))
  {
    assert data[p..p + 1] == [data[p]];
  }

  /** One iteration of read_u32_of_leb128 on a final byte. */
  lemma ReadU32FromLast(data: seq<byte>, e: nat, p: nat, r: int, s: nat, x: int)
    requires e <= |data| && IsShift(s) && p < e && !HasMore(data[p])
    requires s > 0 ==> data[p] != 0x00
    requires s == 28 ==> UpperNibble(data[p]) == 0x0
    requires x == r + Shl(Low7(data[p]), s) && IsU32(x)
    ensures ReadU32From(data, e, p, r, s) == Ok(x, p + 1)
  {
    assert x % U32_MOD == x;
  }

  /** One iteration of read_u32_of_leb128 on a byte with the continuation bit set. */
  lemma ReadU32FromMore(data: seq<byte>, e: nat, p: nat, r: int, s: nat, x: int)
    requires e <= |data| && IsShift(s) && s < 28 && p < e && HasMore(data[p])
    requires x == r + Shl(Low7(data[p]), s) && IsU32(x)
    ensures ReadU32From(data, e, p, r, s) == ReadU32From(data, e, p + 1, x, s + 7)
  {
    assert x % U32_MOD == x;
  }

  /** The group encoding v from shift s is its final byte. */
  lemma ReadU32FromEncodingLast(data: seq<byte>, e: nat, p: nat, r: int, s: nat, v: nat)
    requires e <= |data| && IsShift(s) && 0 <= r < Shl(1, s)
    requires (s > 0 ==> v > 0) && v < 128
    requires r + Shl(v, s) < U32_MOD
    requires At(data, e, p, EncodeU(v))
    ensures ReadU32From(data, e, p, r, s) == Ok(r + Shl(v, s), p + 1)
  {
    AtCons(data, e, p, v as byte, []);
    ReadU32FromLast(data, e, p, r, s, r + Shl(v, s));
  }

  /**
   * The group encoding v from shift s starts with a continuation byte:
   * what the next iteration, at p' with shift s' and accumulator x, sees.
   */
  lemma ReadU32FromEncodingMore(data: seq<byte>, e: nat, p: nat, r: int, s: nat, v: nat,
                                p': nat, x: int, s': nat, rest: nat)
    requires e <= |data| && IsShift(s) && 0 <= r < Shl(1, s)
    requires v >= 128
    requires r + Shl(v, s) < U32_MOD
    requires At(data, e, p, EncodeU(v))
    requires p' == p + 1 && x == r + Shl(v % 128, s) && s' == s + 7 && rest == v / 128
    ensures s < 28 && IsShift(s') && 0 <= x < Shl(1, s') && rest > 0
    ensures x + Shl(rest, s') == r + Shl(v, s)
    ensures At(data, e, p', EncodeU(rest))
    ensures |EncodeU(v)| == 1 + |EncodeU(rest)|
    ensures ReadU32From(data, e, p, r, s) == ReadU32From(data, e, p', x, s')
  {
    var low := v % 128;
    assert v == low + 128 * rest;
    EncodeUCons(low, rest);
    AtCons(data, e, p, (low + 128) as byte, EncodeU(rest));
    ReadU32FromMore(data, e, p, r, s, x);
    Regroup(r, low, rest, s);
  }

  /**
   * From shift s on, the loop reads exactly the encoding of the rest v of
   * the value, ending with total = r + (v << s) at q, just past the encoding.
   */
  lemma {:induction false} ReadU32FromEncoding(data: seq<byte>, e: nat, p: nat, r: int, s: nat, v: nat, total: int, q: nat)
    requires e <= |data| && IsShift(s) && 0 <= r < Shl(1, s)
    requires s > 0 ==> v > 0
    requires total == r + Shl(v, s) && total < U32_MOD
    requires At(data, e, p, EncodeU(v)) && q == p + |EncodeU(v)|
    ensures ReadU32From(data, e, p, r, s) == Ok(total, q)
    decreases v
  {
    if v < 128 {
      ReadU32FromEncodingLast(data, e, p, r, s, v);
    } else {
      var p', x, s', rest := p + 1, r + Shl(v % 128, s), s + 7, v / 128;
      ReadU32FromEncodingMore(data, e, p, r, s, v, p', x, s', rest);
      ReadU32FromEncoding(data, e, p', x, s', rest, total, q);
    }
  }

  /**
   * The bytes data[p..q] finish, from shift s on, a group whose value on
   * top of the accumulator r is value: they are the shortest encoding of
   * their own value, and that value puts no bit above bit 31.
   */
  predicate LebGroup(data: seq<byte>, p: nat, q: nat, r: int, s: nat, value: int)
  {
    && p < q <= |data| && IsShift(s) && 7 * (q - p) + s <= 35
    && var w := LebValue(data[p..q]);
    && data[p..q] == EncodeU(w) && (s > 0 ==> w > 0)
    && value == r + Shl(w, s) && IsU32(value)
  }

  lemma ReadU32FromSoundLast(data: seq<byte>, e: nat, p: nat, r: int, s: nat)
    requires e <= |data| && IsShift(s) && 0 <= r < Shl(1, s) && p < e && !HasMore(data[p])
    requires ReadU32From(data, e, p, r, s).Ok?
    ensures var res := ReadU32From(data, e, p, r, s);
      res.next <= e && LebGroup(data, p, res.next, r, s, res.value)
  {
    ReadU32FromLast(data, e, p, r, s, r + Shl(Low7(data[p]), s));
    EncodeULast(data, p);
  }

  lemma ReadU32FromSoundMore(data: seq<byte>, p: nat, q: nat, r: int, s: nat, value: int)
    requires IsShift(s) && s < 28 && p < |data| && HasMore(data[p]) && 0 <= r < Shl(1, s)
    requires LebGroup(data, p + 1, q, r + Shl(Low7(data[p]), s), s + 7, value)
    ensures LebGroup(data, p, q, r, s, value)
  {
    EncodeUStep(data, p, q);
    Regroup(r, Low7(data[p]), LebValue(data[p + 1..q]), s);
  }

  /** An accepted group whose byte at p has the continuation bit: the loop goes on at shift s + 7. */
  lemma ReadU32FromContinue(data: seq<byte>, e: nat, p: nat, r: int, s: nat)
    requires e <= |data| && IsShift(s) && 0 <= r < Shl(1, s)
    requires ReadU32From(data, e, p, r, s).Ok? && HasMore(data[p])
    ensures var x := r + Shl(Low7(data[p]), s);
      && s < 28 && 0 <= x < Shl(1, s + 7)
      && ReadU32From(data, e, p, r, s) == ReadU32From(data, e, p + 1, x, s + 7)
  {
    ReadU32FromMore(data, e, p, r, s, r + Shl(Low7(data[p]), s));
  }

  /** What the loop accepts from shift s on is the encoding of the rest of a value that fits in 32 bits. */
  lemma {:induction false} ReadU32FromSound(data: seq<byte>, e: nat, p: nat, r: int, s: nat, value: int, q: nat)
    requires e <= |data| && IsShift(s) && 0 <= r < Shl(1, s)
    requires ReadU32From(data, e, p, r, s) == Ok(value, q)
    ensures q <= e && LebGroup(data, p, q, r, s, value)
    decreases 28 - s
  {
    if HasMore(data[p]) {
      ReadU32FromContinue(data, e, p, r, s);
      ReadU32FromSound(data, e, p + 1, r + Shl(Low7(data[p]), s), s + 7, value, q);
      ReadU32FromSoundMore(data, p, q, r, s, value);
    } else {
      ReadU32FromSoundLast(data, e, p, r, s);
    }
  }

  // ------------------------------------------------------------------------
  // Signed LEB128

  /**
   * The remaining iterations of read_i32_of_sleb128 with cursor p,
   * accumulator r, shift s and last_sign_bit_set, followed by its sign
   * extension and the reading of r as an int32_t.
   */
  function ReadI32From(data: seq<byte>, e: nat, p: nat, r: int, s: nat, lastSignBitSet: bool): (res: Result<int>)
    requires e <= |data| && IsShift(s)
    ensures res.Ok? ==> IsI32(res.value) && p < res.next <= e
    decreases 28 - s
  {
    match ReadByteAt(data, e, p)
    case Trapped(t) => Trapped(t)
    case Ok(b, p') =>
      if s == 28 && !(UpperNibble(b) == 0x0 || UpperNibble(b) == 0x7) then Trapped(IntOverflow)
      else if s > 0 && ((!lastSignBitSet && b == 0x00) || (lastSignBitSet && b == 0x7F)) then Trapped(NotShortest)
      else
        var signBitSet := SignBit(b);
        var r' := (r + Shl(Low7(b), s)) % U32_MOD;
        if HasMore(b) then ReadI32From(data, e, p', r', s + 7, signBitSet)
        else
          var r'' := if s + 7 < 32 && signBitSet then SignExtend(r', s + 7) else r';
          Ok(ToInt32(r''), p')
  }

  /** read_i32_of_sleb128 on a buffer whose cursor is p. */
  function ReadI32(data: seq<byte>, e: nat, p: nat): (res: Result<int>)
    requires e <= |data|
    ensures res.Ok? ==> IsI32(res.value) && p < res.next <= e
  {
    ReadI32From(data, e, p, 0, 0, false)
  }

  /** The shortest signed LEB128 encoding of v. */
  function EncodeS(v: int): (bs: seq<byte>)
    ensures |bs| >= 1
    decreases if v < 0 then -v else v
  {
    var low, rest := v % 128, v / 128;
    if (rest == 0 && low < 64) || (rest == -1 && low >= 64) then [low as byte]
    else [(low + 128) as byte] + EncodeS(rest)
  }

  /** The value of the final byte of an SLEB128 group: its seven bits, sign-extended from bit 6. */
  function FinalDigit(b: byte): int
  {
    Low7(b) - (if SignBit(b) then 128 else 0)
  }

  /** The value of a group of SLEB128 bytes, sign-extended from bit 6 of its last byte, without any bound. */
  function SlebValue(bs: seq<byte>): int
    requires |bs| >= 1
  {
    if |bs| == 1 then FinalDigit(bs[0])
    else Low7(bs[0]) + 128 * SlebValue(bs[1..])
  }

  /** The integers whose shortest SLEB128 encoding the signed decoder accepts: [-2^32, 2^32). */
  predicate InSlebRange(x: int) { -U32_MOD <= x < U32_MOD }

  /**
   * The canonical-encoding test of read_i32_of_sleb128 for the rest of a
   * group whose value is w, given the sign bit of the byte before it.
   */
  predicate NotRedundant(lastSignBitSet: bool, w: int)
  {
    !(!lastSignBitSet && w == 0) && !(lastSignBitSet && w == -1)
  }

  /** The result after the loop for a final byte b at shift s < 28, sign extension included. */
  lemma FinalBeforeFifth(r: int, s: nat, b: byte, x: int, r': int)
    requires IsShift(s) && s < 28 && 0 <= r < Shl(1, s) && !HasMore(b)
    requires x == r + Shl(FinalDigit(b), s) && r' == (r + Shl(Low7(b), s)) % U32_MOD
    ensures InSlebRange(x)
    ensures ToInt32(if SignBit(b) then SignExtend(r', s + 7) else r') == Int32Wrap(x)
  {
    assert r' == r + Shl(Low7(b), s);
    if SignBit(b) {
      assert x == r' - Shl(1, s + 7);
      SignExtendLow(r', s + 7);
      assert x % U32_MOD == x + U32_MOD;
    }
  }

  /** The result for a fifth byte b whose upper nibble is 0x0 or 0x7: no sign extension, truncation to 32 bits. */
  lemma FinalFifth(r: int, b: byte, x: int)
    requires 0 <= r < 0x1000_0000 && (UpperNibble(b) == 0x0 || UpperNibble(b) == 0x7)
    requires x == r + 0x1000_0000 * FinalDigit(b)
    ensures InSlebRange(x)
    ensures ToInt32((r + 0x1000_0000 * Low7(b)) % U32_MOD) == Int32Wrap(x)
  {
    if SignBit(b) {
      assert r + 0x1000_0000 * Low7(b) == x + 8 * U32_MOD;
      assert (x + 8 * U32_MOD) % U32_MOD == x % U32_MOD;
    }
  }

  /** One iteration of read_i32_of_sleb128 on a final byte, with the sign extension after the loop. */
  lemma ReadI32FromLast(data: seq<byte>, e: nat, p: nat, r: int, s: nat, lastSignBitSet: bool, x: int)
    requires e <= |data| && IsShift(s) && 0 <= r < Shl(1, s) && p < e && !HasMore(data[p])
    requires s == 28 ==> UpperNibble(data[p]) == 0x0 || UpperNibble(data[p]) == 0x7
    requires s > 0 ==> !(!lastSignBitSet && data[p] == 0x00) && !(lastSignBitSet && data[p] == 0x7F)
    requires x == r + Shl(FinalDigit(data[p]), s)
    ensures InSlebRange(x)
    ensures ReadI32From(data, e, p, r, s, lastSignBitSet) == Ok(Int32Wrap(x), p + 1)
  {
    if s < 28 {
      FinalBeforeFifth(r, s, data[p], x, (r + Shl(Low7(data[p]), s)) % U32_MOD);
    } else {
      FinalFifth(r, data[p], x);
    }
  }

  /** One iteration of read_i32_of_sleb128 on a byte with the continuation bit set. */
  lemma ReadI32FromMore(data: seq<byte>, e: nat, p: nat, r: int, s: nat, lastSignBitSet: bool, x: int)
    requires e <= |data| && IsShift(s) && s < 28 && p < e && HasMore(data[p])
    requires x == r + Shl(Low7(data[p]), s) && IsU32(x)
    ensures ReadI32From(data, e, p, r, s, lastSignBitSet) == ReadI32From(data, e, p + 1, x, s + 7, SignBit(data[p]))
  {
    assert x % U32_MOD == x;
  }

  lemma EncodeSCons(x: int, w: int)
    requires 0 <= x < 128 && NotRedundant(x >= 64, w)
    ensures EncodeS(x + 128 * w) == [(x + 128) as byte] + EncodeS(w)
  {
    var v := x + 128 * w;
    assert v % 128 == x && v / 128 == w;
  }

  lemma SlebValueCons(b: byte, bs: seq<byte>)
    requires |bs| >= 1
    ensures SlebValue([b] + bs) == Low7(b) + 128 * SlebValue(bs)
  {
    assert ([b] + bs)[1..] == bs;
  }

  /** A signed group read by one more iteration that saw a continuation byte. */
  lemma EncodeSStep(data: seq<byte>, p: nat, q: nat)
    requires p + 1 < q <= |data| && HasMore(data[p])
    requires NotRedundant(SignBit(data[p]), SlebValue(data[p + 1..q]))
    requires data[p + 1..q] == EncodeS(SlebValue(data[p + 1..q]))
    ensures SlebValue(data[p..q]) == Low7(data[p]) + 128 * SlebValue(data[p + 1..q])
    ensures data[p..q] == EncodeS(SlebValue(data[p..q]))
  {
    var b, w' := data[p], SlebValue(data[p + 1..q]);
    SliceCons(data, p, q);
    SlebValueCons(b, data[p + 1..q]);
    EncodeSCons(Low7(b), w');
    assert (Low7(b) + 128) as byte == b;
  }

  /** A signed group of one final byte. */
  lemma EncodeSLast(data: seq<byte>, p: nat)
    requires p < |data| && !HasMore(data[p])
    ensures SlebValue(data[p..p + 1]) == FinalDigit(data[p])
    ensures data[p..p + 1] == EncodeS(FinalDigit(data[p]))
  {
    assert data[p..p + 1] == [data[p]];
    var w := FinalDigit(data[p]);
    assert EncodeS(w) == [data[p]];
  }

  /** Whether w is the last digit of its own SLEB128 encoding, as EncodeS decides it. */
  predicate LastDigit(w: int)
  {
    (w / 128 == 0 && w % 128 < 64) || (w / 128 == -1 && w % 128 >= 64)
  }

  /** The group encoding w from shift s is its final byte. */
  lemma ReadI32FromEncodingLast(data: seq<byte>, e: nat, p: nat, r: int, s: nat, lastSignBitSet: bool, w: int, total: int, q: nat)
    requires e <= |data| && IsShift(s) && 0 <= r < Shl(1, s)
    requires s > 0 ==> NotRedundant(lastSignBitSet, w)
    requires total == r + Shl(w, s) && InSlebRange(total)
    requires At(data, e, p, EncodeS(w)) && q == p + |EncodeS(w)|
    requires LastDigit(w)
    ensures ReadI32From(data, e, p, r, s, lastSignBitSet) == Ok(Int32Wrap(total), q)
  {
    var b := (w % 128) as byte;
    assert p < e && data[p] == b && q == p + 1 && FinalDigit(b) == w by {
      assert EncodeS(w) == [b] + [];
      AtCons(data, e, p, b, []);
    }
    ReadI32FromLast(data, e, p, r, s, lastSignBitSet, total);
  }

  /** The arithmetic of a continuation digit: the value splits into its low seven bits and the rest. */
  lemma SlebSplit(r: int, s: nat, w: int, x: int, rest: int)
    requires IsShift(s) && 0 <= r < Shl(1, s)
    requires InSlebRange(r + Shl(w, s)) && !LastDigit(w)
    requires x == r + Shl(w % 128, s) && rest == w / 128
    ensures s < 28 && IsU32(x) && x < Shl(1, s + 7)
    ensures NotRedundant(w % 128 >= 64, rest)
    ensures x + Shl(rest, s + 7) == r + Shl(w, s)
    ensures w == w % 128 + 128 * rest
  {
    Regroup(r, w % 128, rest, s);
  }

  /**
   * The group encoding w from shift s starts with a continuation byte:
   * what the next iteration, at p' with shift s' and accumulator x, sees.
   */
  lemma ReadI32FromEncodingMore(data: seq<byte>, e: nat, p: nat, r: int, s: nat, lastSignBitSet: bool, w: int,
                                p': nat, x: int, s': nat, signBit: bool, rest: int)
    requires e <= |data| && IsShift(s) && 0 <= r < Shl(1, s)
    requires InSlebRange(r + Shl(w, s))
    requires At(data, e, p, EncodeS(w)) && !LastDigit(w)
    requires p' == p + 1 && x == r + Shl(w % 128, s) && s' == s + 7
    requires signBit == (w % 128 >= 64) && rest == w / 128
    ensures s < 28 && p < e && signBit == SignBit(data[p])
    ensures IsShift(s') && 0 <= x < Shl(1, s')
    ensures NotRedundant(signBit, rest)
    ensures x + Shl(rest, s') == r + Shl(w, s)
    ensures At(data, e, p', EncodeS(rest))
    ensures |EncodeS(w)| == 1 + |EncodeS(rest)|
    ensures ReadI32From(data, e, p, r, s, lastSignBitSet) == ReadI32From(data, e, p', x, s', signBit)
  {
    var low := w % 128;
    var b := (low + 128) as byte;
    SlebSplit(r, s, w, x, rest);
    assert EncodeS(w) == [b] + EncodeS(rest) by {
      EncodeSCons(low, rest);
    }
    AtCons(data, e, p, b, EncodeS(rest));
    assert SignBit(b) == (low >= 64);
    ReadI32FromMore(data, e, p, r, s, lastSignBitSet, r + Shl(low, s));
  }

  /**
   * From shift s on, the loop reads exactly the encoding of the rest w of
   * the value total = r + (w << s) when total lies in [-2^32, 2^32) and w
   * is not a redundant sign-extension of the bits before it; it returns
   * total truncated to 32 bits, at q, just past the encoding.
   */
  lemma {:induction false} ReadI32FromEncoding(data: seq<byte>, e: nat, p: nat, r: int, s: nat, lastSignBitSet: bool, w: int, total: int, q: nat)
    requires e <= |data| && IsShift(s) && 0 <= r < Shl(1, s)
    requires s > 0 ==> NotRedundant(lastSignBitSet, w)
    requires total == r + Shl(w, s) && InSlebRange(total)
    requires At(data, e, p, EncodeS(w)) && q == p + |EncodeS(w)|
    ensures ReadI32From(data, e, p, r, s, lastSignBitSet) == Ok(Int32Wrap(total), q)
    decreases if w < 0 then -w else w
  {
    if LastDigit(w) {
      ReadI32FromEncodingLast(data, e, p, r, s, lastSignBitSet, w, total, q);
    } else {
      var p', x, s', signBit, rest := p + 1, r + Shl(w % 128, s), s + 7, w % 128 >= 64, w / 128;
      ReadI32FromEncodingMore(data, e, p, r, s, lastSignBitSet, w, p', x, s', signBit, rest);
      ReadI32FromEncoding(data, e, p', x, s', signBit, rest, total, q);
    }
  }

  /**
   * The bytes data[p..q] finish, from shift s on, a signed group whose
   * value on top of the accumulator r lies in [-2^32, 2^32) and reads as
   * value once truncated to 32 bits; they are the shortest encoding of
   * their own value, which does not repeat the sign of the byte before.
   */
  predicate SlebGroup(data: seq<byte>, p: nat, q: nat, r: int, s: nat, lastSignBitSet: bool, value: int)
  {
    && p < q <= |data| && IsShift(s) && 7 * (q - p) + s <= 35
    && var w := SlebValue(data[p..q]);
    && data[p..q] == EncodeS(w)
    && (s > 0 ==> NotRedundant(lastSignBitSet, w))
    && InSlebRange(r + Shl(w, s))
    && value == Int32Wrap(r + Shl(w, s))
  }

  lemma ReadI32FromSoundLast(data: seq<byte>, e: nat, p: nat, r: int, s: nat, lastSignBitSet: bool)
    requires e <= |data| && IsShift(s) && 0 <= r < Shl(1, s) && p < e && !HasMore(data[p])
    requires ReadI32From(data, e, p, r, s, lastSignBitSet).Ok?
    ensures var res := ReadI32From(data, e, p, r, s, lastSignBitSet);
      res.next <= e && SlebGroup(data, p, res.next, r, s, lastSignBitSet, res.value)
  {
    ReadI32FromLast(data, e, p, r, s, lastSignBitSet, r + Shl(FinalDigit(data[p]), s));
    EncodeSLast(data, p);
  }

  lemma ReadI32FromSoundMore(data: seq<byte>, p: nat, q: nat, r: int, s: nat, lastSignBitSet: bool, value: int)
    requires IsShift(s) && s < 28 && p < |data| && HasMore(data[p]) && 0 <= r < Shl(1, s)
    requires SlebGroup(data, p + 1, q, r + Shl(Low7(data[p]), s), s + 7, SignBit(data[p]), value)
    ensures SlebGroup(data, p, q, r, s, lastSignBitSet, value)
  {
    EncodeSStep(data, p, q);
    Regroup(r, Low7(data[p]), SlebValue(data[p + 1..q]), s);
  }

  /** An accepted group whose byte at p has the continuation bit: the loop goes on at shift s + 7. */
  lemma ReadI32FromContinue(data: seq<byte>, e: nat, p: nat, r: int, s: nat, lastSignBitSet: bool)
    requires e <= |data| && IsShift(s) && 0 <= r < Shl(1, s)
    requires ReadI32From(data, e, p, r, s, lastSignBitSet).Ok? && HasMore(data[p])
    ensures var x := r + Shl(Low7(data[p]), s);
      && s < 28 && 0 <= x < Shl(1, s + 7)
      && ReadI32From(data, e, p, r, s, lastSignBitSet) == ReadI32From(data, e, p + 1, x, s + 7, SignBit(data[p]))
  {
    ReadI32FromMore(data, e, p, r, s, lastSignBitSet, r + Shl(Low7(data[p]), s));
  }

  /**
   * What the loop accepts from shift s on is the shortest encoding of the
   * rest of a value in [-2^32, 2^32), and the result is that value
   * truncated to 32 bits.
   */
  lemma {:induction false} ReadI32FromSound(data: seq<byte>, e: nat, p: nat, r: int, s: nat, lastSignBitSet: bool, value: int, q: nat)
    requires e <= |data| && IsShift(s) && 0 <= r < Shl(1, s)
    requires ReadI32From(data, e, p, r, s, lastSignBitSet) == Ok(value, q)
    ensures q <= e && SlebGroup(data, p, q, r, s, lastSignBitSet, value)
    decreases 28 - s
  {
    if HasMore(data[p]) {
      ReadI32FromContinue(data, e, p, r, s, lastSignBitSet);
      ReadI32FromSound(data, e, p + 1, r + Shl(Low7(data[p]), s), s + 7, SignBit(data[p]), value, q);
      ReadI32FromSoundMore(data, p, q, r, s, lastSignBitSet, value);
    } else {
      ReadI32FromSoundLast(data, e, p, r, s, lastSignBitSet);
    }
  }

  // ------------------------------------------------------------------------
  // The canonical signed encoding

  /** EncodeS and SlebValue are inverse: the encoding denotes v. */
  lemma {:induction false} SlebValueEncodeS(v: int)
    ensures SlebValue(EncodeS(v)) == v
    decreases if v < 0 then -v else v
  {
    var low, rest := v % 128, v / 128;
    if !((rest == 0 && low < 64) || (rest == -1 && low >= 64)) {
      SlebValueEncodeS(rest);
      var bs := EncodeS(v);
      assert bs[1..] == EncodeS(rest);
    }
  }

  /**
   * Every byte of EncodeS(v) but the last carries the continuation bit,
   * and the last byte, read with the sign of the byte before it, is never
   * a redundant sign extension.
   */
  lemma {:induction false} EncodeSShape(v: int)
    ensures forall i :: 0 <= i < |EncodeS(v)| - 1 ==> HasMore(EncodeS(v)[i])
    ensures !HasMore(EncodeS(v)[|EncodeS(v)| - 1])
    ensures |EncodeS(v)| > 1 ==> NotRedundant(SignBit(EncodeS(v)[|EncodeS(v)| - 2]), FinalDigit(EncodeS(v)[|EncodeS(v)| - 1]))
    decreases if v < 0 then -v else v
  {
    var low, rest := v % 128, v / 128;
    if !((rest == 0 && low < 64) || (rest == -1 && low >= 64)) {
      EncodeSShape(rest);
      var bs := EncodeS(v);
      assert bs[1..] == EncodeS(rest);
      if |EncodeS(rest)| == 1 {
        var b := EncodeS(rest)[0];
        assert FinalDigit(b) == rest;
      }
    }
  }

  // ------------------------------------------------------------------------
  // What read_u32_of_leb128 accepts and returns

  /** Every uint32_t value is read back from its encoding, which is at most five bytes long. */
  lemma ReadU32Complete(data: seq<byte>, e: nat, p: nat, v: nat)
    requires e <= |data| && IsU32(v) && At(data, e, p, EncodeU(v))
    ensures ReadU32(data, e, p) == Ok(v, p + |EncodeU(v)|)
    ensures |EncodeU(v)| <= 5
  {
    ReadU32FromEncoding(data, e, p, 0, 0, v, v, p + |EncodeU(v)|);
    ReadU32FromSound(data, e, p, 0, 0, v, p + |EncodeU(v)|);
  }

  /** What the decoder accepts is the encoding of a uint32_t value, of at most five bytes, and that value is the result. */
  lemma ReadU32Sound(data: seq<byte>, e: nat, p: nat)
    requires e <= |data| && ReadU32(data, e, p).Ok?
    ensures var res := ReadU32(data, e, p);
      && IsU32(res.value) && p < res.next <= e && res.next <= p + 5
      && data[p..res.next] == EncodeU(res.value)
  {
    var res := ReadU32(data, e, p);
    ReadU32FromSound(data, e, p, 0, 0, res.value, res.next);
  }

  /** The decoder succeeds exactly on the buffers that start with the encoding of a uint32_t value. */
  lemma ReadU32Iff(data: seq<byte>, e: nat, p: nat)
    requires e <= |data|
    ensures ReadU32(data, e, p).Ok? <==> exists v: nat :: IsU32(v) && At(data, e, p, EncodeU(v))
  {
    if ReadU32(data, e, p).Ok? {
      ReadU32Sound(data, e, p);
      var res := ReadU32(data, e, p);
      assert At(data, e, p, EncodeU(res.value));
    }
    if exists v: nat :: IsU32(v) && At(data, e, p, EncodeU(v)) {
      var v: nat :| IsU32(v) && At(data, e, p, EncodeU(v));
      ReadU32Complete(data, e, p, v);
    }
  }

  /** The bytes from p to q all carry the continuation bit. */
  predicate Continued(data: seq<byte>, p: nat, q: nat)
    requires q <= |data|
  {
    forall i :: p <= i < q ==> HasMore(data[i])
  }

  lemma {:induction false} ReadU32FromTrailingZero(data: seq<byte>, e: nat, p: nat, r: int, s: nat, k: nat)
    requires e <= |data| && IsShift(s) && 0 <= r < Shl(1, s)
    requires 0 < s + 7 * k <= 28 && p + k < e
    requires Continued(data, p, p + k) && data[p + k] == 0x00
    ensures ReadU32From(data, e, p, r, s) == Trapped(NotShortest)
    decreases k
  {
    if k > 0 {
      var p', x, s' := p + 1, r + Shl(Low7(data[p]), s), s + 7;
      Accumulate(r, Low7(data[p]), s);
      ReadU32FromMore(data, e, p, r, s, x);
      ReadU32FromTrailingZero(data, e, p', x, s', k - 1);
    }
  }

  /** A zero byte after one to four continuation bytes: "not shortest encoding". */
  lemma ReadU32TrailingZero(data: seq<byte>, e: nat, p: nat, k: nat)
    requires e <= |data| && 1 <= k <= 4 && p + k < e
    requires Continued(data, p, p + k) && data[p + k] == 0x00
    ensures ReadU32(data, e, p) == Trapped(NotShortest)
  {
    ReadU32FromTrailingZero(data, e, p, 0, 0, k);
  }

  lemma {:induction false} ReadU32FromFifth(data: seq<byte>, e: nat, p: nat, r: int, s: nat, k: nat)
    requires e <= |data| && IsShift(s) && 0 <= r < Shl(1, s)
    requires s + 7 * k == 28 && p + k < e
    requires Continued(data, p, p + k) && UpperNibble(data[p + k]) != 0x0
    ensures ReadU32From(data, e, p, r, s) == Trapped(IntOverflow)
    decreases k
  {
    if k > 0 {
      var p', x, s' := p + 1, r + Shl(Low7(data[p]), s), s + 7;
      Accumulate(r, Low7(data[p]), s);
      ReadU32FromMore(data, e, p, r, s, x);
      ReadU32FromFifth(data, e, p', x, s', k - 1);
    }
  }

  /** A fifth byte with any of its upper four bits set: "int overflow". */
  lemma ReadU32Overflow(data: seq<byte>, e: nat, p: nat)
    requires e <= |data| && p + 4 < e
    requires Continued(data, p, p + 4) && UpperNibble(data[p + 4]) != 0x0
    ensures ReadU32(data, e, p) == Trapped(IntOverflow)
  {
    ReadU32FromFifth(data, e, p, 0, 0, 4);
  }

  lemma {:induction false} ReadU32FromTruncated(data: seq<byte>, e: nat, p: nat, r: int, s: nat)
    requires e <= |data| && IsShift(s) && 0 <= r < Shl(1, s)
    requires p <= e && s + 7 * (e - p) <= 28 && Continued(data, p, e)
    ensures ReadU32From(data, e, p, r, s) == Trapped(OutOfBounds)
    decreases e - p
  {
    if p < e {
      var p', x, s' := p + 1, r + Shl(Low7(data[p]), s), s + 7;
      Accumulate(r, Low7(data[p]), s);
      ReadU32FromMore(data, e, p, r, s, x);
      ReadU32FromTruncated(data, e, p', x, s');
    }
  }

  /** A group cut off by the end of the buffer, within its first five bytes: read_byte traps. */
  lemma ReadU32Truncated(data: seq<byte>, e: nat, p: nat)
    requires e <= |data| && p <= e <= p + 4 && Continued(data, p, e)
    ensures ReadU32(data, e, p) == Trapped(OutOfBounds)
  {
    ReadU32FromTruncated(data, e, p, 0, 0);
  }

  // ------------------------------------------------------------------------
  // What read_i32_of_sleb128 accepts and returns

  /**
   * Every value in [-2^32, 2^32) is read back from its shortest encoding,
   * at most five bytes long, as the int32_t with the same low 32 bits.
   */
  lemma ReadI32Complete(data: seq<byte>, e: nat, p: nat, w: int)
    requires e <= |data| && InSlebRange(w) && At(data, e, p, EncodeS(w))
    ensures ReadI32(data, e, p) == Ok(Int32Wrap(w), p + |EncodeS(w)|)
    ensures |EncodeS(w)| <= 5
  {
    ReadI32FromEncoding(data, e, p, 0, 0, false, w, w, p + |EncodeS(w)|);
    ReadI32FromSound(data, e, p, 0, 0, false, Int32Wrap(w), p + |EncodeS(w)|);
  }

  /** In particular every int32_t value is read back exactly from its encoding. */
  lemma ReadI32CompleteInt32(data: seq<byte>, e: nat, p: nat, v: int)
    requires e <= |data| && IsI32(v) && At(data, e, p, EncodeS(v))
    ensures ReadI32(data, e, p) == Ok(v, p + |EncodeS(v)|)
  {
    ReadI32Complete(data, e, p, v);
    Int32WrapIdentity(v);
  }

  /**
   * What the decoder accepts is the shortest encoding, at most five bytes
   * long, of a value w in [-2^32, 2^32), and the result is w truncated to
   * 32 bits.
   */
  lemma ReadI32Sound(data: seq<byte>, e: nat, p: nat)
    requires e <= |data| && ReadI32(data, e, p).Ok?
    ensures var res := ReadI32(data, e, p);
      && p < res.next <= e && res.next <= p + 5
      && var w := SlebValue(data[p..res.next]);
      && InSlebRange(w) && data[p..res.next] == EncodeS(w)
      && res.value == Int32Wrap(w)
  {
    var res := ReadI32(data, e, p);
    ReadI32FromSound(data, e, p, 0, 0, false, res.value, res.next);
  }

  /** The decoder succeeds exactly on the buffers that start with the encoding of a value in [-2^32, 2^32). */
  lemma ReadI32Iff(data: seq<byte>, e: nat, p: nat)
    requires e <= |data|
    ensures ReadI32(data, e, p).Ok? <==> exists w: int :: InSlebRange(w) && At(data, e, p, EncodeS(w))
  {
    if ReadI32(data, e, p).Ok? {
      ReadI32Sound(data, e, p);
      var res := ReadI32(data, e, p);
      assert At(data, e, p, EncodeS(SlebValue(data[p..res.next])));
    }
    if exists w: int :: InSlebRange(w) && At(data, e, p, EncodeS(w)) {
      var w: int :| InSlebRange(w) && At(data, e, p, EncodeS(w));
      ReadI32Complete(data, e, p, w);
    }
  }

  /**
   * The result is the value of the bytes read exactly when that value is
   * an int32_t; the accepted groups outside that range are five-byte ones
   * whose value wraps.
   */
  lemma ReadI32Exact(data: seq<byte>, e: nat, p: nat)
    requires e <= |data| && ReadI32(data, e, p).Ok?
    ensures var res := ReadI32(data, e, p);
      var w := SlebValue(data[p..res.next]);
      (res.value == w <==> IsI32(w)) && (!IsI32(w) ==> res.next == p + 5)
  {
    ReadI32Sound(data, e, p);
    var res := ReadI32(data, e, p);
    var w := SlebValue(data[p..res.next]);
    if IsI32(w) {
      Int32WrapIdentity(w);
    }
    if res.next < p + 5 {
      ReadI32Short(data[p..res.next]);
    }
  }

  /** 64 * 128^(k - 1): the values of k bytes of SLEB128 lie in [-SlebBound(k), SlebBound(k)). */
  function SlebBound(k: nat): int
    requires k >= 1
  {
    if k == 1 then 64 else 128 * SlebBound(k - 1)
  }

  lemma {:induction false} SlebValueBounded(bs: seq<byte>)
    requires |bs| >= 1
    ensures -SlebBound(|bs|) <= SlebValue(bs) < SlebBound(|bs|)
  {
    if |bs| > 1 {
      SlebValueBounded(bs[1..]);
      assert SlebValue(bs) == Low7(bs[0]) + 128 * SlebValue(bs[1..]);
      assert SlebBound(|bs|) == 128 * SlebBound(|bs[1..]|);
    }
  }

  /** A group of at most four bytes holds a value in [-2^27, 2^27). */
  lemma ReadI32Short(bs: seq<byte>)
    requires 1 <= |bs| <= 4
    ensures IsI32(SlebValue(bs))
  {
    SlebValueBounded(bs);
    if |bs| == 1 {
      assert SlebBound(1) == 64;
    } else if |bs| == 2 {
      assert SlebBound(2) == 0x2000;
    } else if |bs| == 3 {
      assert SlebBound(3) == 0x10_0000;
    } else {
      assert SlebBound(4) == 0x800_0000;
    }
  }

  /**
   * The example of the loose fifth byte: 0x08 in fifth place sets bit 31,
   * the group denotes 2^31, which is no int32_t, and the decoder returns
   * -2^31, whose own encoding ends in 0x78.
   */
  lemma LooseFifthByte()
    ensures ReadI32([0x80, 0x80, 0x80, 0x80, 0x08], 5, 0) == Ok(I32_MIN, 5)
    ensures SlebValue([0x80, 0x80, 0x80, 0x80, 0x08]) == 0x8000_0000
    ensures EncodeS(I32_MIN) == [0x80, 0x80, 0x80, 0x80, 0x78]
  {
  }

  lemma ReadI32FromRedundantHere(data: seq<byte>, e: nat, p: nat, r: int, s: nat, lastSignBitSet: bool)
    requires e <= |data| && IsShift(s) && s > 0 && p < e
    requires (!lastSignBitSet && data[p] == 0x00) || (lastSignBitSet && data[p] == 0x7F)
    ensures ReadI32From(data, e, p, r, s, lastSignBitSet) == Trapped(NotShortest)
  {
  }

  lemma {:induction false} ReadI32FromRedundant(data: seq<byte>, e: nat, p: nat, r: int, s: nat, lastSignBitSet: bool, k: nat)
    requires e <= |data| && IsShift(s) && 0 <= r < Shl(1, s)
    requires 1 <= k && s + 7 * k <= 28 && p + k < e && Continued(data, p, p + k)
    requires (!SignBit(data[p + k - 1]) && data[p + k] == 0x00) || (SignBit(data[p + k - 1]) && data[p + k] == 0x7F)
    ensures ReadI32From(data, e, p, r, s, lastSignBitSet) == Trapped(NotShortest)
    decreases k
  {
    var x := r + Shl(Low7(data[p]), s);
    ReadI32FromMore(data, e, p, r, s, lastSignBitSet, x);
    if k == 1 {
      ReadI32FromRedundantHere(data, e, p + 1, x, s + 7, SignBit(data[p]));
    } else {
      ReadI32FromRedundant(data, e, p + 1, x, s + 7, SignBit(data[p]), k - 1);
    }
  }

  /**
   * After one to four continuation bytes, a byte 0x00 when the byte before
   * has bit 6 clear, or 0x7F when it has bit 6 set, only repeats the sign:
   * "not shortest encoding".
   */
  lemma ReadI32Redundant(data: seq<byte>, e: nat, p: nat, k: nat)
    requires e <= |data| && 1 <= k <= 4 && p + k < e && Continued(data, p, p + k)
    requires (!SignBit(data[p + k - 1]) && data[p + k] == 0x00) || (SignBit(data[p + k - 1]) && data[p + k] == 0x7F)
    ensures ReadI32(data, e, p) == Trapped(NotShortest)
  {
    ReadI32FromRedundant(data, e, p, 0, 0, false, k);
  }

  lemma {:induction false} ReadI32FromFifth(data: seq<byte>, e: nat, p: nat, r: int, s: nat, lastSignBitSet: bool, k: nat)
    requires e <= |data| && IsShift(s) && 0 <= r < Shl(1, s)
    requires s + 7 * k == 28 && p + k < e && Continued(data, p, p + k)
    requires UpperNibble(data[p + k]) != 0x0 && UpperNibble(data[p + k]) != 0x7
    ensures ReadI32From(data, e, p, r, s, lastSignBitSet) == Trapped(IntOverflow)
    decreases k
  {
    if k > 0 {
      var x := r + Shl(Low7(data[p]), s);
      ReadI32FromMore(data, e, p, r, s, lastSignBitSet, x);
      ReadI32FromFifth(data, e, p + 1, x, s + 7, SignBit(data[p]), k - 1);
    }
  }

  /** A fifth byte whose upper nibble is neither 0x0 nor 0x7: "int overflow". */
  lemma ReadI32Overflow(data: seq<byte>, e: nat, p: nat)
    requires e <= |data| && p + 4 < e && Continued(data, p, p + 4)
    requires UpperNibble(data[p + 4]) != 0x0 && UpperNibble(data[p + 4]) != 0x7
    ensures ReadI32(data, e, p) == Trapped(IntOverflow)
  {
    ReadI32FromFifth(data, e, p, 0, 0, false, 4);
  }

  lemma {:induction false} ReadI32FromTruncated(data: seq<byte>, e: nat, p: nat, r: int, s: nat, lastSignBitSet: bool)
    requires e <= |data| && IsShift(s) && 0 <= r < Shl(1, s)
    requires p <= e && s + 7 * (e - p) <= 28 && Continued(data, p, e)
    ensures ReadI32From(data, e, p, r, s, lastSignBitSet) == Trapped(OutOfBounds)
    decreases e - p
  {
    if p < e {
      var x := r + Shl(Low7(data[p]), s);
      ReadI32FromMore(data, e, p, r, s, lastSignBitSet, x);
      ReadI32FromTruncated(data, e, p + 1, x, s + 7, SignBit(data[p]));
    }
  }

  /** A signed group cut off by the end of the buffer, within its first five bytes: read_byte traps. */
  lemma ReadI32Truncated(data: seq<byte>, e: nat, p: nat)
    requires e <= |data| && p <= e <= p + 4 && Continued(data, p, e)
    ensures ReadI32(data, e, p) == Trapped(OutOfBounds)
  {
    ReadI32FromTruncated(data, e, p, 0, 0, false);
  }

  /**
   * The shortest encoding of a value of 2^32 or more is refused as "int
   * overflow": its first four bytes carry the continuation bit and its fifth
   * holds bits above the 32nd.
   */
  lemma ReadU32TooLarge(data: seq<byte>, e: nat, p: nat, v: nat)
    requires e <= |data| && v >= U32_MOD && At(data, e, p, EncodeU(v))
    ensures ReadU32(data, e, p) == Trapped(IntOverflow)
  {
    var bs := EncodeU(v);
    EncodeUFifth(v);
    EncodeUShape(v);
    forall i | p <= i < p + 4
      ensures HasMore(data[i])
    {
      assert data[i] == bs[i - p];
    }
    assert data[p + 4] == bs[4];
    ReadU32Overflow(data, e, p);
  }

  /** The encoding of a value of 2^32 or more has a fifth byte whose upper nibble is nonzero. */
  lemma EncodeUFifth(v: nat)
    requires v >= U32_MOD
    ensures |EncodeU(v)| > 4 && UpperNibble(EncodeU(v)[4]) != 0x0
  {
    var v1, v2, v3 := v / 128, v / 128 / 128, v / 128 / 128 / 128;
    var v4 := v3 / 128;
    assert v1 >= 0x200_0000;
    assert v2 >= 0x4_0000;
    assert v3 >= 0x800;
    assert v4 >= 16;
    EncodeUTail(v);
    EncodeUTail(v1);
    EncodeUTail(v2);
    EncodeUTail(v3);
    assert EncodeU(v)[4] == EncodeU(v1)[3] == EncodeU(v2)[2] == EncodeU(v3)[1] == EncodeU(v4)[0];
  }

  lemma EncodeUTail(v: nat)
    requires v >= 128
    ensures |EncodeU(v)| == |EncodeU(v / 128)| + 1 && EncodeU(v)[1..] == EncodeU(v / 128)
  {
  }

  // ------------------------------------------------------------------------
  // The decoders on a buffer that is cut short

  /** With an end e' <= e and the same bytes before it, the unsigned loop gives the same outcome or a bounds trap. */
  lemma {:induction false} ReadU32FromCut(data: seq<byte>, e: nat, data': seq<byte>, e': nat, p: nat, r: int, s: nat)
    requires e <= |data| && e' <= e && Agree(data, data', p, e') && IsShift(s)
    ensures Shortened(ReadU32From(data', e', p, r, s), ReadU32From(data, e, p, r, s), e')
    decreases 28 - s
  {
    var whole, whole' := ReadU32From(data, e, p, r, s), ReadU32From(data', e', p, r, s);
    if p >= e' {
      assert whole' == Trapped(OutOfBounds);
    } else {
      var b := data[p];
      assert data'[p] == b;
      if s > 0 && b == 0x00 {
        assert whole == whole' == Trapped(NotShortest);
      } else if s == 28 && UpperNibble(b) != 0x0 {
        assert whole == whole' == Trapped(IntOverflow);
      } else {
        var r' := (r + Shl(Low7(b), s)) % U32_MOD;
        if HasMore(b) {
          assert whole == ReadU32From(data, e, p + 1, r', s + 7);
          assert whole' == ReadU32From(data', e', p + 1, r', s + 7);
          ReadU32FromCut(data, e, data', e', p + 1, r', s + 7);
        } else {
          assert whole == whole' == Ok(r', p + 1);
        }
      }
    }
  }

  lemma ReadU32Cut(data: seq<byte>, e: nat, data': seq<byte>, e': nat, p: nat)
    requires e <= |data| && e' <= e && Agree(data, data', p, e')
    ensures Shortened(ReadU32(data', e', p), ReadU32(data, e, p), e')
  {
    ReadU32FromCut(data, e, data', e', p, 0, 0);
  }

  /** With an end e' <= e and the same bytes before it, the signed loop gives the same outcome or a bounds trap. */
  lemma {:induction false} ReadI32FromCut(data: seq<byte>, e: nat, data': seq<byte>, e': nat, p: nat, r: int, s: nat, lastSignBitSet: bool)
    requires e <= |data| && e' <= e && Agree(data, data', p, e') && IsShift(s)
    ensures Shortened(ReadI32From(data', e', p, r, s, lastSignBitSet), ReadI32From(data, e, p, r, s, lastSignBitSet), e')
    decreases 28 - s
  {
    var whole, whole' := ReadI32From(data, e, p, r, s, lastSignBitSet), ReadI32From(data', e', p, r, s, lastSignBitSet);
    if p >= e' {
      assert whole' == Trapped(OutOfBounds);
    } else {
      var b := data[p];
      assert data'[p] == b;
      if s == 28 && !(UpperNibble(b) == 0x0 || UpperNibble(b) == 0x7) {
        assert whole == whole' == Trapped(IntOverflow);
      } else if s > 0 && ((!lastSignBitSet && b == 0x00) || (lastSignBitSet && b == 0x7F)) {
        assert whole == whole' == Trapped(NotShortest);
      } else {
        var r' := (r + Shl(Low7(b), s)) % U32_MOD;
        if HasMore(b) {
          assert whole == ReadI32From(data, e, p + 1, r', s + 7, SignBit(b));
          assert whole' == ReadI32From(data', e', p + 1, r', s + 7, SignBit(b));
          ReadI32FromCut(data, e, data', e', p + 1, r', s + 7, SignBit(b));
        } else {
          var r'' := if s + 7 < 32 && SignBit(b) then SignExtend(r', s + 7) else r';
          assert whole == whole' == Ok(ToInt32(r''), p + 1);
        }
      }
    }
  }

  lemma ReadI32Cut(data: seq<byte>, e: nat, data': seq<byte>, e': nat, p: nat)
    requires e <= |data| && e' <= e && Agree(data, data', p, e')
    ensures Shortened(ReadI32(data', e', p), ReadI32(data, e, p), e')
  {
    ReadI32FromCut(data, e, data', e', p, 0, 0, false);
  }
}
