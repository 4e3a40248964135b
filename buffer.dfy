/**
 * The byte buffer the IDL decoder reads from: an immutable byte range, a
 * mutable cursor p and an end e. Only the two bounds-checked primitives the
 * decoder calls, read_byte and read_word, are modelled; buf.h itself is not
 * part of this model.
 *
 * Positions are unbounded naturals: the decoder moves p forward without a
 * check when it skips annotation bytes and method names, so p may pass e, and
 * only the next read then traps.
 */
module Buffer {
  import opened Bits
  import opened Outcome

  /** read_byte: traps unless p < e, otherwise yields data[p] and advances by one. */
  function ReadByteAt(data: seq<byte>, e: nat, p: nat): (r: Result<byte>)
    requires e <= |data|
    ensures r.Ok? <==> p < e
    ensures r.Ok? ==> r.value == data[p] && r.next == p + 1
    ensures r.Trapped? ==> r.reason == OutOfBounds
  {
    if p < e then Ok(data[p], p + 1) else Trapped(OutOfBounds)
  }

  /** read_word: traps unless four bytes remain, otherwise yields them little-endian and advances by four. */
  function ReadWordAt(data: seq<byte>, e: nat, p: nat): (r: Result<int>)
    requires e <= |data|
    ensures r.Ok? <==> p + 4 <= e
    ensures r.Ok? ==> IsU32(r.value) && r.next == p + 4
    ensures r.Trapped? ==> r.reason == OutOfBounds
  {
    if p + 4 <= e then Ok(LittleEndian32(data[p], data[p + 1], data[p + 2], data[p + 3]), p + 4)
    else Trapped(OutOfBounds)
  }

  /** The bytes bs stand, in the readable part of the buffer, from position p on. */
  predicate At(data: seq<byte>, e: nat, p: nat, bs: seq<byte>)
  {
    e <= |data| && p + |bs| <= e && data[p..p + |bs|] == bs
  }

  lemma AtSplit(data: seq<byte>, e: nat, p: nat, a: seq<byte>, b: seq<byte>)
    ensures At(data, e, p, a + b) <==> At(data, e, p, a) && At(data, e, p + |a|, b)
  {
    if At(data, e, p, a + b) {
      assert data[p..p + |a|] == (a + b)[..|a|];
      assert data[p + |a|..p + |a| + |b|] == (a + b)[|a|..];
    }
    if At(data, e, p, a) && At(data, e, p + |a|, b) {
      assert data[p..p + |a| + |b|] == data[p..p + |a|] + data[p + |a|..p + |a| + |b|];
    }
  }

  /** Bytes a + b standing at p: a stands at p and b at q, right after a. */
  lemma AtParts(data: seq<byte>, e: nat, p: nat, a: seq<byte>, b: seq<byte>, q: nat)
    requires At(data, e, p, a + b) && q == p + |a|
    ensures At(data, e, p, a) && At(data, e, q, b)
  {
    AtSplit(data, e, p, a, b);
  }

  lemma AtCons(data: seq<byte>, e: nat, p: nat, b: byte, bs: seq<byte>)
    requires At(data, e, p, [b] + bs)
    ensures p < e && data[p] == b && At(data, e, p + 1, bs)
  {
    AtSplit(data, e, p, [b], bs);
  }

  // ------------------------------------------------------------------------
  // Reading a buffer that is cut short, or that differs in bytes never read

  /** Two buffers hold the same bytes from lo up to hi. */
  predicate Agree(data: seq<byte>, data': seq<byte>, lo: nat, hi: nat)
  {
    hi <= |data| && hi <= |data'| && forall i {:trigger data'[i]} :: lo <= i < hi ==> data'[i] == data[i]
  }

  /**
   * How a read r' on a buffer that ends at e' relates to the same read r on a
   * buffer that ends later and holds the same bytes before e': the same
   * outcome, or a bounds trap, which the longer buffer gets past only by
   * reading beyond e'.
   */
  predicate Shortened<T(==)>(r': Result<T>, r: Result<T>, e': nat)
  {
    r' == r || (r' == Trapped(OutOfBounds) && !(r.Ok? && r.next <= e'))
  }

  lemma ReadByteCut(data: seq<byte>, e: nat, data': seq<byte>, e': nat, p: nat)
    requires e <= |data| && e' <= e && Agree(data, data', p, e')
    ensures Shortened(ReadByteAt(data', e', p), ReadByteAt(data, e, p), e')
  {
  }

  lemma ReadWordCut(data: seq<byte>, e: nat, data': seq<byte>, e': nat, p: nat)
    requires e <= |data| && e' <= e && Agree(data, data', p, e')
    ensures Shortened(ReadWordAt(data', e', p), ReadWordAt(data, e, p), e')
  {
  }

  class Buf {
    const data: seq<byte>
    const e: nat
    var p: nat

    predicate Valid()
    {
      e <= |data|
    }

    constructor (data: seq<byte>, p: nat, e: nat)
      requires e <= |data|
      ensures Valid() && this.data == data && this.p == p && this.e == e
    {
      this.data := data;
      this.e := e;
      this.p := p;
    }

    method ReadByte() returns (r: Result<byte>)
      requires Valid()
      modifies this`p
      ensures r == ReadByteAt(data, e, old(p))
      ensures p == if r.Ok? then r.next else old(p)
    {
      if p >= e {
        return Trapped(OutOfBounds);
      }
      r := Ok(data[p], p + 1);
      p := p + 1;
    }

    method ReadWord() returns (r: Result<int>)
      requires Valid()
      modifies this`p
      ensures r == ReadWordAt(data, e, old(p))
      ensures p == if r.Ok? then r.next else old(p)
    {
      if p + 4 > e {
        return Trapped(OutOfBounds);
      }
      r := Ok(LittleEndian32(data[p], data[p + 1], data[p + 2], data[p + 3]), p + 4);
      p := p + 4;
    }
  }
}
