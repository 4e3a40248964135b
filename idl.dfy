/**
 * The code of rts/idl.c as it runs: read_u32_of_leb128, read_i32_of_sleb128
 * and parse_idl_header as methods that move the cursor of a Buf, with the
 * same loops, the same checks in the same order and the same traps. Each
 * method is proved to agree with the function of Leb128 or IdlHeader that
 * describes it, so everything proved about those functions holds for the
 * code.
 *
 * A trap ends the C program; here the method returns Trapped with the
 * reason, and the cursor is then left unspecified. The loops of
 * parse_idl_header only check what they read and build nothing, so the
 * methods that model them report the outcome (the trap, or success at a
 * cursor) without the values the functions collect.
 */
module Idl {
  import opened Bits
  import opened Outcome
  import opened Buffer
  import opened Leb128
  import opened IdlHeader

  /**
   * The outcome of r without its value: the same trap, or success at the
   * same cursor. It is what a check that builds nothing returns.
   */
  function Shape<T>(r: Result<T>): Result<()>
  {
    match r
    case Trapped(t) => Trapped(t)
    case Ok(_, q) => Ok((), q)
  }

  /** read_u32_of_leb128 */
  method ReadU32OfLeb128(buf: Buf) returns (res: Result<int>)
    requires buf.Valid()
    modifies buf`p
    ensures res == ReadU32(buf.data, buf.e, old(buf.p))
    ensures res.Ok? ==> buf.p == res.next
  {
    ghost var p0 := buf.p;
    var r, s := 0, 0;
    while true
      invariant IsShift(s)
      invariant ReadU32From(buf.data, buf.e, buf.p, r, s) == ReadU32(buf.data, buf.e, p0)
      decreases 28 - s
    {
      var rb := buf.ReadByte();
      if rb.Trapped? {
        return Trapped(rb.reason);
      }
      var b := rb.value;
      if s > 0 && b == 0x00 {
        return Trapped(NotShortest);
      }
      if s == 28 && UpperNibble(b) != 0x0 {
        return Trapped(IntOverflow);
      }
      r := (r + Shl(Low7(b), s)) % U32_MOD;
      if !HasMore(b) {
        return Ok(r, buf.p);
      }
      s := s + 7;
    }
  }

  /** read_i32_of_sleb128, with the sign extension after the loop and the final reading as an int32_t. */
  method ReadI32OfSleb128(buf: Buf) returns (res: Result<int>)
    requires buf.Valid()
    modifies buf`p
    ensures res == ReadI32(buf.data, buf.e, old(buf.p))
    ensures res.Ok? ==> buf.p == res.next
  {
    ghost var p0 := buf.p;
    var r, s, lastSignBitSet := 0, 0, false;
    while true
      invariant IsShift(s)
      invariant ReadI32From(buf.data, buf.e, buf.p, r, s, lastSignBitSet) == ReadI32(buf.data, buf.e, p0)
      decreases 28 - s
    {
      var rb := buf.ReadByte();
      if rb.Trapped? {
        return Trapped(rb.reason);
      }
      var b := rb.value;
      if s == 28 && !(UpperNibble(b) == 0x0 || UpperNibble(b) == 0x7) {
        return Trapped(IntOverflow);
      }
      if s > 0 && ((!lastSignBitSet && b == 0x00) || (lastSignBitSet && b == 0x7F)) {
        return Trapped(NotShortest);
      }
      var signBitSet := SignBit(b);
      var r' := (r + Shl(Low7(b), s)) % U32_MOD;
      if !HasMore(b) {
        if s + 7 < 32 && signBitSet {
          r' := SignExtend(r', s + 7);
        }
        return Ok(ToInt32(r'), buf.p);
      }
      r, s, lastSignBitSet := r', s + 7, signBitSet;
    }
  }

  /** `int n = read_u32_of_leb128(buf)`: a loop count, 2^31 and above negative. */
  method ReadLoopCount(buf: Buf) returns (res: Result<int>)
    requires buf.Valid()
    modifies buf`p
    ensures res == ReadCount(buf.data, buf.e, old(buf.p))
    ensures res.Ok? ==> buf.p == res.next
  {
    var u := ReadU32OfLeb128(buf);
    if u.Trapped? {
      return Trapped(u.reason);
    }
    return Ok(ToInt32(u.value), u.next);
  }

  /** A type reference and its range check, "type index out of range". */
  method ReadTypeIndex(buf: Buf, nTypes: int) returns (res: Result<int>)
    requires buf.Valid()
    modifies buf`p
    ensures res == ReadRef(buf.data, buf.e, old(buf.p), nTypes)
    ensures res.Ok? ==> buf.p == res.next
  {
    var t := ReadI32OfSleb128(buf);
    if t.Trapped? {
      return Trapped(t.reason);
    }
    if t.value < IDL_PRIM_lowest || t.value >= nTypes {
      return Trapped(IndexOutOfRange);
    }
    return t;
  }

  /** The loop over n type references of a func declaration or of the main types. */
  method ReadTypeIndices(buf: Buf, n: int, nTypes: int) returns (res: Result<()>)
    requires buf.Valid()
    modifies buf`p
    ensures res == Shape(ReadRefs(buf.data, buf.e, old(buf.p), n, nTypes))
    ensures res.Ok? ==> buf.p == res.next
  {
    ghost var p0 := buf.p;
    var k := n;
    while k > 0
      invariant Shape(ReadRefs(buf.data, buf.e, buf.p, k, nTypes)) == Shape(ReadRefs(buf.data, buf.e, p0, n, nTypes))
      decreases k
    {
      var t := ReadTypeIndex(buf, nTypes);
      if t.Trapped? {
        return Trapped(t.reason);
      }
      k := k - 1;
    }
    return Ok((), buf.p);
  }

  /** A count and that many type references. */
  method ReadTypeIndexList(buf: Buf, nTypes: int) returns (res: Result<()>)
    requires buf.Valid()
    modifies buf`p
    ensures res == Shape(ReadRefList(buf.data, buf.e, old(buf.p), nTypes))
    ensures res.Ok? ==> buf.p == res.next
  {
    var n := ReadLoopCount(buf);
    if n.Trapped? {
      return Trapped(n.reason);
    }
    res := ReadTypeIndices(buf, n.value, nTypes);
  }

  /** The loop over the n fields of a record or variant: an id, not checked, and a type reference. */
  method ReadFieldList(buf: Buf, n: int, nTypes: int) returns (res: Result<()>)
    requires buf.Valid()
    modifies buf`p
    ensures res == Shape(ReadFields(buf.data, buf.e, old(buf.p), n, nTypes))
    ensures res.Ok? ==> buf.p == res.next
  {
    ghost var p0 := buf.p;
    var k := n;
    while k > 0
      invariant Shape(ReadFields(buf.data, buf.e, buf.p, k, nTypes)) == Shape(ReadFields(buf.data, buf.e, p0, n, nTypes))
      decreases k
    {
      var id := ReadU32OfLeb128(buf);
      if id.Trapped? {
        return Trapped(id.reason);
      }
      var t := ReadTypeIndex(buf, nTypes);
      if t.Trapped? {
        return Trapped(t.reason);
      }
      k := k - 1;
    }
    return Ok((), buf.p);
  }

  /** The loop over the n methods of a service: the name is skipped without a bounds check. */
  method ReadMethodList(buf: Buf, n: int, nTypes: int) returns (res: Result<()>)
    requires buf.Valid()
    modifies buf`p
    ensures res == Shape(ReadMethods(buf.data, buf.e, old(buf.p), n, nTypes))
    ensures res.Ok? ==> buf.p == res.next
  {
    ghost var p0 := buf.p;
    var k := n;
    while k > 0
      invariant Shape(ReadMethods(buf.data, buf.e, buf.p, k, nTypes)) == Shape(ReadMethods(buf.data, buf.e, p0, n, nTypes))
      decreases k
    {
      var size := ReadU32OfLeb128(buf);
      if size.Trapped? {
        return Trapped(size.reason);
      }
      buf.p := buf.p + size.value;
      var t := ReadTypeIndex(buf, nTypes);
      if t.Trapped? {
        return Trapped(t.reason);
      }
      k := k - 1;
    }
    return Ok((), buf.p);
  }

  /** The annotation loop of a func declaration: the cursor moves by one byte per iteration, unchecked. */
  method SkipBytes(buf: Buf, n: int)
    modifies buf`p
    ensures buf.p == old(buf.p) + Iterations(n)
  {
    var k := n;
    while k > 0
      invariant (n <= 0 && k == n) || (0 <= k <= n)
      invariant buf.p == old(buf.p) + Iterations(n) - Iterations(k)
      decreases k
    {
      buf.p := buf.p + 1;
      k := k - 1;
    }
  }

  /** The body of a func declaration: argument types, result types, annotations. */
  method ReadFuncSignature(buf: Buf, nTypes: int) returns (res: Result<()>)
    requires buf.Valid()
    modifies buf`p
    ensures res == Shape(ReadFuncBody(buf.data, buf.e, old(buf.p), nTypes))
    ensures res.Ok? ==> buf.p == res.next
  {
    var args := ReadTypeIndexList(buf, nTypes);
    if args.Trapped? {
      return Trapped(args.reason);
    }
    var rets := ReadTypeIndexList(buf, nTypes);
    if rets.Trapped? {
      return Trapped(rets.reason);
    }
    var n := ReadLoopCount(buf);
    if n.Trapped? {
      return Trapped(n.reason);
    }
    SkipBytes(buf, n.value);
    return Ok((), buf.p);
  }

  /** The body of the loop over the type table: one declaration, dispatched on its tag. */
  method ReadDeclaration(buf: Buf, nTypes: int) returns (res: Result<()>)
    requires buf.Valid()
    modifies buf`p
    ensures res == Shape(ReadTypeDecl(buf.data, buf.e, old(buf.p), nTypes))
    ensures res.Ok? ==> buf.p == res.next
  {
    var ty := ReadI32OfSleb128(buf);
    if ty.Trapped? {
      return Trapped(ty.reason);
    }
    if ty.value >= IDL_PRIM_lowest {
      return Trapped(TypeIndexTooHigh);
    } else if ty.value == IDL_CON_opt || ty.value == IDL_CON_vec {
      var t := ReadTypeIndex(buf, nTypes);
      if t.Trapped? {
        return Trapped(t.reason);
      }
      return Ok((), buf.p);
    } else if ty.value == IDL_CON_record || ty.value == IDL_CON_variant {
      var n := ReadLoopCount(buf);
      if n.Trapped? {
        return Trapped(n.reason);
      }
      res := ReadFieldList(buf, n.value, nTypes);
    } else if ty.value == IDL_CON_func {
      res := ReadFuncSignature(buf, nTypes);
    } else if ty.value == IDL_CON_service {
      var n := ReadLoopCount(buf);
      if n.Trapped? {
        return Trapped(n.reason);
      }
      res := ReadMethodList(buf, n.value, nTypes);
    } else {
      return Trapped(FutureType);
    }
  }

  /** The cursors recorded for one more entry: those before it, then its own. */
  lemma OffsetsSnoc(pre: seq<Entry>, x: Entry)
    ensures Offsets(pre + [x]) == Offsets(pre) + [x.at]
  {
  }

  /**
   * What parse_idl_header hands back, given what the header reads as: the
   * same trap, or main_types_out as the value, the final cursor, and in
   * typtbl where each declaration begins.
   */
  predicate Delivers(spec: Result<Header>, res: Result<nat>, typtbl: seq<nat>)
  {
    match spec
    case Trapped(t) => res == Trapped(t)
    case Ok(h, q) => res == Ok(h.mainTypesAt, q) && typtbl == Offsets(h.entries)
  }

  /** The part of parse_idl_header after the loop over the type table, given the outcome of that loop. */
  function AfterTable(data: seq<byte>, e: nat, nTypes: int, table: Result<seq<Entry>>): Result<Header>
    requires e <= |data|
  {
    match table
    case Trapped(x) => Trapped(x)
    case Ok(es, q) =>
      match ReadRefList(data, e, q, nTypes)
      case Trapped(x) => Trapped(x)
      case Ok(mains, q') => Ok(Header(es, q, mains), q')
  }

  /** A header whose magic and count are accepted reads as what follows the type table. */
  lemma ParseHeaderTable(data: seq<byte>, e: nat, p: nat, nTypes: int, q: nat)
    requires e <= |data| && ReadWordAt(data, e, p) == Ok(DIDL_MAGIC, p + 4)
    requires ReadCount(data, e, p + 4) == Ok(nTypes, q) && 0 <= nTypes && q + nTypes < e
    ensures ParseHeader(data, e, p) == AfterTable(data, e, nTypes, ReadTypeTable(data, e, q, nTypes, nTypes))
  {
  }

  /** The loop over the type table of parse_idl_header, recording in typtbl where each declaration begins. */
  method ReadTypeTableInto(buf: Buf, typtbl: array<nat>, nTypes: nat) returns (res: Result<()>)
    requires buf.Valid() && typtbl.Length == nTypes
    modifies buf`p, typtbl
    ensures res == Shape(ReadTypeTable(buf.data, buf.e, old(buf.p), nTypes, nTypes))
    ensures res.Ok? ==> buf.p == res.next && typtbl[..] == Offsets(ReadTypeTable(buf.data, buf.e, old(buf.p), nTypes, nTypes).value)
  {
    ghost var p0 := buf.p;
    ghost var pre: seq<Entry> := [];
    var i := 0;
    while i < nTypes
      invariant 0 <= i <= nTypes
      invariant ReadTypeTable(buf.data, buf.e, p0, i, nTypes) == Ok(pre, buf.p)
      invariant typtbl[..i] == Offsets(pre)
    {
      ghost var at := buf.p;
      typtbl[i] := buf.p;
      var d := ReadDeclaration(buf, nTypes);
      if d.Trapped? {
        ReadTypeTableTrapStep(buf.data, buf.e, p0, i, nTypes, pre, at, d.reason);
        ReadTypeTableTrapped(buf.data, buf.e, p0, i + 1, nTypes, nTypes, d.reason);
        return Trapped(d.reason);
      }
      ghost var desc := ReadTypeDecl(buf.data, buf.e, at, nTypes).value;
      ReadTypeTableStep(buf.data, buf.e, p0, i, nTypes, pre, at, desc, buf.p);
      OffsetsSnoc(pre, Entry(at, desc));
      assert typtbl[..i + 1] == typtbl[..i] + [at];
      pre := pre + [Entry(at, desc)];
      i := i + 1;
    }
    assert typtbl[..] == typtbl[..nTypes];
    return Ok((), buf.p);
  }

  /** parse_idl_header; the value of a success is main_types_out. */
  method ParseIdlHeader(buf: Buf) returns (res: Result<nat>, typtbl: array<nat>)
    requires buf.Valid()
    modifies buf`p
    ensures fresh(typtbl)
    ensures Delivers(ParseHeader(buf.data, buf.e, old(buf.p)), res, typtbl[..])
    ensures res.Ok? ==> buf.p == res.next
  {
    typtbl := new nat[0];
    var w := buf.ReadWord();
    if w.Trapped? {
      return Trapped(w.reason), typtbl;
    }
    if w.value != DIDL_MAGIC {
      return Trapped(MissingMagic), typtbl;
    }
    var c := ReadLoopCount(buf);
    if c.Trapped? {
      return Trapped(c.reason), typtbl;
    }
    var nTypes := c.value;
    if nTypes < 0 {
      return Trapped(TypeCountOverflow), typtbl;
    }
    if buf.p + nTypes >= buf.e {
      return Trapped(TooManyTypes), typtbl;
    }
    ParseHeaderTable(buf.data, buf.e, old(buf.p), nTypes, buf.p);
    typtbl := new nat[nTypes];
    var t := ReadTypeTableInto(buf, typtbl, nTypes);
    if t.Trapped? {
      return Trapped(t.reason), typtbl;
    }
    var mainTypesOut := buf.p;
    var m := ReadTypeIndexList(buf, nTypes);
    if m.Trapped? {
      return Trapped(m.reason), typtbl;
    }
    return Ok(mainTypesOut, buf.p), typtbl;
  }
}
