/**
 * parse_idl_header of rts/idl.c as a function of the buffer contents and the
 * cursor: the "DIDL" magic word, the number of types, the type table of an
 * early Candid binary header with the immediate type references of every
 * declaration checked, and the list of main types.
 *
 * The C code only validates and records where each declaration starts; the
 * functions here also return what they read (a TypeDesc per declaration and
 * the type references checked), so that what the C code establishes about
 * those bytes can be stated about the result.
 */
module IdlHeader {
  import opened Bits
  import opened Outcome
  import opened Buffer
  import opened Leb128

  // ------------------------------------------------------------------------
  // IDL constants: the primitive types are -1 .. -17, the constructors -18 .. -23

  const IDL_PRIM_null: int := -1
  const IDL_PRIM_bool: int := -2
  const IDL_PRIM_nat: int := -3
  const IDL_PRIM_int: int := -4
  const IDL_PRIM_nat8: int := -5
  const IDL_PRIM_nat16: int := -6
  const IDL_PRIM_nat32: int := -7
  const IDL_PRIM_nat64: int := -8
  const IDL_PRIM_int8: int := -9
  const IDL_PRIM_int16: int := -10
  const IDL_PRIM_int32: int := -11
  const IDL_PRIM_int64: int := -12
  const IDL_PRIM_float32: int := -13
  const IDL_PRIM_float64: int := -14
  const IDL_PRIM_text: int := -15
  const IDL_PRIM_reserved: int := -16
  const IDL_PRIM_empty: int := -17

  const IDL_PRIM_lowest: int := -17

  const IDL_CON_opt: int := -18
  const IDL_CON_vec: int := -19
  const IDL_CON_record: int := -20
  const IDL_CON_variant: int := -21
  const IDL_CON_func: int := -22
  const IDL_CON_service: int := -23

  /** The magic word "DIDL" read as a little-endian uint32_t. */
  const DIDL_MAGIC: int := 0x4C44_4944

  /** A type reference the header accepts: a primitive type or an index into the table of nTypes entries. */
  predicate ValidRef(t: int, nTypes: int)
  {
    IDL_PRIM_lowest <= t < nTypes
  }

  predicate RefsValid(ts: seq<int>, nTypes: int)
  {
    forall i :: 0 <= i < |ts| ==> ValidRef(ts[i], nTypes)
  }

  /** How often `for (int n = count; n > 0; n--)` runs. */
  function Iterations(n: int): nat
  {
    if n > 0 then n else 0
  }

  // ------------------------------------------------------------------------
  // What a declaration of the type table holds

  /** A record or variant field: its id (read, never checked) and its type. */
  datatype Field = Field(id: nat, t: int)

  /** A service method: the length of its name (skipped) and its type. */
  datatype Method = Method(nameLen: nat, t: int)

  /** One declaration of the type table, as far as parse_idl_header reads it. */
  datatype TypeDesc =
    | Opt(t: int)
    | Vec(t: int)
    | Record(fields: seq<Field>)
    | Variant(fields: seq<Field>)
    | Func(args: seq<int>, rets: seq<int>, annotations: nat)
    | Service(methods: seq<Method>)

  /** The constructor code a declaration starts with. */
  function Tag(d: TypeDesc): (t: int)
    ensures IDL_CON_service <= t < IDL_PRIM_lowest
  {
    match d
    case Opt(_) => IDL_CON_opt
    case Vec(_) => IDL_CON_vec
    case Record(_) => IDL_CON_record
    case Variant(_) => IDL_CON_variant
    case Func(_, _, _) => IDL_CON_func
    case Service(_) => IDL_CON_service
  }

  /** Every field refers to a valid type; field ids are not checked. */
  predicate FieldsValid(fs: seq<Field>, nTypes: int)
  {
    forall i :: 0 <= i < |fs| ==> ValidRef(fs[i].t, nTypes)
  }

  predicate MethodsValid(ms: seq<Method>, nTypes: int)
  {
    forall i :: 0 <= i < |ms| ==> ValidRef(ms[i].t, nTypes)
  }

  /** Every type reference a declaration makes lies in [IDL_PRIM_lowest, nTypes). */
  predicate DescValid(d: TypeDesc, nTypes: int)
  {
    match d
    case Opt(t) => ValidRef(t, nTypes)
    case Vec(t) => ValidRef(t, nTypes)
    case Record(fs) => FieldsValid(fs, nTypes)
    case Variant(fs) => FieldsValid(fs, nTypes)
    case Func(args, rets, _) => RefsValid(args, nTypes) && RefsValid(rets, nTypes)
    case Service(ms) => MethodsValid(ms, nTypes)
  }

  // ------------------------------------------------------------------------
  // The reading steps of parse_idl_header

  /** A count: read as a uint32_t and kept in a C int, so that 2^31 and more become negative. */
  function ReadCount(data: seq<byte>, e: nat, p: nat): (r: Result<int>)
    requires e <= |data|
    ensures r.Ok? ==> IsI32(r.value) && p < r.next <= e
    ensures r.Ok? <==> ReadU32(data, e, p).Ok?
    ensures r.Ok? ==> (r.value == ReadU32(data, e, p).value <==> ReadU32(data, e, p).value <= I32_MAX)
  {
    match ReadU32(data, e, p)
    case Trapped(t) => Trapped(t)
    case Ok(u, q) => Ok(ToInt32(u), q)
  }

  /** A type reference: an int32_t in SLEB128 that must lie in [IDL_PRIM_lowest, nTypes). */
  function ReadRef(data: seq<byte>, e: nat, p: nat, nTypes: int): (r: Result<int>)
    requires e <= |data|
    ensures r.Ok? ==> ValidRef(r.value, nTypes) && p < r.next <= e
  {
    match ReadI32(data, e, p)
    case Trapped(t) => Trapped(t)
    case Ok(t, q) => if t < IDL_PRIM_lowest || t >= nTypes then Trapped(IndexOutOfRange) else Ok(t, q)
  }

  /** The loop over n type references (argument, result and main types). */
  function ReadRefs(data: seq<byte>, e: nat, p: nat, n: int, nTypes: int): (r: Result<seq<int>>)
    requires e <= |data|
    decreases n
  {
    if n <= 0 then Ok([], p)
    else
      match ReadRef(data, e, p, nTypes)
      case Trapped(t) => Trapped(t)
      case Ok(t, q) =>
        match ReadRefs(data, e, q, n - 1, nTypes)
        case Trapped(x) => Trapped(x)
        case Ok(ts, q') => Ok([t] + ts, q')
  }

  /** The loop over n record or variant fields: an id, which is not checked, and a type reference. */
  function ReadFields(data: seq<byte>, e: nat, p: nat, n: int, nTypes: int): (r: Result<seq<Field>>)
    requires e <= |data|
    decreases n
  {
    if n <= 0 then Ok([], p)
    else
      match ReadU32(data, e, p)
      case Trapped(x) => Trapped(x)
      case Ok(id, q) =>
        match ReadRef(data, e, q, nTypes)
        case Trapped(x) => Trapped(x)
        case Ok(t, q') =>
          match ReadFields(data, e, q', n - 1, nTypes)
          case Trapped(x) => Trapped(x)
          case Ok(fs, q'') => Ok([Field(id, t)] + fs, q'')
  }

  /**
   * The loop over n service methods: the length of the name, the name skipped
   * without a bounds check, and a type reference.
   */
  function ReadMethods(data: seq<byte>, e: nat, p: nat, n: int, nTypes: int): (r: Result<seq<Method>>)
    requires e <= |data|
    decreases n
  {
    if n <= 0 then Ok([], p)
    else
      match ReadU32(data, e, p)
      case Trapped(x) => Trapped(x)
      case Ok(size, q) =>
        match ReadRef(data, e, q + size, nTypes)
        case Trapped(x) => Trapped(x)
        case Ok(t, q') =>
          match ReadMethods(data, e, q', n - 1, nTypes)
          case Trapped(x) => Trapped(x)
          case Ok(ms, q'') => Ok([Method(size, t)] + ms, q'')
  }

  /** A count followed by that many type references. */
  function ReadRefList(data: seq<byte>, e: nat, p: nat, nTypes: int): (r: Result<seq<int>>)
    requires e <= |data|
  {
    match ReadCount(data, e, p)
    case Trapped(x) => Trapped(x)
    case Ok(n, q) => ReadRefs(data, e, q, n, nTypes)
  }

  /** The body of a func declaration: argument types, result types and annotations, which are skipped. */
  function ReadFuncBody(data: seq<byte>, e: nat, p: nat, nTypes: int): (r: Result<TypeDesc>)
    requires e <= |data|
  {
    match ReadRefList(data, e, p, nTypes)
    case Trapped(x) => Trapped(x)
    case Ok(args, q) =>
      match ReadRefList(data, e, q, nTypes)
      case Trapped(x) => Trapped(x)
      case Ok(rets, q') =>
        match ReadCount(data, e, q')
        case Trapped(x) => Trapped(x)
        case Ok(n, q'') => Ok(Func(args, rets, Iterations(n)), q'' + Iterations(n))
  }

  /**
   * One declaration of the type table. Its tag must be one of the six
   * constructors: a primitive type or a table index is "type index too
   * high", anything below IDL_CON_service a "future type".
   */
  function ReadTypeDecl(data: seq<byte>, e: nat, p: nat, nTypes: int): (r: Result<TypeDesc>)
    requires e <= |data|
  {
    match ReadI32(data, e, p)
    case Trapped(x) => Trapped(x)
    case Ok(ty, q) =>
      if ty >= IDL_PRIM_lowest then Trapped(TypeIndexTooHigh)
      else if ty == IDL_CON_opt then
        match ReadRef(data, e, q, nTypes)
        case Trapped(x) => Trapped(x)
        case Ok(t, q') => Ok(Opt(t), q')
      else if ty == IDL_CON_vec then
        match ReadRef(data, e, q, nTypes)
        case Trapped(x) => Trapped(x)
        case Ok(t, q') => Ok(Vec(t), q')
      else if ty == IDL_CON_record then
        match ReadCount(data, e, q)
        case Trapped(x) => Trapped(x)
        case Ok(n, q') =>
          match ReadFields(data, e, q', n, nTypes)
          case Trapped(x) => Trapped(x)
          case Ok(fs, q'') => Ok(Record(fs), q'')
      else if ty == IDL_CON_variant then
        match ReadCount(data, e, q)
        case Trapped(x) => Trapped(x)
        case Ok(n, q') =>
          match ReadFields(data, e, q', n, nTypes)
          case Trapped(x) => Trapped(x)
          case Ok(fs, q'') => Ok(Variant(fs), q'')
      else if ty == IDL_CON_func then
        ReadFuncBody(data, e, q, nTypes)
      else if ty == IDL_CON_service then
        match ReadCount(data, e, q)
        case Trapped(x) => Trapped(x)
        case Ok(n, q') =>
          match ReadMethods(data, e, q', n, nTypes)
          case Trapped(x) => Trapped(x)
          case Ok(ms, q'') => Ok(Service(ms), q'')
      else Trapped(FutureType)
  }

  /** A table entry: where a declaration's tag begins, and what the declaration holds. */
  datatype Entry = Entry(at: nat, desc: TypeDesc)

  /** The cursors the C code stores in typtbl. */
  function Offsets(es: seq<Entry>): (offs: seq<nat>)
    ensures |offs| == |es| && forall i :: 0 <= i < |es| ==> offs[i] == es[i].at
  {
    seq(|es|, i requires 0 <= i < |es| => es[i].at)
  }

  /**
   * The type table loop after k rounds, from the cursor p0 the table starts
   * at: the k - 1 rounds before, then the declaration at the cursor they
   * leave; the first trap ends the loop.
   */
  function ReadTypeTable(data: seq<byte>, e: nat, p0: nat, k: nat, nTypes: int): (r: Result<seq<Entry>>)
    requires e <= |data|
    decreases k
  {
    if k == 0 then Ok([], p0)
    else
      match ReadTypeTable(data, e, p0, k - 1, nTypes)
      case Trapped(x) => Trapped(x)
      case Ok(es, q) =>
        match ReadTypeDecl(data, e, q, nTypes)
        case Trapped(x) => Trapped(x)
        case Ok(d, q') => Ok(es + [Entry(q, d)], q')
  }

  /**
   * What parse_idl_header hands back: the type table, where the list of main
   * types begins (main_types_out) and the main types themselves.
   */
  datatype Header = Header(entries: seq<Entry>, mainTypesAt: nat, mainTypes: seq<int>)

  /** parse_idl_header on a buffer whose cursor is p; on success, next is the cursor after the main types. */
  function ParseHeader(data: seq<byte>, e: nat, p: nat): (r: Result<Header>)
    requires e <= |data|
  {
    match ReadWordAt(data, e, p)
    case Trapped(x) => Trapped(x)
    case Ok(w, p1) =>
      if w != DIDL_MAGIC then Trapped(MissingMagic)
      else
        match ReadCount(data, e, p1)
        case Trapped(x) => Trapped(x)
        case Ok(nTypes, p2) =>
          if nTypes < 0 then Trapped(TypeCountOverflow)
          else if p2 + nTypes >= e then Trapped(TooManyTypes)
          else
            match ReadTypeTable(data, e, p2, nTypes, nTypes)
            case Trapped(x) => Trapped(x)
            case Ok(es, p3) =>
              match ReadRefList(data, e, p3, nTypes)
              case Trapped(x) => Trapped(x)
              case Ok(mains, p4) => Ok(Header(es, p3, mains), p4)
  }

  // ------------------------------------------------------------------------
  // Every type reference an accepted header holds is valid

  /** The reference loop reads n references (none for n <= 0), each valid, one byte or more each. */
  lemma {:induction false} ReadRefsSound(data: seq<byte>, e: nat, p: nat, n: int, nTypes: int)
    requires e <= |data| && ReadRefs(data, e, p, n, nTypes).Ok?
    ensures var r := ReadRefs(data, e, p, n, nTypes);
      && |r.value| == Iterations(n) && RefsValid(r.value, nTypes) && p + |r.value| <= r.next
      && (n > 0 ==> r.next <= e)
    decreases n
  {
    if n > 0 {
      var h := ReadRef(data, e, p, nTypes);
      var t := ReadRefs(data, e, h.next, n - 1, nTypes);
      ReadRefsSound(data, e, h.next, n - 1, nTypes);
      assert ReadRefs(data, e, p, n, nTypes).value == [h.value] + t.value;
    }
  }

  /** The field loop reads n fields (none for n <= 0), each of a valid type and with a uint32_t id. */
  lemma {:induction false} ReadFieldsSound(data: seq<byte>, e: nat, p: nat, n: int, nTypes: int)
    requires e <= |data| && ReadFields(data, e, p, n, nTypes).Ok?
    ensures var r := ReadFields(data, e, p, n, nTypes);
      && |r.value| == Iterations(n) && FieldsValid(r.value, nTypes) && p + |r.value| <= r.next
      && (forall i :: 0 <= i < |r.value| ==> IsU32(r.value[i].id))
    decreases n
  {
    if n > 0 {
      var id := ReadU32(data, e, p);
      var h := ReadRef(data, e, id.next, nTypes);
      var t := ReadFields(data, e, h.next, n - 1, nTypes);
      ReadFieldsSound(data, e, h.next, n - 1, nTypes);
      assert ReadFields(data, e, p, n, nTypes).value == [Field(id.value, h.value)] + t.value;
    }
  }

  /** The method loop reads n methods (none for n <= 0), each of a valid type and with a uint32_t name length. */
  lemma {:induction false} ReadMethodsSound(data: seq<byte>, e: nat, p: nat, n: int, nTypes: int)
    requires e <= |data| && ReadMethods(data, e, p, n, nTypes).Ok?
    ensures var r := ReadMethods(data, e, p, n, nTypes);
      && |r.value| == Iterations(n) && MethodsValid(r.value, nTypes) && p + |r.value| <= r.next
      && (forall i :: 0 <= i < |r.value| ==> IsU32(r.value[i].nameLen))
    decreases n
  {
    if n > 0 {
      var size := ReadU32(data, e, p);
      var h := ReadRef(data, e, size.next + size.value, nTypes);
      var t := ReadMethods(data, e, h.next, n - 1, nTypes);
      ReadMethodsSound(data, e, h.next, n - 1, nTypes);
      assert ReadMethods(data, e, p, n, nTypes).value == [Method(size.value, h.value)] + t.value;
    }
  }

  /** A counted list of references holds valid references only and ends within the buffer. */
  lemma ReadRefListSound(data: seq<byte>, e: nat, p: nat, nTypes: int)
    requires e <= |data| && ReadRefList(data, e, p, nTypes).Ok?
    ensures var r := ReadRefList(data, e, p, nTypes);
      RefsValid(r.value, nTypes) && p < r.next <= e
  {
    var c := ReadCount(data, e, p);
    ReadRefsSound(data, e, c.next, c.value, nTypes);
  }

  /** An accepted declaration is of the constructor its tag names, makes valid references only and goes on after its tag. */
  lemma ReadTypeDeclSound(data: seq<byte>, e: nat, p: nat, nTypes: int)
    requires e <= |data| && ReadTypeDecl(data, e, p, nTypes).Ok?
    ensures var r := ReadTypeDecl(data, e, p, nTypes);
      && ReadI32(data, e, p).Ok? && Tag(r.value) == ReadI32(data, e, p).value
      && p < e && ReadI32(data, e, p).next < r.next && DescValid(r.value, nTypes)
  {
    var q := ReadI32(data, e, p).next;
    var ty := ReadI32(data, e, p).value;
    if ty == IDL_CON_record || ty == IDL_CON_variant {
      var c := ReadCount(data, e, q);
      ReadFieldsSound(data, e, c.next, c.value, nTypes);
    } else if ty == IDL_CON_func {
      var a := ReadRefList(data, e, q, nTypes);
      ReadRefListSound(data, e, q, nTypes);
      ReadRefListSound(data, e, a.next, nTypes);
    } else if ty == IDL_CON_service {
      var c := ReadCount(data, e, q);
      ReadMethodsSound(data, e, c.next, c.value, nTypes);
    }
  }

  /** The type table loop over k declarations yields k entries, each making valid references only, from k bytes or more. */
  lemma {:induction false} ReadTypeTableSound(data: seq<byte>, e: nat, p: nat, k: nat, nTypes: int)
    requires e <= |data| && ReadTypeTable(data, e, p, k, nTypes).Ok?
    ensures var r := ReadTypeTable(data, e, p, k, nTypes);
      && |r.value| == k && p + k <= r.next
      && forall i :: 0 <= i < k ==> DescValid(r.value[i].desc, nTypes)
    decreases k
  {
    if k > 0 {
      var t := ReadTypeTable(data, e, p, k - 1, nTypes);
      ReadTypeTableSound(data, e, p, k - 1, nTypes);
      ReadTypeDeclSound(data, e, t.next, nTypes);
      var es := ReadTypeTable(data, e, p, k, nTypes).value;
      assert es == t.value + [Entry(t.next, ReadTypeDecl(data, e, t.next, nTypes).value)];
      forall i | 0 <= i < k
        ensures DescValid(es[i].desc, nTypes)
      {
        if i < k - 1 {
          assert es[i] == t.value[i];
        }
      }
    }
  }

  /**
   * What parse_idl_header guarantees to the rest of the deserialiser: fewer
   * than 2^31 types, every type reference of every declaration and every main
   * type in [IDL_PRIM_lowest, n_types), and main_types_out after the count and
   * before the returned cursor, which lies within the buffer.
   */
  lemma HeaderSound(data: seq<byte>, e: nat, p: nat)
    requires e <= |data| && ParseHeader(data, e, p).Ok?
    ensures var r := ParseHeader(data, e, p);
      var n := |r.value.entries|;
      && n <= I32_MAX
      && (forall i :: 0 <= i < n ==> DescValid(r.value.entries[i].desc, n))
      && RefsValid(r.value.mainTypes, n)
      && p + 4 < r.value.mainTypesAt < r.next <= e
  {
    var c := ReadCount(data, e, p + 4);
    var t := ReadTypeTable(data, e, c.next, c.value, c.value);
    ReadTypeTableSound(data, e, c.next, c.value, c.value);
    ReadRefListSound(data, e, t.next, c.value);
  }

  // ------------------------------------------------------------------------
  // What parse_idl_header checks first

  /** The magic bytes "DIDL". */
  const DIDL_BYTES: seq<byte> := [0x44, 0x49, 0x44, 0x4C]

  /** Only the bytes "DIDL" make up the magic word. */
  lemma MagicWord(b0: byte, b1: byte, b2: byte, b3: byte)
    ensures LittleEndian32(b0, b1, b2, b3) == DIDL_MAGIC <==> [b0, b1, b2, b3] == DIDL_BYTES
  {
    if LittleEndian32(b0, b1, b2, b3) == DIDL_MAGIC {
      var t2 := b2 as int + 0x100 * b3 as int;
      var t1 := b1 as int + 0x100 * t2;
      assert b0 as int + 0x100 * t1 == 0x44 + 0x100 * 0x4C_4449;
      assert b0 == 0x44;
      assert b1 as int + 0x100 * t2 == 0x49 + 0x100 * 0x4C44;
      assert b1 == 0x49;
      assert b2 as int + 0x100 * b3 as int == 0x44 + 0x100 * 0x4C;
      assert b2 == 0x44;
    }
  }

  /**
   * A header that does not start with the four bytes "DIDL" is refused
   * before anything else is read: out of bounds when fewer than four bytes
   * remain, "missing magic bytes" otherwise.
   */
  lemma HeaderMagic(data: seq<byte>, e: nat, p: nat)
    requires e <= |data|
    ensures p + 4 > e ==> ParseHeader(data, e, p) == Trapped(OutOfBounds)
    ensures p + 4 <= e && data[p..p + 4] != DIDL_BYTES ==> ParseHeader(data, e, p) == Trapped(MissingMagic)
    ensures ParseHeader(data, e, p).Ok? ==> At(data, e, p, DIDL_BYTES)
  {
    if p + 4 <= e {
      MagicWord(data[p], data[p + 1], data[p + 2], data[p + 3]);
      assert data[p..p + 4] == [data[p], data[p + 1], data[p + 2], data[p + 3]];
    }
  }

  /**
   * After the magic word, the number of types is refused when it is 2^31 or
   * more ("overflow in number of types") and when it is not smaller than the
   * number of bytes left after it ("too many types").
   */
  lemma HeaderCount(data: seq<byte>, e: nat, p: nat)
    requires e <= |data| && At(data, e, p, DIDL_BYTES) && ReadU32(data, e, p + 4).Ok?
    ensures var c := ReadU32(data, e, p + 4);
      && (c.value > I32_MAX ==> ParseHeader(data, e, p) == Trapped(TypeCountOverflow))
      && (c.value <= I32_MAX && c.next + c.value >= e ==> ParseHeader(data, e, p) == Trapped(TooManyTypes))
  {
    MagicWord(data[p], data[p + 1], data[p + 2], data[p + 3]);
  }

  // ------------------------------------------------------------------------
  // Type references and tags

  /** A reference is accepted when it lies in [IDL_PRIM_lowest, nTypes); any other int32_t is "type index out of range". */
  lemma ReadRefEncoding(data: seq<byte>, e: nat, p: nat, t: int, nTypes: int)
    requires e <= |data| && IsI32(t) && At(data, e, p, EncodeS(t))
    ensures ReadRef(data, e, p, nTypes) ==
      if ValidRef(t, nTypes) then Ok(t, p + |EncodeS(t)|) else Trapped(IndexOutOfRange)
  {
    ReadI32CompleteInt32(data, e, p, t);
  }

  /**
   * The tag of a declaration decides it: one of -17 and up (a primitive type
   * or a table index) is "type index too high", one below IDL_CON_service a
   * "future type", and an accepted declaration is of the constructor its tag
   * names.
   */
  lemma DeclTag(data: seq<byte>, e: nat, p: nat, nTypes: int)
    requires e <= |data| && ReadI32(data, e, p).Ok?
    ensures var ty := ReadI32(data, e, p).value;
      && (ty >= IDL_PRIM_lowest ==> ReadTypeDecl(data, e, p, nTypes) == Trapped(TypeIndexTooHigh))
      && (ty < IDL_CON_service ==> ReadTypeDecl(data, e, p, nTypes) == Trapped(FutureType))
      && (ReadTypeDecl(data, e, p, nTypes).Ok? ==> Tag(ReadTypeDecl(data, e, p, nTypes).value) == ty)
  {
  }

  /**
   * An opt or vec declaration holds one reference, accepted exactly when it
   * is valid: a vec of the type numbered nTypes, one past the table, traps.
   */
  lemma OptVecDecl(data: seq<byte>, e: nat, p: nat, tag: int, t: int, nTypes: int)
    requires e <= |data| && (tag == IDL_CON_opt || tag == IDL_CON_vec) && IsI32(t)
    requires At(data, e, p, EncodeS(tag) + EncodeS(t))
    ensures ReadTypeDecl(data, e, p, nTypes) ==
      if !ValidRef(t, nTypes) then Trapped(IndexOutOfRange)
      else Ok(if tag == IDL_CON_opt then Opt(t) else Vec(t), p + |EncodeS(tag)| + |EncodeS(t)|)
  {
    AtSplit(data, e, p, EncodeS(tag), EncodeS(t));
    ReadI32CompleteInt32(data, e, p, tag);
    ReadRefEncoding(data, e, p + |EncodeS(tag)|, t, nTypes);
  }

  /** A byte without the continuation bit is a whole unsigned group. */
  lemma ReadU32OneByte(data: seq<byte>, e: nat, p: nat)
    requires e <= |data| && p < e && !HasMore(data[p])
    ensures ReadU32(data, e, p) == Ok(data[p] as int, p + 1)
  {
    ReadU32FromLast(data, e, p, 0, 0, data[p] as int);
  }

  /** A byte without the continuation bit is a whole signed group, sign-extended from bit 6. */
  lemma ReadI32OneByte(data: seq<byte>, e: nat, p: nat)
    requires e <= |data| && p < e && !HasMore(data[p])
    ensures ReadI32(data, e, p) == Ok(FinalDigit(data[p]), p + 1)
  {
    ReadI32FromLast(data, e, p, 0, 0, false, FinalDigit(data[p]));
    Int32WrapIdentity(FinalDigit(data[p]));
  }

  /**
   * A negative count: the field count 0xFFFFFFFF of a record is -1 as a C
   * int, so the field loop does not run and the record reads as empty.
   */
  lemma NegativeFieldCount()
    ensures ReadTypeDecl([0x6C, 0xFF, 0xFF, 0xFF, 0xFF, 0x0F], 6, 0, 1) == Ok(Record([]), 6)
  {
    var d: seq<byte> := [0x6C, 0xFF, 0xFF, 0xFF, 0xFF, 0x0F];
    ReadI32OneByte(d, 6, 0);
    ReadU32FromMore(d, 6, 1, 0, 0, 0x7F);
    ReadU32FromMore(d, 6, 2, 0x7F, 7, 0x3FFF);
    ReadU32FromMore(d, 6, 3, 0x3FFF, 14, 0x1F_FFFF);
    ReadU32FromMore(d, 6, 4, 0x1F_FFFF, 21, 0x0FFF_FFFF);
    ReadU32FromLast(d, 6, 5, 0x0FFF_FFFF, 28, 0xFFFF_FFFF);
    assert ReadCount(d, 6, 1) == Ok(-1, 6);
  }

  /**
   * The name of a service method is skipped over without being looked at:
   * here a method named "abc" of type null.
   */
  lemma ServiceNameSkipped()
    ensures ReadTypeDecl([0x69, 0x01, 0x03, 0x61, 0x62, 0x63, 0x7F], 7, 0, 1) == Ok(Service([Method(3, IDL_PRIM_null)]), 7)
  {
    var d: seq<byte> := [0x69, 0x01, 0x03, 0x61, 0x62, 0x63, 0x7F];
    ReadI32OneByte(d, 7, 0);
    ReadU32OneByte(d, 7, 1);
    ReadU32OneByte(d, 7, 2);
    ReadI32OneByte(d, 7, 6);
    assert ReadRef(d, 7, 6, 1) == Ok(IDL_PRIM_null, 7);
    assert ReadMethods(d, 7, 7, 0, 1) == Ok([], 7);
    assert [Method(3, IDL_PRIM_null)] + [] == [Method(3, IDL_PRIM_null)];
    assert ReadMethods(d, 7, 2, 1, 1) == Ok([Method(3, IDL_PRIM_null)], 7);
  }

  /**
   * Annotations are skipped without a bounds check: five annotation bytes
   * announced at the end of the buffer take the cursor to 14 in a buffer of
   * 9 bytes, and only the next read, that of the main type count, traps.
   */
  lemma AnnotationsOvershoot()
    ensures ReadTypeDecl([0x44, 0x49, 0x44, 0x4C, 0x01, 0x6A, 0x00, 0x00, 0x05], 9, 5, 1) == Ok(Func([], [], 5), 14)
    ensures ParseHeader([0x44, 0x49, 0x44, 0x4C, 0x01, 0x6A, 0x00, 0x00, 0x05], 9, 0) == Trapped(OutOfBounds)
  {
    var d: seq<byte> := [0x44, 0x49, 0x44, 0x4C, 0x01, 0x6A, 0x00, 0x00, 0x05];
    assert ReadWordAt(d, 9, 0) == Ok(DIDL_MAGIC, 4);
    ReadU32OneByte(d, 9, 4);
    ReadI32OneByte(d, 9, 5);
    ReadU32OneByte(d, 9, 6);
    ReadU32OneByte(d, 9, 7);
    ReadU32OneByte(d, 9, 8);
    assert ReadFuncBody(d, 9, 6, 1) == Ok(Func([], [], 5), 14);
    assert ReadTypeDecl(d, 9, 5, 1) == Ok(Func([], [], 5), 14);
    assert ReadTypeTable(d, 9, 5, 0, 1) == Ok([], 5);
    assert [] + [Entry(5, Func([], [], 5))] == [Entry(5, Func([], [], 5))];
    assert ReadTypeTable(d, 9, 5, 1, 1) == Ok([Entry(5, Func([], [], 5))], 14);
  }

  // ------------------------------------------------------------------------
  // The type table

  /** Where the declaration after entry i begins: the next entry, or end after the last. */
  function NextAt(es: seq<Entry>, i: nat, end: nat): nat
    requires i < |es|
  {
    if i + 1 < |es| then es[i + 1].at else end
  }

  /** The declarations es stand back to back from the cursor from to the cursor to. */
  predicate Laid(data: seq<byte>, e: nat, nTypes: int, es: seq<Entry>, from: nat, to: nat)
    requires e <= |data|
  {
    && (|es| == 0 ==> from == to)
    && (|es| > 0 ==> es[0].at == from)
    && forall i :: 0 <= i < |es| ==> ReadTypeDecl(data, e, es[i].at, nTypes) == Ok(es[i].desc, NextAt(es, i, to))
  }

  lemma LaidTail(data: seq<byte>, e: nat, nTypes: int, es: seq<Entry>, from: nat, to: nat)
    requires e <= |data| && |es| > 0
    ensures Laid(data, e, nTypes, es, from, to) <==>
      && es[0].at == from
      && ReadTypeDecl(data, e, from, nTypes) == Ok(es[0].desc, NextAt(es, 0, to))
      && Laid(data, e, nTypes, es[1..], NextAt(es, 0, to), to)
  {
    if es[0].at == from && ReadTypeDecl(data, e, from, nTypes) == Ok(es[0].desc, NextAt(es, 0, to))
       && Laid(data, e, nTypes, es[1..], NextAt(es, 0, to), to) {
      forall i | 0 <= i < |es|
        ensures ReadTypeDecl(data, e, es[i].at, nTypes) == Ok(es[i].desc, NextAt(es, i, to))
      {
        if i > 0 {
          assert es[i] == es[1..][i - 1];
        }
      }
    }
  }

  /**
   * The type table loop over k declarations succeeds with the entries es
   * exactly when es are k declarations standing back to back from its
   * cursor on, each entry holding where its declaration begins.
   */
  lemma TypeTableLaid(data: seq<byte>, e: nat, p: nat, k: nat, nTypes: int, es: seq<Entry>, q: nat)
    requires e <= |data|
    ensures ReadTypeTable(data, e, p, k, nTypes) == Ok(es, q) <==> |es| == k && Laid(data, e, nTypes, es, p, q)
  {
    if ReadTypeTable(data, e, p, k, nTypes) == Ok(es, q) {
      TableIsLaid(data, e, p, k, nTypes, es, q);
    }
    if |es| == k && Laid(data, e, nTypes, es, p, q) {
      LaidIsTable(data, e, p, k, nTypes, es, q);
    }
  }

  /** A table loop that succeeds lays its entries back to back, from its first cursor to its last. */
  lemma {:induction false} TableIsLaid(data: seq<byte>, e: nat, p: nat, k: nat, nTypes: int, es: seq<Entry>, q: nat)
    requires e <= |data| && ReadTypeTable(data, e, p, k, nTypes) == Ok(es, q)
    ensures |es| == k && Laid(data, e, nTypes, es, p, q)
    decreases k
  {
    if k > 0 {
      var pre, a, d := ReadTypeTableLast(data, e, p, k, nTypes, es, q);
      TableIsLaid(data, e, p, k - 1, nTypes, pre, a);
      LaidSnoc(data, e, nTypes, pre, Entry(a, d), p, q);
    }
  }

  /** Conversely, k entries laid back to back from p to q are what the table loop reads from p. */
  lemma {:induction false} LaidIsTable(data: seq<byte>, e: nat, p: nat, k: nat, nTypes: int, es: seq<Entry>, q: nat)
    requires e <= |data| && |es| == k && Laid(data, e, nTypes, es, p, q)
    ensures ReadTypeTable(data, e, p, k, nTypes) == Ok(es, q)
    decreases k
  {
    if k > 0 {
      var pre, x := es[..k - 1], es[k - 1];
      assert es == pre + [x];
      LaidPrefix(data, e, nTypes, pre, x, p, q);
      LaidIsTable(data, e, p, k - 1, nTypes, pre, x.at);
      ReadTypeTableStep(data, e, p, k - 1, nTypes, pre, x.at, x.desc, q);
    }
  }

  /** One more round of the table loop appends the entry of the declaration at the cursor. */
  lemma ReadTypeTableStep(data: seq<byte>, e: nat, p0: nat, i: nat, nTypes: int, pre: seq<Entry>, at: nat, d: TypeDesc, q: nat)
    requires e <= |data| && ReadTypeTable(data, e, p0, i, nTypes) == Ok(pre, at) && ReadTypeDecl(data, e, at, nTypes) == Ok(d, q)
    ensures ReadTypeTable(data, e, p0, i + 1, nTypes) == Ok(pre + [Entry(at, d)], q)
  {
  }

  /** A table loop that succeeded after k > 0 rounds had succeeded after k - 1, and its last round read one declaration. */
  lemma ReadTypeTableLast(data: seq<byte>, e: nat, p0: nat, k: nat, nTypes: int, es: seq<Entry>, q: nat) returns (pre: seq<Entry>, at: nat, d: TypeDesc)
    requires e <= |data| && k > 0 && ReadTypeTable(data, e, p0, k, nTypes) == Ok(es, q)
    ensures ReadTypeTable(data, e, p0, k - 1, nTypes) == Ok(pre, at) && ReadTypeDecl(data, e, at, nTypes) == Ok(d, q)
    ensures es == pre + [Entry(at, d)]
  {
    var t := ReadTypeTable(data, e, p0, k - 1, nTypes);
    pre, at := t.value, t.next;
    d := ReadTypeDecl(data, e, at, nTypes).value;
  }

  /** A round whose declaration traps ends the table loop with that trap. */
  lemma ReadTypeTableTrapStep(data: seq<byte>, e: nat, p0: nat, i: nat, nTypes: int, pre: seq<Entry>, at: nat, x: Trap)
    requires e <= |data| && ReadTypeTable(data, e, p0, i, nTypes) == Ok(pre, at)
    requires ReadTypeDecl(data, e, at, nTypes) == Trapped(x)
    ensures ReadTypeTable(data, e, p0, i + 1, nTypes) == Trapped(x)
  {
  }

  /** Once the table loop traps, the rounds that would follow change nothing: the trap is the outcome. */
  lemma {:induction false} ReadTypeTableTrapped(data: seq<byte>, e: nat, p0: nat, j: nat, k: nat, nTypes: int, x: Trap)
    requires e <= |data| && j <= k && ReadTypeTable(data, e, p0, j, nTypes) == Trapped(x)
    ensures ReadTypeTable(data, e, p0, k, nTypes) == Trapped(x)
    decreases k - j
  {
    if j < k {
      ReadTypeTableTrapOne(data, e, p0, j, nTypes, x);
      ReadTypeTableTrapped(data, e, p0, j + 1, k, nTypes, x);
    }
  }

  /** A trapped table loop stays trapped for one round more. */
  lemma ReadTypeTableTrapOne(data: seq<byte>, e: nat, p0: nat, j: nat, nTypes: int, x: Trap)
    requires e <= |data| && ReadTypeTable(data, e, p0, j, nTypes) == Trapped(x)
    ensures ReadTypeTable(data, e, p0, j + 1, nTypes) == Trapped(x)
  {
  }

  /** Entries es followed by x are laid out exactly when es end where x begins and x's declaration is read there. */
  lemma LaidInit(data: seq<byte>, e: nat, nTypes: int, es: seq<Entry>, x: Entry, from: nat, to: nat)
    requires e <= |data|
    ensures Laid(data, e, nTypes, es + [x], from, to) <==>
      Laid(data, e, nTypes, es, from, x.at) && ReadTypeDecl(data, e, x.at, nTypes) == Ok(x.desc, to)
  {
    if Laid(data, e, nTypes, es + [x], from, to) {
      LaidPrefix(data, e, nTypes, es, x, from, to);
    }
    if Laid(data, e, nTypes, es, from, x.at) && ReadTypeDecl(data, e, x.at, nTypes) == Ok(x.desc, to) {
      LaidSnoc(data, e, nTypes, es, x, from, to);
    }
  }

  lemma LaidPrefix(data: seq<byte>, e: nat, nTypes: int, es: seq<Entry>, x: Entry, from: nat, to: nat)
    requires e <= |data| && Laid(data, e, nTypes, es + [x], from, to)
    ensures Laid(data, e, nTypes, es, from, x.at) && ReadTypeDecl(data, e, x.at, nTypes) == Ok(x.desc, to)
  {
    var fs := es + [x];
    assert fs[|es|] == x && NextAt(fs, |es|, to) == to;
    forall i | 0 <= i < |es|
      ensures ReadTypeDecl(data, e, es[i].at, nTypes) == Ok(es[i].desc, NextAt(es, i, x.at))
    {
      assert fs[i] == es[i] && NextAt(fs, i, to) == NextAt(es, i, x.at);
    }
  }

  lemma LaidSnoc(data: seq<byte>, e: nat, nTypes: int, es: seq<Entry>, x: Entry, from: nat, to: nat)
    requires e <= |data| && Laid(data, e, nTypes, es, from, x.at) && ReadTypeDecl(data, e, x.at, nTypes) == Ok(x.desc, to)
    ensures Laid(data, e, nTypes, es + [x], from, to)
  {
    var fs := es + [x];
    forall i | 0 <= i < |fs|
      ensures ReadTypeDecl(data, e, fs[i].at, nTypes) == Ok(fs[i].desc, NextAt(fs, i, to))
    {
      if i < |es| {
        assert fs[i] == es[i] && NextAt(fs, i, to) == NextAt(es, i, x.at);
      }
    }
  }

  /** Declarations laid back to back begin at strictly increasing cursors, each before the end of the buffer. */
  lemma {:induction false} LaidIncreasing(data: seq<byte>, e: nat, nTypes: int, es: seq<Entry>, from: nat, to: nat)
    requires e <= |data| && Laid(data, e, nTypes, es, from, to)
    ensures forall i, j :: 0 <= i < j < |es| ==> es[i].at < es[j].at
    ensures forall i :: 0 <= i < |es| ==> es[i].at < e && es[i].at < to
    ensures from <= to
    decreases |es|
  {
    if |es| > 0 {
      LaidTail(data, e, nTypes, es, from, to);
      ReadTypeDeclSound(data, e, from, nTypes);
      LaidIncreasing(data, e, nTypes, es[1..], NextAt(es, 0, to), to);
      forall i, j | 0 <= i < j < |es|
        ensures es[i].at < es[j].at
      {
        assert es[j] == es[1..][j - 1];
        if i > 0 {
          assert es[i] == es[1..][i - 1];
        }
      }
      forall i | 0 <= i < |es|
        ensures es[i].at < e && es[i].at < to
      {
        if i > 0 {
          assert es[i] == es[1..][i - 1];
        }
      }
    }
  }

  /**
   * On success, the magic word came first; the number of types n is the
   * uint32_t after it, below 2^31 and below the number of bytes left after
   * it; the table holds n entries at strictly increasing cursors, the first
   * right after the count, each the start of a declaration that ends where
   * the next begins; main_types_out is where the last one ends; and the list
   * of main types read from there ends at the returned cursor.
   */
  lemma HeaderLayout(data: seq<byte>, e: nat, p: nat)
    requires e <= |data| && ParseHeader(data, e, p).Ok?
    ensures var r := ParseHeader(data, e, p);
      var h := r.value;
      var n := |h.entries|;
      var c := ReadU32(data, e, p + 4);
      && At(data, e, p, DIDL_BYTES)
      && c.Ok? && c.value == n && c.next + n < e
      && (n == 0 ==> h.mainTypesAt == c.next)
      && (n > 0 ==> h.entries[0].at == c.next)
      && (forall i, j :: 0 <= i < j < n ==> h.entries[i].at < h.entries[j].at)
      && (forall i :: 0 <= i < n ==>
            ReadTypeDecl(data, e, h.entries[i].at, n) == Ok(h.entries[i].desc, NextAt(h.entries, i, h.mainTypesAt)))
      && ReadRefList(data, e, h.mainTypesAt, n) == Ok(h.mainTypes, r.next)
  {
    HeaderMagic(data, e, p);
    var r := ParseHeader(data, e, p);
    var c := ReadU32(data, e, p + 4);
    TypeTableLaid(data, e, c.next, c.value, c.value, r.value.entries, r.value.mainTypesAt);
    LaidIncreasing(data, e, c.value, r.value.entries, c.next, r.value.mainTypesAt);
  }
}
