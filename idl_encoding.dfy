/**
 * The other direction of parse_idl_header: writing a type table and a list
 * of main types in the early Candid binary format, with shortest LEB128 and
 * SLEB128 numbers, and the proof that parse_idl_header reads every such
 * header back. The bytes of service method names and of func annotations
 * are not examined by the parser; the encoder writes zeros there.
 */
module IdlEncoding {
  import opened Bits
  import opened Outcome
  import opened Buffer
  import opened Leb128
  import opened IdlHeader

  function Zeros(n: nat): (bs: seq<byte>)
    ensures |bs| == n
  {
    seq(n, _ => 0 as byte)
  }

  function EncodeRefs(ts: seq<int>): seq<byte>
  {
    if |ts| == 0 then [] else EncodeS(ts[0]) + EncodeRefs(ts[1..])
  }

  function EncodeFields(fs: seq<Field>): seq<byte>
  {
    if |fs| == 0 then [] else EncodeU(fs[0].id) + EncodeS(fs[0].t) + EncodeFields(fs[1..])
  }

  function EncodeMethods(ms: seq<Method>): seq<byte>
  {
    if |ms| == 0 then []
    else EncodeU(ms[0].nameLen) + Zeros(ms[0].nameLen) + EncodeS(ms[0].t) + EncodeMethods(ms[1..])
  }

  /** The bytes of a func declaration after its tag. */
  function EncodeFuncBody(args: seq<int>, rets: seq<int>, annotations: nat): seq<byte>
  {
    EncodeU(|args|) + EncodeRefs(args) + EncodeU(|rets|) + EncodeRefs(rets) + EncodeU(annotations) + Zeros(annotations)
  }

  /** A declaration: its tag, then what the parser reads after that tag. */
  function EncodeDesc(d: TypeDesc): seq<byte>
  {
    match d
    case Opt(t) => EncodeS(IDL_CON_opt) + EncodeS(t)
    case Vec(t) => EncodeS(IDL_CON_vec) + EncodeS(t)
    case Record(fs) => EncodeS(IDL_CON_record) + (EncodeU(|fs|) + EncodeFields(fs))
    case Variant(fs) => EncodeS(IDL_CON_variant) + (EncodeU(|fs|) + EncodeFields(fs))
    case Func(args, rets, n) => EncodeS(IDL_CON_func) + EncodeFuncBody(args, rets, n)
    case Service(ms) => EncodeS(IDL_CON_service) + (EncodeU(|ms|) + EncodeMethods(ms))
  }

  function EncodeDecls(ds: seq<TypeDesc>): seq<byte>
  {
    if |ds| == 0 then [] else EncodeDesc(ds[0]) + EncodeDecls(ds[1..])
  }

  /** A whole header: magic, number of types, the declarations, the main types. */
  function EncodeHeader(ds: seq<TypeDesc>, mains: seq<int>): seq<byte>
  {
    DIDL_BYTES + EncodeU(|ds|) + EncodeDecls(ds) + EncodeU(|mains|) + EncodeRefs(mains)
  }

  /** Where each of the declarations ds begins when they are written from the cursor from on. */
  function Layout(ds: seq<TypeDesc>, from: nat): (es: seq<Entry>)
    ensures |es| == |ds| && forall i :: 0 <= i < |ds| ==> es[i].desc == ds[i]
  {
    if |ds| == 0 then [] else [Entry(from, ds[0])] + Layout(ds[1..], from + |EncodeDesc(ds[0])|)
  }

  /** Fields the parser reads back in a table of nTypes entries: valid types, ids that are uint32_t. */
  predicate FieldsEncodable(fs: seq<Field>, nTypes: int)
  {
    nTypes <= I32_MAX && forall i :: 0 <= i < |fs| ==> ValidRef(fs[i].t, nTypes) && IsU32(fs[i].id)
  }

  /** Methods the parser reads back in a table of nTypes entries: valid types, name lengths that are uint32_t. */
  predicate MethodsEncodable(ms: seq<Method>, nTypes: int)
  {
    nTypes <= I32_MAX && forall i :: 0 <= i < |ms| ==> ValidRef(ms[i].t, nTypes) && IsU32(ms[i].nameLen)
  }

  /**
   * A declaration the parser can read back in a table of nTypes entries:
   * its references are valid, its counts are below 2^31 so that they stay
   * positive in a C int, and its field ids and name lengths are uint32_t.
   */
  predicate Encodable(d: TypeDesc, nTypes: int)
  {
    && 0 <= nTypes <= I32_MAX
    && match d
       case Opt(t) => ValidRef(t, nTypes)
       case Vec(t) => ValidRef(t, nTypes)
       case Record(fs) => |fs| <= I32_MAX && FieldsEncodable(fs, nTypes)
       case Variant(fs) => |fs| <= I32_MAX && FieldsEncodable(fs, nTypes)
       case Func(args, rets, n) =>
         && |args| <= I32_MAX && RefsValid(args, nTypes)
         && |rets| <= I32_MAX && RefsValid(rets, nTypes)
         && n <= I32_MAX
       case Service(ms) => |ms| <= I32_MAX && MethodsEncodable(ms, nTypes)
  }

  // ------------------------------------------------------------------------
  // One step of each reading loop, with its outcome given

  lemma ReadRefsCons(data: seq<byte>, e: nat, p: nat, n: int, nTypes: int, t: int, q: nat, ts: seq<int>, q': nat)
    requires e <= |data| && n > 0
    requires ReadRef(data, e, p, nTypes) == Ok(t, q) && ReadRefs(data, e, q, n - 1, nTypes) == Ok(ts, q')
    ensures ReadRefs(data, e, p, n, nTypes) == Ok([t] + ts, q')
  {
  }

  lemma ReadFieldsCons(data: seq<byte>, e: nat, p: nat, n: int, nTypes: int, f: Field, q: nat, q': nat, fs: seq<Field>, q'': nat)
    requires e <= |data| && n > 0
    requires ReadU32(data, e, p) == Ok(f.id, q) && ReadRef(data, e, q, nTypes) == Ok(f.t, q')
    requires ReadFields(data, e, q', n - 1, nTypes) == Ok(fs, q'')
    ensures ReadFields(data, e, p, n, nTypes) == Ok([f] + fs, q'')
  {
  }

  lemma ReadMethodsCons(data: seq<byte>, e: nat, p: nat, n: int, nTypes: int, m: Method, q: nat, s: nat, q': nat, ms: seq<Method>, q'': nat)
    requires e <= |data| && n > 0 && s == q + m.nameLen
    requires ReadU32(data, e, p) == Ok(m.nameLen, q) && ReadRef(data, e, s, nTypes) == Ok(m.t, q')
    requires ReadMethods(data, e, q', n - 1, nTypes) == Ok(ms, q'')
    ensures ReadMethods(data, e, p, n, nTypes) == Ok([m] + ms, q'')
  {
  }

  lemma ReadRefListOf(data: seq<byte>, e: nat, p: nat, nTypes: int, n: int, q: nat, ts: seq<int>, q': nat)
    requires e <= |data| && ReadCount(data, e, p) == Ok(n, q) && ReadRefs(data, e, q, n, nTypes) == Ok(ts, q')
    ensures ReadRefList(data, e, p, nTypes) == Ok(ts, q')
  {
  }

  lemma ReadFuncBodyOf(data: seq<byte>, e: nat, p: nat, nTypes: int, args: seq<int>, q: nat, rets: seq<int>, q': nat, n: nat, q'': nat)
    requires e <= |data| && ReadRefList(data, e, p, nTypes) == Ok(args, q) && ReadRefList(data, e, q, nTypes) == Ok(rets, q')
    requires ReadCount(data, e, q') == Ok(n, q'')
    ensures ReadFuncBody(data, e, p, nTypes) == Ok(Func(args, rets, n), q'' + n)
  {
  }

  lemma ReadTypeTableCons(data: seq<byte>, e: nat, p: nat, k: nat, nTypes: int, d: TypeDesc, q: nat, es: seq<Entry>, q': nat)
    requires e <= |data| && k > 0
    requires ReadTypeDecl(data, e, p, nTypes) == Ok(d, q) && ReadTypeTable(data, e, q, k - 1, nTypes) == Ok(es, q')
    ensures ReadTypeTable(data, e, p, k, nTypes) == Ok([Entry(p, d)] + es, q')
  {
    var fs := [Entry(p, d)] + es;
    TypeTableLaid(data, e, q, k - 1, nTypes, es, q');
    assert fs[1..] == es && NextAt(fs, 0, q') == q;
    LaidTail(data, e, nTypes, fs, p, q');
    TypeTableLaid(data, e, p, k, nTypes, fs, q');
  }

  lemma ParseHeaderOf(data: seq<byte>, e: nat, p: nat, n: nat, q: nat, es: seq<Entry>, q': nat, mains: seq<int>, q'': nat)
    requires e <= |data| && ReadWordAt(data, e, p) == Ok(DIDL_MAGIC, p + 4)
    requires ReadCount(data, e, p + 4) == Ok(n, q) && q + n < e
    requires ReadTypeTable(data, e, q, n, n) == Ok(es, q') && ReadRefList(data, e, q', n) == Ok(mains, q'')
    ensures ParseHeader(data, e, p) == Ok(Header(es, q', mains), q'')
  {
  }

  lemma DeclOfRef(data: seq<byte>, e: nat, p: nat, nTypes: int, tag: int, q: nat, t: int, r: nat)
    requires e <= |data| && (tag == IDL_CON_opt || tag == IDL_CON_vec)
    requires ReadI32(data, e, p) == Ok(tag, q) && ReadRef(data, e, q, nTypes) == Ok(t, r)
    ensures ReadTypeDecl(data, e, p, nTypes) == Ok(if tag == IDL_CON_opt then Opt(t) else Vec(t), r)
  {
  }

  lemma DeclOfFields(data: seq<byte>, e: nat, p: nat, nTypes: int, tag: int, q: nat, n: int, q': nat, fs: seq<Field>, r: nat)
    requires e <= |data| && (tag == IDL_CON_record || tag == IDL_CON_variant)
    requires ReadI32(data, e, p) == Ok(tag, q) && ReadCount(data, e, q) == Ok(n, q')
    requires ReadFields(data, e, q', n, nTypes) == Ok(fs, r)
    ensures ReadTypeDecl(data, e, p, nTypes) == Ok(if tag == IDL_CON_record then Record(fs) else Variant(fs), r)
  {
  }

  lemma DeclOfFunc(data: seq<byte>, e: nat, p: nat, nTypes: int, q: nat, d: TypeDesc, r: nat)
    requires e <= |data| && ReadI32(data, e, p) == Ok(IDL_CON_func, q) && ReadFuncBody(data, e, q, nTypes) == Ok(d, r)
    ensures ReadTypeDecl(data, e, p, nTypes) == Ok(d, r)
  {
  }

  lemma DeclOfMethods(data: seq<byte>, e: nat, p: nat, nTypes: int, q: nat, n: int, q': nat, ms: seq<Method>, r: nat)
    requires e <= |data| && ReadI32(data, e, p) == Ok(IDL_CON_service, q) && ReadCount(data, e, q) == Ok(n, q')
    requires ReadMethods(data, e, q', n, nTypes) == Ok(ms, r)
    ensures ReadTypeDecl(data, e, p, nTypes) == Ok(Service(ms), r)
  {
  }

  // ------------------------------------------------------------------------
  // Reading back. Positions are passed as parameters, each tied by a
  // requires to the lengths before it.

  /** A count below 2^31 is read back as itself. */
  lemma ReadCountEncoding(data: seq<byte>, e: nat, p: nat, n: nat, q: nat)
    requires e <= |data| && n <= I32_MAX && At(data, e, p, EncodeU(n)) && q == p + |EncodeU(n)|
    ensures ReadCount(data, e, p) == Ok(n, q)
  {
    ReadU32Complete(data, e, p, n);
  }

  /** A valid reference is read back as itself. */
  lemma ReadRefAt(data: seq<byte>, e: nat, p: nat, t: int, nTypes: int, q: nat)
    requires e <= |data| && nTypes <= I32_MAX && ValidRef(t, nTypes) && At(data, e, p, EncodeS(t)) && q == p + |EncodeS(t)|
    ensures ReadRef(data, e, p, nTypes) == Ok(t, q)
  {
    ReadRefEncoding(data, e, p, t, nTypes);
  }

  /** The tag of a declaration is read back as itself. */
  lemma ReadTagAt(data: seq<byte>, e: nat, p: nat, tag: int, q: nat)
    requires e <= |data| && IDL_CON_service <= tag <= IDL_CON_opt
    requires At(data, e, p, EncodeS(tag)) && q == p + |EncodeS(tag)|
    ensures ReadI32(data, e, p) == Ok(tag, q)
  {
    ReadI32CompleteInt32(data, e, p, tag);
  }

  /** The first reference of an encoded list, and the list after it. */
  lemma RefsEncodingHead(data: seq<byte>, e: nat, p: nat, ts: seq<int>, nTypes: int, q: nat)
    requires e <= |data| && nTypes <= I32_MAX && RefsValid(ts, nTypes) && |ts| > 0 && At(data, e, p, EncodeRefs(ts))
    requires q == p + |EncodeS(ts[0])|
    ensures ReadRef(data, e, p, nTypes) == Ok(ts[0], q)
    ensures RefsValid(ts[1..], nTypes) && At(data, e, q, EncodeRefs(ts[1..]))
    ensures |EncodeRefs(ts)| == q - p + |EncodeRefs(ts[1..])|
  {
    AtParts(data, e, p, EncodeS(ts[0]), EncodeRefs(ts[1..]), q);
    ReadRefAt(data, e, p, ts[0], nTypes, q);
    forall i | 0 <= i < |ts[1..]| ensures ValidRef(ts[1..][i], nTypes) {
      assert ts[1..][i] == ts[i + 1];
    }
  }

  /** Valid references are read back from their encoding. */
  lemma {:induction false} ReadRefsEncoding(data: seq<byte>, e: nat, p: nat, ts: seq<int>, nTypes: int, r: nat)
    requires e <= |data| && nTypes <= I32_MAX && RefsValid(ts, nTypes) && At(data, e, p, EncodeRefs(ts))
    requires r == p + |EncodeRefs(ts)|
    ensures ReadRefs(data, e, p, |ts|, nTypes) == Ok(ts, r)
    decreases |ts|
  {
    if |ts| > 0 {
      var q := p + |EncodeS(ts[0])|;
      RefsEncodingHead(data, e, p, ts, nTypes, q);
      ReadRefsEncoding(data, e, q, ts[1..], nTypes, r);
      ReadRefsCons(data, e, p, |ts|, nTypes, ts[0], q, ts[1..], r);
      assert [ts[0]] + ts[1..] == ts;
    }
  }

  /** A count followed by that many valid references is read back as those references. */
  lemma ReadRefListEncoding(data: seq<byte>, e: nat, p: nat, ts: seq<int>, nTypes: int, q: nat, r: nat)
    requires e <= |data| && nTypes <= I32_MAX && |ts| <= I32_MAX && RefsValid(ts, nTypes)
    requires At(data, e, p, EncodeU(|ts|)) && q == p + |EncodeU(|ts|)|
    requires At(data, e, q, EncodeRefs(ts)) && r == q + |EncodeRefs(ts)|
    ensures ReadRefList(data, e, p, nTypes) == Ok(ts, r)
  {
    ReadCountEncoding(data, e, p, |ts|, q);
    ReadRefsEncoding(data, e, q, ts, nTypes, r);
    ReadRefListOf(data, e, p, nTypes, |ts|, q, ts, r);
  }

  lemma FieldsEncodableTail(fs: seq<Field>, nTypes: int)
    requires |fs| > 0 && FieldsEncodable(fs, nTypes)
    ensures FieldsEncodable(fs[1..], nTypes) && ValidRef(fs[0].t, nTypes) && IsU32(fs[0].id)
  {
    forall i | 0 <= i < |fs[1..]| ensures ValidRef(fs[1..][i].t, nTypes) && IsU32(fs[1..][i].id) {
      assert fs[1..][i] == fs[i + 1];
    }
  }

  /** The first field of an encoded list, and the list after it. */
  lemma FieldsEncodingHead(data: seq<byte>, e: nat, p: nat, fs: seq<Field>, nTypes: int, q: nat, q': nat)
    requires e <= |data| && |fs| > 0 && FieldsEncodable(fs, nTypes) && At(data, e, p, EncodeFields(fs))
    requires q == p + |EncodeU(fs[0].id)| && q' == q + |EncodeS(fs[0].t)|
    ensures ReadU32(data, e, p) == Ok(fs[0].id, q)
    ensures ReadRef(data, e, q, nTypes) == Ok(fs[0].t, q')
    ensures FieldsEncodable(fs[1..], nTypes) && At(data, e, q', EncodeFields(fs[1..]))
    ensures |EncodeFields(fs)| == q' - p + |EncodeFields(fs[1..])|
  {
    var f := fs[0];
    AtParts(data, e, p, EncodeU(f.id) + EncodeS(f.t), EncodeFields(fs[1..]), q');
    AtParts(data, e, p, EncodeU(f.id), EncodeS(f.t), q);
    FieldsEncodableTail(fs, nTypes);
    ReadU32Complete(data, e, p, f.id);
    ReadRefAt(data, e, q, f.t, nTypes, q');
  }

  /** Fields each of a valid type and with a uint32_t id are read back from their encoding. */
  lemma {:induction false} ReadFieldsEncoding(data: seq<byte>, e: nat, p: nat, fs: seq<Field>, nTypes: int, r: nat)
    requires e <= |data| && FieldsEncodable(fs, nTypes) && At(data, e, p, EncodeFields(fs))
    requires r == p + |EncodeFields(fs)|
    ensures ReadFields(data, e, p, |fs|, nTypes) == Ok(fs, r)
    decreases |fs|
  {
    if |fs| > 0 {
      var q := p + |EncodeU(fs[0].id)|;
      var q' := q + |EncodeS(fs[0].t)|;
      FieldsEncodingHead(data, e, p, fs, nTypes, q, q');
      ReadFieldsEncoding(data, e, q', fs[1..], nTypes, r);
      ReadFieldsCons(data, e, p, |fs|, nTypes, fs[0], q, q', fs[1..], r);
      assert [fs[0]] + fs[1..] == fs;
    }
  }

  lemma MethodsEncodableTail(ms: seq<Method>, nTypes: int)
    requires |ms| > 0 && MethodsEncodable(ms, nTypes)
    ensures MethodsEncodable(ms[1..], nTypes) && ValidRef(ms[0].t, nTypes) && IsU32(ms[0].nameLen)
  {
    forall i | 0 <= i < |ms[1..]| ensures ValidRef(ms[1..][i].t, nTypes) && IsU32(ms[1..][i].nameLen) {
      assert ms[1..][i] == ms[i + 1];
    }
  }

  /** The first method of an encoded list, and the list after it. */
  lemma MethodsEncodingHead(data: seq<byte>, e: nat, p: nat, ms: seq<Method>, nTypes: int, q: nat, s: nat, q': nat)
    requires e <= |data| && |ms| > 0 && MethodsEncodable(ms, nTypes) && At(data, e, p, EncodeMethods(ms))
    requires q == p + |EncodeU(ms[0].nameLen)| && s == q + ms[0].nameLen && q' == s + |EncodeS(ms[0].t)|
    ensures ReadU32(data, e, p) == Ok(ms[0].nameLen, q)
    ensures ReadRef(data, e, s, nTypes) == Ok(ms[0].t, q')
    ensures MethodsEncodable(ms[1..], nTypes) && At(data, e, q', EncodeMethods(ms[1..]))
    ensures |EncodeMethods(ms)| == q' - p + |EncodeMethods(ms[1..])|
  {
    var m := ms[0];
    var a, b, c := EncodeU(m.nameLen), Zeros(m.nameLen), EncodeS(m.t);
    AtParts(data, e, p, a + b + c, EncodeMethods(ms[1..]), q');
    AtParts(data, e, p, a + b, c, s);
    AtParts(data, e, p, a, b, q);
    MethodsEncodableTail(ms, nTypes);
    ReadU32Complete(data, e, p, m.nameLen);
    ReadRefAt(data, e, s, m.t, nTypes, q');
  }

  /** Methods each of a valid type and with a uint32_t name length are read back from their encoding. */
  lemma {:induction false} ReadMethodsEncoding(data: seq<byte>, e: nat, p: nat, ms: seq<Method>, nTypes: int, r: nat)
    requires e <= |data| && MethodsEncodable(ms, nTypes) && At(data, e, p, EncodeMethods(ms))
    requires r == p + |EncodeMethods(ms)|
    ensures ReadMethods(data, e, p, |ms|, nTypes) == Ok(ms, r)
    decreases |ms|
  {
    if |ms| > 0 {
      var q := p + |EncodeU(ms[0].nameLen)|;
      var s := q + ms[0].nameLen;
      var q' := s + |EncodeS(ms[0].t)|;
      MethodsEncodingHead(data, e, p, ms, nTypes, q, s, q');
      ReadMethodsEncoding(data, e, q', ms[1..], nTypes, r);
      ReadMethodsCons(data, e, p, |ms|, nTypes, ms[0], q, s, q', ms[1..], r);
      assert [ms[0]] + ms[1..] == ms;
    }
  }

  /** The body of a func declaration is read back: both lists of types, and the annotations skipped. */
  lemma ReadFuncEncoding(data: seq<byte>, e: nat, p: nat, d: TypeDesc, nTypes: int, r: nat)
    requires e <= |data| && d.Func? && Encodable(d, nTypes)
    requires At(data, e, p, EncodeFuncBody(d.args, d.rets, d.annotations))
    requires r == p + |EncodeFuncBody(d.args, d.rets, d.annotations)|
    ensures ReadFuncBody(data, e, p, nTypes) == Ok(d, r)
  {
    var u1, r1, u2, r2 := EncodeU(|d.args|), EncodeRefs(d.args), EncodeU(|d.rets|), EncodeRefs(d.rets);
    var u3, z := EncodeU(d.annotations), Zeros(d.annotations);
    var q1 := p + |u1|;
    var q2 := q1 + |r1|;
    var q3 := q2 + |u2|;
    var q4 := q3 + |r2|;
    var q5 := q4 + |u3|;
    AtParts(data, e, p, u1 + r1 + u2 + r2 + u3, z, q5);
    AtParts(data, e, p, u1 + r1 + u2 + r2, u3, q4);
    AtParts(data, e, p, u1 + r1 + u2, r2, q3);
    AtParts(data, e, p, u1 + r1, u2, q2);
    AtParts(data, e, p, u1, r1, q1);
    ReadRefListEncoding(data, e, p, d.args, nTypes, q1, q2);
    ReadRefListEncoding(data, e, q2, d.rets, nTypes, q3, q4);
    ReadCountEncoding(data, e, q4, d.annotations, q5);
    ReadFuncBodyOf(data, e, p, nTypes, d.args, q2, d.rets, q4, d.annotations, q5);
  }

  /** Every declaration the parser can accept is read back from its encoding. */
  lemma ReadTypeDeclEncoding(data: seq<byte>, e: nat, p: nat, d: TypeDesc, nTypes: int, r: nat)
    requires e <= |data| && Encodable(d, nTypes) && At(data, e, p, EncodeDesc(d)) && r == p + |EncodeDesc(d)|
    ensures ReadTypeDecl(data, e, p, nTypes) == Ok(d, r)
  {
    match d
    case Opt(t) =>
      var q := p + |EncodeS(IDL_CON_opt)|;
      AtParts(data, e, p, EncodeS(IDL_CON_opt), EncodeS(t), q);
      ReadTagAt(data, e, p, IDL_CON_opt, q);
      ReadRefAt(data, e, q, t, nTypes, r);
      DeclOfRef(data, e, p, nTypes, IDL_CON_opt, q, t, r);
    case Vec(t) =>
      var q := p + |EncodeS(IDL_CON_vec)|;
      AtParts(data, e, p, EncodeS(IDL_CON_vec), EncodeS(t), q);
      ReadTagAt(data, e, p, IDL_CON_vec, q);
      ReadRefAt(data, e, q, t, nTypes, r);
      DeclOfRef(data, e, p, nTypes, IDL_CON_vec, q, t, r);
    case Record(fs) =>
      var q := p + |EncodeS(IDL_CON_record)|;
      var q' := q + |EncodeU(|fs|)|;
      AtParts(data, e, p, EncodeS(IDL_CON_record), EncodeU(|fs|) + EncodeFields(fs), q);
      AtParts(data, e, q, EncodeU(|fs|), EncodeFields(fs), q');
      ReadTagAt(data, e, p, IDL_CON_record, q);
      ReadCountEncoding(data, e, q, |fs|, q');
      ReadFieldsEncoding(data, e, q', fs, nTypes, r);
      DeclOfFields(data, e, p, nTypes, IDL_CON_record, q, |fs|, q', fs, r);
    case Variant(fs) =>
      var q := p + |EncodeS(IDL_CON_variant)|;
      var q' := q + |EncodeU(|fs|)|;
      AtParts(data, e, p, EncodeS(IDL_CON_variant), EncodeU(|fs|) + EncodeFields(fs), q);
      AtParts(data, e, q, EncodeU(|fs|), EncodeFields(fs), q');
      ReadTagAt(data, e, p, IDL_CON_variant, q);
      ReadCountEncoding(data, e, q, |fs|, q');
      ReadFieldsEncoding(data, e, q', fs, nTypes, r);
      DeclOfFields(data, e, p, nTypes, IDL_CON_variant, q, |fs|, q', fs, r);
    case Func(args, rets, n) =>
      var q := p + |EncodeS(IDL_CON_func)|;
      AtParts(data, e, p, EncodeS(IDL_CON_func), EncodeFuncBody(args, rets, n), q);
      ReadTagAt(data, e, p, IDL_CON_func, q);
      ReadFuncEncoding(data, e, q, d, nTypes, r);
      DeclOfFunc(data, e, p, nTypes, q, d, r);
    case Service(ms) =>
      var q := p + |EncodeS(IDL_CON_service)|;
      var q' := q + |EncodeU(|ms|)|;
      AtParts(data, e, p, EncodeS(IDL_CON_service), EncodeU(|ms|) + EncodeMethods(ms), q);
      AtParts(data, e, q, EncodeU(|ms|), EncodeMethods(ms), q');
      ReadTagAt(data, e, p, IDL_CON_service, q);
      ReadCountEncoding(data, e, q, |ms|, q');
      ReadMethodsEncoding(data, e, q', ms, nTypes, r);
      DeclOfMethods(data, e, p, nTypes, q, |ms|, q', ms, r);
  }

  lemma EncodableTail(ds: seq<TypeDesc>, nTypes: int, rest: seq<TypeDesc>)
    requires |ds| > 0 && forall i :: 0 <= i < |ds| ==> Encodable(ds[i], nTypes)
    requires rest == ds[1..]
    ensures Encodable(ds[0], nTypes) && forall i :: 0 <= i < |rest| ==> Encodable(rest[i], nTypes)
  {
    forall i | 0 <= i < |rest| ensures Encodable(rest[i], nTypes) {
      assert rest[i] == ds[i + 1];
    }
  }

  /** The encoding of a non-empty list of declarations: its first declaration at p, the others from q on. */
  lemma DeclsParts(data: seq<byte>, e: nat, p: nat, ds: seq<TypeDesc>, r: nat, rest: seq<TypeDesc>, q: nat)
    requires |ds| > 0 && At(data, e, p, EncodeDecls(ds)) && r == p + |EncodeDecls(ds)|
    requires rest == ds[1..] && q == p + |EncodeDesc(ds[0])|
    ensures At(data, e, p, EncodeDesc(ds[0])) && At(data, e, q, EncodeDecls(rest)) && r == q + |EncodeDecls(rest)|
  {
    AtParts(data, e, p, EncodeDesc(ds[0]), EncodeDecls(rest), q);
  }

  /** Declarations the parser can accept are read back from their encoding, each entry recording where it begins. */
  lemma {:induction false} ReadTypeTableEncoding(data: seq<byte>, e: nat, p: nat, ds: seq<TypeDesc>, nTypes: int, r: nat)
    requires e <= |data| && (forall i :: 0 <= i < |ds| ==> Encodable(ds[i], nTypes))
    requires At(data, e, p, EncodeDecls(ds)) && r == p + |EncodeDecls(ds)|
    ensures ReadTypeTable(data, e, p, |ds|, nTypes) == Ok(Layout(ds, p), r)
    decreases |ds|
  {
    if |ds| > 0 {
      var d, rest, q := ds[0], ds[1..], p + |EncodeDesc(ds[0])|;
      DeclsParts(data, e, p, ds, r, rest, q);
      EncodableTail(ds, nTypes, rest);
      ReadTypeDeclEncoding(data, e, p, d, nTypes, q);
      ReadTypeTableEncoding(data, e, q, rest, nTypes, r);
      TableStep(data, e, p, ds, nTypes, r, d, rest, q, Layout(rest, q));
    }
  }

  lemma TableStep(data: seq<byte>, e: nat, p: nat, ds: seq<TypeDesc>, nTypes: int, r: nat, d: TypeDesc, rest: seq<TypeDesc>, q: nat, es: seq<Entry>)
    requires e <= |data| && |ds| > 0 && d == ds[0] && rest == ds[1..] && q == p + |EncodeDesc(d)|
    requires ReadTypeDecl(data, e, p, nTypes) == Ok(d, q)
    requires ReadTypeTable(data, e, q, |rest|, nTypes) == Ok(es, r) && es == Layout(rest, q)
    ensures ReadTypeTable(data, e, p, |ds|, nTypes) == Ok(Layout(ds, p), r)
  {
    ReadTypeTableCons(data, e, p, |ds|, nTypes, d, q, es, r);
    LayoutCons(ds, p, q);
  }

  lemma LayoutCons(ds: seq<TypeDesc>, p: nat, q: nat)
    requires |ds| > 0 && q == p + |EncodeDesc(ds[0])|
    ensures Layout(ds, p) == [Entry(p, ds[0])] + Layout(ds[1..], q)
  {
  }

  lemma {:induction false} EncodeDeclsLength(ds: seq<TypeDesc>)
    ensures |EncodeDecls(ds)| >= |ds|
    decreases |ds|
  {
    if |ds| > 0 {
      EncodeDeclsLength(ds[1..]);
    }
  }

  /** The magic bytes are read as the magic word. */
  lemma MagicAt(data: seq<byte>, e: nat, p: nat)
    requires e <= |data| && At(data, e, p, DIDL_BYTES)
    ensures ReadWordAt(data, e, p) == Ok(DIDL_MAGIC, p + 4)
  {
    MagicWord(data[p], data[p + 1], data[p + 2], data[p + 3]);
    assert data[p..p + 4] == [data[p], data[p + 1], data[p + 2], data[p + 3]];
  }

  /**
   * Every header whose declarations and main types the parser can accept
   * is read back from its encoding: the same declarations, laid out from q,
   * right after the count, on; main_types_out at q', where they end; the
   * main types; and the cursor at r, right after the encoding.
   */
  lemma HeaderEncoding(data: seq<byte>, e: nat, p: nat, ds: seq<TypeDesc>, mains: seq<int>, q: nat, q': nat, q'': nat, r: nat)
    requires e <= |data| && |ds| <= I32_MAX && |mains| <= I32_MAX && RefsValid(mains, |ds|)
    requires forall i :: 0 <= i < |ds| ==> Encodable(ds[i], |ds|)
    requires At(data, e, p, EncodeHeader(ds, mains))
    requires q == p + 4 + |EncodeU(|ds|)| && q' == q + |EncodeDecls(ds)|
    requires q'' == q' + |EncodeU(|mains|)| && r == q'' + |EncodeRefs(mains)|
    ensures r == p + |EncodeHeader(ds, mains)|
    ensures ParseHeader(data, e, p) == Ok(Header(Layout(ds, q), q', mains), r)
  {
    var n := |ds|;
    var a, b, c, u, m := DIDL_BYTES, EncodeU(n), EncodeDecls(ds), EncodeU(|mains|), EncodeRefs(mains);
    AtParts(data, e, p, a + b + c + u, m, q'');
    AtParts(data, e, p, a + b + c, u, q');
    AtParts(data, e, p, a + b, c, q);
    AtParts(data, e, p, a, b, p + 4);
    MagicAt(data, e, p);
    ReadCountEncoding(data, e, p + 4, n, q);
    EncodeDeclsLength(ds);
    ReadTypeTableEncoding(data, e, q, ds, n, q');
    ReadRefListEncoding(data, e, q', mains, n, q'', r);
    ParseHeaderOf(data, e, p, n, q, Layout(ds, q), q', mains, r);
  }
}
