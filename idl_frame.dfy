/**
 * What the outcome of parse_idl_header depends on. Every read is
 * bounds-checked against the end of the buffer and the cursor only moves
 * forward, so:
 *
 *  - on a buffer cut short, each reading step gives the same outcome or traps
 *    (Shortened), and a whole header cut anywhere before its end traps;
 *  - a header is decided by its own bytes and by nothing after it;
 *  - the bytes of method names and of func annotations, which the decoder
 *    skips, can be anything without changing the outcome.
 */
module IdlFrame {
  import opened Bits
  import opened Outcome
  import opened Buffer
  import opened Leb128
  import opened IdlHeader

  // ------------------------------------------------------------------------
  // Each reading step on a buffer cut short at e'

  lemma AgreeFrom(data: seq<byte>, data': seq<byte>, p: nat, p': nat, e': nat)
    requires Agree(data, data', p, e') && p <= p'
    ensures Agree(data, data', p', e')
  {
  }

  lemma ReadCountCut(data: seq<byte>, e: nat, data': seq<byte>, e': nat, p: nat)
    requires e <= |data| && e' <= e && Agree(data, data', p, e')
    ensures Shortened(ReadCount(data', e', p), ReadCount(data, e, p), e')
  {
    ReadU32Cut(data, e, data', e', p);
  }

  lemma ReadRefCut(data: seq<byte>, e: nat, data': seq<byte>, e': nat, p: nat, nTypes: int)
    requires e <= |data| && e' <= e && Agree(data, data', p, e')
    ensures Shortened(ReadRef(data', e', p, nTypes), ReadRef(data, e, p, nTypes), e')
  {
    ReadI32Cut(data, e, data', e', p);
  }

  lemma {:induction false} ReadRefsCut(data: seq<byte>, e: nat, data': seq<byte>, e': nat, p: nat, n: int, nTypes: int)
    requires e <= |data| && e' <= e && Agree(data, data', p, e')
    ensures Shortened(ReadRefs(data', e', p, n, nTypes), ReadRefs(data, e, p, n, nTypes), e')
    decreases n
  {
    if n > 0 {
      ReadRefCut(data, e, data', e', p, nTypes);
      var h, h' := ReadRef(data, e, p, nTypes), ReadRef(data', e', p, nTypes);
      if h.Ok? {
        var t := ReadRefs(data, e, h.next, n - 1, nTypes);
        if h' == h {
          ReadRefsCut(data, e, data', e', h.next, n - 1, nTypes);
        } else if t.Ok? {
          ReadRefsSound(data, e, h.next, n - 1, nTypes);
        }
      }
    }
  }

  lemma {:induction false} ReadFieldsCut(data: seq<byte>, e: nat, data': seq<byte>, e': nat, p: nat, n: int, nTypes: int)
    requires e <= |data| && e' <= e && Agree(data, data', p, e')
    ensures Shortened(ReadFields(data', e', p, n, nTypes), ReadFields(data, e, p, n, nTypes), e')
    decreases n
  {
    if n > 0 {
      ReadU32Cut(data, e, data', e', p);
      var u := ReadU32(data, e, p);
      if u.Ok? && ReadU32(data', e', p) == u {
        ReadRefCut(data, e, data', e', u.next, nTypes);
        var h, h' := ReadRef(data, e, u.next, nTypes), ReadRef(data', e', u.next, nTypes);
        if h.Ok? {
          var t := ReadFields(data, e, h.next, n - 1, nTypes);
          if h' == h {
            ReadFieldsCut(data, e, data', e', h.next, n - 1, nTypes);
          } else if t.Ok? {
            ReadFieldsSound(data, e, h.next, n - 1, nTypes);
          }
        }
      } else if u.Ok? {
        var h := ReadRef(data, e, u.next, nTypes);
        if h.Ok? && ReadFields(data, e, h.next, n - 1, nTypes).Ok? {
          ReadFieldsSound(data, e, h.next, n - 1, nTypes);
        }
      }
    }
  }

  /** A value in front of the outcome of the rest of a loop. */
  function Prepend<T>(x: T, r: Result<seq<T>>): Result<seq<T>>
  {
    match r
    case Trapped(t) => Trapped(t)
    case Ok(xs, q) => Ok([x] + xs, q)
  }

  lemma PrependShortened<T>(x: T, r': Result<seq<T>>, r: Result<seq<T>>, e': nat)
    requires Shortened(r', r, e')
    ensures Shortened(Prepend(x, r'), Prepend(x, r), e')
  {
  }

  /** One round of the method loop whose name length and type (at position at) are read. */
  lemma MethodsStep(data: seq<byte>, e: nat, p: nat, n: int, nTypes: int, size: nat, q: nat, at: nat, t: int, q': nat)
    requires e <= |data| && n > 0
    requires ReadU32(data, e, p) == Ok(size, q) && at == q + size && ReadRef(data, e, at, nTypes) == Ok(t, q')
    ensures ReadMethods(data, e, p, n, nTypes) == Prepend(Method(size, t), ReadMethods(data, e, q', n - 1, nTypes))
  {
  }

  /** A round of the method loop whose type traps. */
  lemma MethodsTypeTrap(data: seq<byte>, e: nat, p: nat, n: int, nTypes: int, size: nat, q: nat, at: nat, x: Trap)
    requires e <= |data| && n > 0
    requires ReadU32(data, e, p) == Ok(size, q) && at == q + size && ReadRef(data, e, at, nTypes) == Trapped(x)
    ensures ReadMethods(data, e, p, n, nTypes) == Trapped(x)
  {
  }

  lemma {:induction false} ReadMethodsCut(data: seq<byte>, e: nat, data': seq<byte>, e': nat, p: nat, n: int, nTypes: int)
    requires e <= |data| && e' <= e && Agree(data, data', p, e')
    ensures Shortened(ReadMethods(data', e', p, n, nTypes), ReadMethods(data, e, p, n, nTypes), e')
    decreases n, 1
  {
    if n > 0 {
      ReadU32Cut(data, e, data', e', p);
      var u := ReadU32(data, e, p);
      if u.Trapped? || ReadU32(data', e', p) != u {
        MethodsCutName(data, e, data', e', p, n, nTypes);
      } else {
        var at := u.next + u.value;
        MethodsCutFirst(data, e, data', e', p, n, nTypes, u.value, u.next, at);
        MethodsCombine(data, e, data', e', p, n, nTypes, u.value, u.next, at);
      }
    }
  }

  /**
   * The method loop where both buffers read the first name length alike:
   * the type at at, and the rest of the loop when that type is read alike.
   */
  lemma {:induction false} MethodsCutFirst(data: seq<byte>, e: nat, data': seq<byte>, e': nat, p: nat, n: int, nTypes: int,
                                           size: nat, q: nat, at: nat)
    requires e <= |data| && e' <= e && Agree(data, data', p, e') && n > 0
    requires ReadU32(data, e, p) == Ok(size, q) && at == q + size
    ensures Shortened(ReadRef(data', e', at, nTypes), ReadRef(data, e, at, nTypes), e')
    ensures var h := ReadRef(data, e, at, nTypes);
      h.Ok? && ReadRef(data', e', at, nTypes) == h ==>
      Shortened(ReadMethods(data', e', h.next, n - 1, nTypes), ReadMethods(data, e, h.next, n - 1, nTypes), e')
    decreases n, 0
  {
    assert Agree(data, data', at, e');
    ReadRefCut(data, e, data', e', at, nTypes);
    var h := ReadRef(data, e, at, nTypes);
    if h.Ok? && ReadRef(data', e', at, nTypes) == h {
      assert Agree(data, data', h.next, e');
      ReadMethodsCut(data, e, data', e', h.next, n - 1, nTypes);
    }
  }

  /** The method loop from how its first type and its rest read on the two buffers. */
  lemma MethodsCombine(data: seq<byte>, e: nat, data': seq<byte>, e': nat, p: nat, n: int, nTypes: int,
                       size: nat, q: nat, at: nat)
    requires e <= |data| && e' <= |data'| && n > 0
    requires ReadU32(data, e, p) == Ok(size, q) && ReadU32(data', e', p) == Ok(size, q) && at == q + size
    requires Shortened(ReadRef(data', e', at, nTypes), ReadRef(data, e, at, nTypes), e')
    requires var h := ReadRef(data, e, at, nTypes);
      h.Ok? && ReadRef(data', e', at, nTypes) == h ==>
      Shortened(ReadMethods(data', e', h.next, n - 1, nTypes), ReadMethods(data, e, h.next, n - 1, nTypes), e')
    ensures Shortened(ReadMethods(data', e', p, n, nTypes), ReadMethods(data, e, p, n, nTypes), e')
  {
    var h, h' := ReadRef(data, e, at, nTypes), ReadRef(data', e', at, nTypes);
    if h.Ok? && h' == h {
      MethodsStep(data, e, p, n, nTypes, size, q, at, h.value, h.next);
      MethodsStep(data', e', p, n, nTypes, size, q, at, h.value, h.next);
      PrependShortened(Method(size, h.value), ReadMethods(data', e', h.next, n - 1, nTypes), ReadMethods(data, e, h.next, n - 1, nTypes), e');
    } else {
      MethodsCutType(data, e, data', e', p, n, nTypes, size, q, at, h, h');
    }
  }

  /** The method loop where the name length was cut off on the shorter buffer. */
  lemma MethodsCutName(data: seq<byte>, e: nat, data': seq<byte>, e': nat, p: nat, n: int, nTypes: int)
    requires e <= |data| && e' <= |data'| && n > 0
    requires Shortened(ReadU32(data', e', p), ReadU32(data, e, p), e')
    requires ReadU32(data, e, p).Trapped? || ReadU32(data', e', p) != ReadU32(data, e, p)
    ensures Shortened(ReadMethods(data', e', p, n, nTypes), ReadMethods(data, e, p, n, nTypes), e')
  {
    var u := ReadU32(data, e, p);
    if u.Ok? && ReadMethods(data, e, p, n, nTypes).Ok? {
      var h := ReadRef(data, e, u.next + u.value, nTypes);
      ReadMethodsSound(data, e, h.next, n - 1, nTypes);
    }
  }

  /** The method loop where the type h at at traps, or was cut off on the shorter buffer (h'). */
  lemma MethodsCutType(data: seq<byte>, e: nat, data': seq<byte>, e': nat, p: nat, n: int, nTypes: int,
                       size: nat, q: nat, at: nat, h: Result<int>, h': Result<int>)
    requires e <= |data| && e' <= |data'| && n > 0
    requires ReadU32(data, e, p) == Ok(size, q) && ReadU32(data', e', p) == Ok(size, q) && at == q + size
    requires h == ReadRef(data, e, at, nTypes) && h' == ReadRef(data', e', at, nTypes)
    requires Shortened(h', h, e') && !(h.Ok? && h' == h)
    ensures Shortened(ReadMethods(data', e', p, n, nTypes), ReadMethods(data, e, p, n, nTypes), e')
  {
    if h.Trapped? {
      MethodsTypeTrap(data, e, p, n, nTypes, size, q, at, h.reason);
    } else {
      MethodsStep(data, e, p, n, nTypes, size, q, at, h.value, h.next);
      if ReadMethods(data, e, h.next, n - 1, nTypes).Ok? {
        ReadMethodsSound(data, e, h.next, n - 1, nTypes);
      }
    }
    MethodsTypeTrap(data', e', p, n, nTypes, size, q, at, h'.reason);
  }

  lemma ReadRefListCut(data: seq<byte>, e: nat, data': seq<byte>, e': nat, p: nat, nTypes: int)
    requires e <= |data| && e' <= e && Agree(data, data', p, e')
    ensures Shortened(ReadRefList(data', e', p, nTypes), ReadRefList(data, e, p, nTypes), e')
  {
    ReadCountCut(data, e, data', e', p);
    var c := ReadCount(data, e, p);
    if c.Ok? {
      var t := ReadRefs(data, e, c.next, c.value, nTypes);
      if ReadCount(data', e', p) == c {
        ReadRefsCut(data, e, data', e', c.next, c.value, nTypes);
      } else if t.Ok? {
        ReadRefsSound(data, e, c.next, c.value, nTypes);
      }
    }
  }

  lemma ReadFuncBodyCut(data: seq<byte>, e: nat, data': seq<byte>, e': nat, p: nat, nTypes: int)
    requires e <= |data| && e' <= e && Agree(data, data', p, e')
    ensures Shortened(ReadFuncBody(data', e', p, nTypes), ReadFuncBody(data, e, p, nTypes), e')
  {
    ReadRefListCut(data, e, data', e', p, nTypes);
    var a := ReadRefList(data, e, p, nTypes);
    if a.Ok? {
      ReadRefListSound(data, e, p, nTypes);
      var b := ReadRefList(data, e, a.next, nTypes);
      if b.Ok? {
        ReadRefListSound(data, e, a.next, nTypes);
      }
      if ReadRefList(data', e', p, nTypes) == a {
        ReadRefListCut(data, e, data', e', a.next, nTypes);
        if b.Ok? && ReadRefList(data', e', a.next, nTypes) == b {
          ReadCountCut(data, e, data', e', b.next);
        }
      }
    }
  }

  lemma ReadTypeDeclCut(data: seq<byte>, e: nat, data': seq<byte>, e': nat, p: nat, nTypes: int)
    requires e <= |data| && e' <= e && Agree(data, data', p, e')
    ensures Shortened(ReadTypeDecl(data', e', p, nTypes), ReadTypeDecl(data, e, p, nTypes), e')
  {
    ReadI32Cut(data, e, data', e', p);
    var ty := ReadI32(data, e, p);
    if ty.Ok? && ReadI32(data', e', p) == ty {
      var q := ty.next;
      if ty.value == IDL_CON_opt || ty.value == IDL_CON_vec {
        ReadRefCut(data, e, data', e', q, nTypes);
      } else if ty.value == IDL_CON_record || ty.value == IDL_CON_variant {
        RecordCut(data, e, data', e', q, nTypes);
      } else if ty.value == IDL_CON_func {
        ReadFuncBodyCut(data, e, data', e', q, nTypes);
      } else if ty.value == IDL_CON_service {
        ServiceCut(data, e, data', e', q, nTypes);
      }
    } else if ReadTypeDecl(data, e, p, nTypes).Ok? {
      ReadTypeDeclSound(data, e, p, nTypes);
    }
  }

  /** The count and the fields of a record or variant declaration, after its tag. */
  lemma RecordCut(data: seq<byte>, e: nat, data': seq<byte>, e': nat, q: nat, nTypes: int)
    requires e <= |data| && e' <= e && Agree(data, data', q, e')
    ensures ReadCount(data, e, q).Ok? && ReadCount(data', e', q) == ReadCount(data, e, q) ==>
      var c := ReadCount(data, e, q);
      Shortened(ReadFields(data', e', c.next, c.value, nTypes), ReadFields(data, e, c.next, c.value, nTypes), e')
    ensures ReadCount(data, e, q).Ok? && ReadCount(data', e', q) != ReadCount(data, e, q) ==>
      var c := ReadCount(data, e, q);
      ReadCount(data', e', q) == Trapped(OutOfBounds) && e' < c.next
      && (ReadFields(data, e, c.next, c.value, nTypes).Ok? ==> c.next <= ReadFields(data, e, c.next, c.value, nTypes).next)
    ensures Shortened(ReadCount(data', e', q), ReadCount(data, e, q), e')
  {
    ReadCountCut(data, e, data', e', q);
    var c := ReadCount(data, e, q);
    if c.Ok? {
      if ReadCount(data', e', q) == c {
        ReadFieldsCut(data, e, data', e', c.next, c.value, nTypes);
      } else if ReadFields(data, e, c.next, c.value, nTypes).Ok? {
        ReadFieldsSound(data, e, c.next, c.value, nTypes);
      }
    }
  }

  /** The count and the methods of a service declaration, after its tag. */
  lemma ServiceCut(data: seq<byte>, e: nat, data': seq<byte>, e': nat, q: nat, nTypes: int)
    requires e <= |data| && e' <= e && Agree(data, data', q, e')
    ensures ReadCount(data, e, q).Ok? && ReadCount(data', e', q) == ReadCount(data, e, q) ==>
      var c := ReadCount(data, e, q);
      Shortened(ReadMethods(data', e', c.next, c.value, nTypes), ReadMethods(data, e, c.next, c.value, nTypes), e')
    ensures ReadCount(data, e, q).Ok? && ReadCount(data', e', q) != ReadCount(data, e, q) ==>
      var c := ReadCount(data, e, q);
      ReadCount(data', e', q) == Trapped(OutOfBounds) && e' < c.next
      && (ReadMethods(data, e, c.next, c.value, nTypes).Ok? ==> c.next <= ReadMethods(data, e, c.next, c.value, nTypes).next)
    ensures Shortened(ReadCount(data', e', q), ReadCount(data, e, q), e')
  {
    ReadCountCut(data, e, data', e', q);
    var c := ReadCount(data, e, q);
    if c.Ok? {
      if ReadCount(data', e', q) == c {
        ReadMethodsCut(data, e, data', e', c.next, c.value, nTypes);
      } else if ReadMethods(data, e, c.next, c.value, nTypes).Ok? {
        ReadMethodsSound(data, e, c.next, c.value, nTypes);
      }
    }
  }

  lemma {:induction false} ReadTypeTableCut(data: seq<byte>, e: nat, data': seq<byte>, e': nat, p0: nat, k: nat, nTypes: int)
    requires e <= |data| && e' <= e && Agree(data, data', p0, e')
    ensures Shortened(ReadTypeTable(data', e', p0, k, nTypes), ReadTypeTable(data, e, p0, k, nTypes), e')
    decreases k
  {
    if k > 0 {
      ReadTypeTableCut(data, e, data', e', p0, k - 1, nTypes);
      var t := ReadTypeTable(data, e, p0, k - 1, nTypes);
      if t.Ok? {
        ReadTypeTableSound(data, e, p0, k - 1, nTypes);
        var d := ReadTypeDecl(data, e, t.next, nTypes);
        if ReadTypeTable(data', e', p0, k - 1, nTypes) == t {
          ReadTypeDeclCut(data, e, data', e', t.next, nTypes);
        } else if d.Ok? {
          ReadTypeDeclSound(data, e, t.next, nTypes);
        }
      }
    }
  }

  // ------------------------------------------------------------------------
  // A header cut short

  /**
   * parse_idl_header on a buffer that ends at e' <= e and holds the same
   * bytes before e': the same outcome, or a trap, and always the same
   * outcome when the header on the longer buffer ends by e'.
   */
  lemma ParseHeaderCut(data: seq<byte>, e: nat, data': seq<byte>, e': nat, p: nat)
    requires e <= |data| && e' <= e && Agree(data, data', p, e')
    ensures var r, r' := ParseHeader(data, e, p), ParseHeader(data', e', p);
      r' == r || (r'.Trapped? && !(r.Ok? && r.next <= e'))
  {
    var r := ParseHeader(data, e, p);
    if r.Ok? {
      HeaderSound(data, e, p);
    }
    ReadWordCut(data, e, data', e', p);
    var w := ReadWordAt(data, e, p);
    if w.Ok? && ReadWordAt(data', e', p) == w && w.value == DIDL_MAGIC {
      ReadCountCut(data, e, data', e', w.next);
      var c := ReadCount(data, e, w.next);
      if c.Ok? && c.value >= 0 && c.next + c.value < e {
        var t := ReadTypeTable(data, e, c.next, c.value, c.value);
        if t.Ok? {
          ReadTypeTableSound(data, e, c.next, c.value, c.value);
          if ReadRefList(data, e, t.next, c.value).Ok? {
            ReadRefListSound(data, e, t.next, c.value);
          }
        }
        if ReadCount(data', e', w.next) == c {
          HeaderCutTable(data, e, data', e', c.next, c.value);
        }
      }
    }
  }

  /** The type table and the main types of a header whose magic word and count both buffers read alike. */
  lemma HeaderCutTable(data: seq<byte>, e: nat, data': seq<byte>, e': nat, p2: nat, n: nat)
    requires e <= |data| && e' <= e && Agree(data, data', p2, e')
    ensures var t, t' := ReadTypeTable(data, e, p2, n, n), ReadTypeTable(data', e', p2, n, n);
      && Shortened(t', t, e')
      && (t.Ok? && t' == t ==> Shortened(ReadRefList(data', e', t.next, n), ReadRefList(data, e, t.next, n), e'))
  {
    ReadTypeTableCut(data, e, data', e', p2, n, n);
    var t := ReadTypeTable(data, e, p2, n, n);
    if t.Ok? {
      ReadTypeTableSound(data, e, p2, n, n);
      ReadRefListCut(data, e, data', e', t.next, n);
    }
  }

  /**
   * A buffer that ends anywhere before the end of a header that parses on a
   * longer buffer makes parse_idl_header trap: a message cut short is never
   * decoded as something else.
   */
  lemma HeaderTruncated(data: seq<byte>, e: nat, p: nat, e': nat)
    requires e <= |data| && e' <= e && ParseHeader(data, e, p).Ok? && e' < ParseHeader(data, e, p).next
    ensures ParseHeader(data, e', p).Trapped?
  {
    HeaderSound(data, e, p);
    ParseHeaderCut(data, e, data, e', p);
    if ParseHeader(data, e', p).Ok? {
      HeaderSound(data, e', p);
    }
  }

  /**
   * A header is decided by its own bytes: any buffer that holds the same
   * bytes from p to the end of the header, and ends anywhere after it,
   * parses to the same header with the same cursor.
   */
  lemma HeaderPrefix(data: seq<byte>, e: nat, data': seq<byte>, e': nat, p: nat)
    requires e <= |data| && ParseHeader(data, e, p).Ok?
    requires ParseHeader(data, e, p).next <= e' <= |data'| && Agree(data, data', p, ParseHeader(data, e, p).next)
    ensures ParseHeader(data', e', p) == ParseHeader(data, e, p)
  {
    var x := ParseHeader(data, e, p).next;
    HeaderSound(data, e, p);
    ParseHeaderCut(data, e, data', x, p);
    ParseHeaderCut(data', e', data', x, p);
  }

  // ------------------------------------------------------------------------
  // The same bytes give the same outcome

  lemma U32Window(data: seq<byte>, e: nat, data': seq<byte>, e': nat, p: nat, x: nat)
    requires e <= |data| && x <= e && x <= e' <= |data'| && Agree(data, data', p, x)
    requires ReadU32(data, e, p).Ok? && ReadU32(data, e, p).next <= x
    ensures ReadU32(data', e', p) == ReadU32(data, e, p)
  {
    ReadU32Cut(data, e, data', x, p);
    ReadU32Cut(data', e', data', x, p);
  }

  lemma I32Window(data: seq<byte>, e: nat, data': seq<byte>, e': nat, p: nat, x: nat)
    requires e <= |data| && x <= e && x <= e' <= |data'| && Agree(data, data', p, x)
    requires ReadI32(data, e, p).Ok? && ReadI32(data, e, p).next <= x
    ensures ReadI32(data', e', p) == ReadI32(data, e, p)
  {
    ReadI32Cut(data, e, data', x, p);
    ReadI32Cut(data', e', data', x, p);
  }

  lemma CountWindow(data: seq<byte>, e: nat, data': seq<byte>, e': nat, p: nat, x: nat)
    requires e <= |data| && x <= e && x <= e' <= |data'| && Agree(data, data', p, x)
    requires ReadCount(data, e, p).Ok? && ReadCount(data, e, p).next <= x
    ensures ReadCount(data', e', p) == ReadCount(data, e, p)
  {
    ReadCountCut(data, e, data', x, p);
    ReadCountCut(data', e', data', x, p);
  }

  lemma RefWindow(data: seq<byte>, e: nat, data': seq<byte>, e': nat, p: nat, nTypes: int, x: nat)
    requires e <= |data| && x <= e && x <= e' <= |data'| && Agree(data, data', p, x)
    requires ReadRef(data, e, p, nTypes).Ok? && ReadRef(data, e, p, nTypes).next <= x
    ensures ReadRef(data', e', p, nTypes) == ReadRef(data, e, p, nTypes)
  {
    ReadRefCut(data, e, data', x, p, nTypes);
    ReadRefCut(data', e', data', x, p, nTypes);
  }

  lemma RefListWindow(data: seq<byte>, e: nat, data': seq<byte>, e': nat, p: nat, nTypes: int, x: nat)
    requires e <= |data| && x <= e && x <= e' <= |data'| && Agree(data, data', p, x)
    requires ReadRefList(data, e, p, nTypes).Ok? && ReadRefList(data, e, p, nTypes).next <= x
    ensures ReadRefList(data', e', p, nTypes) == ReadRefList(data, e, p, nTypes)
  {
    ReadRefListCut(data, e, data', x, p, nTypes);
    ReadRefListCut(data', e', data', x, p, nTypes);
  }

  lemma U32Same(data: seq<byte>, data': seq<byte>, e: nat, p: nat)
    requires Agree(data, data', p, e)
    ensures ReadU32(data', e, p) == ReadU32(data, e, p)
  {
    ReadU32Cut(data, e, data', e, p);
    ReadU32Cut(data', e, data, e, p);
  }

  lemma RefSame(data: seq<byte>, data': seq<byte>, e: nat, p: nat, nTypes: int)
    requires Agree(data, data', p, e)
    ensures ReadRef(data', e, p, nTypes) == ReadRef(data, e, p, nTypes)
  {
    ReadRefCut(data, e, data', e, p, nTypes);
    ReadRefCut(data', e, data, e, p, nTypes);
  }

  lemma MethodsSame(data: seq<byte>, data': seq<byte>, e: nat, p: nat, n: int, nTypes: int)
    requires Agree(data, data', p, e)
    ensures ReadMethods(data', e, p, n, nTypes) == ReadMethods(data, e, p, n, nTypes)
  {
    ReadMethodsCut(data, e, data', e, p, n, nTypes);
    ReadMethodsCut(data', e, data, e, p, n, nTypes);
  }

  lemma FuncBodySame(data: seq<byte>, data': seq<byte>, e: nat, p: nat, nTypes: int)
    requires Agree(data, data', p, e)
    ensures ReadFuncBody(data', e, p, nTypes) == ReadFuncBody(data, e, p, nTypes)
  {
    ReadFuncBodyCut(data, e, data', e, p, nTypes);
    ReadFuncBodyCut(data', e, data, e, p, nTypes);
  }

  lemma DeclSame(data: seq<byte>, data': seq<byte>, e: nat, p: nat, nTypes: int)
    requires Agree(data, data', p, e)
    ensures ReadTypeDecl(data', e, p, nTypes) == ReadTypeDecl(data, e, p, nTypes)
  {
    ReadTypeDeclCut(data, e, data', e, p, nTypes);
    ReadTypeDeclCut(data', e, data, e, p, nTypes);
  }

  // ------------------------------------------------------------------------
  // The bytes the decoder skips

  /** Position i lies in one of the method names that the loop over n methods at p steps over. */
  predicate InName(data: seq<byte>, e: nat, p: nat, n: int, nTypes: int, i: nat)
    requires e <= |data|
    decreases n
  {
    && n > 0
    && ReadU32(data, e, p).Ok?
    && var size, q := ReadU32(data, e, p).value, ReadU32(data, e, p).next;
      || q <= i < q + size
      || (ReadRef(data, e, q + size, nTypes).Ok? && InName(data, e, ReadRef(data, e, q + size, nTypes).next, n - 1, nTypes, i))
  }

  lemma {:induction false} InNameAfter(data: seq<byte>, e: nat, p: nat, n: int, nTypes: int, i: nat)
    requires e <= |data| && InName(data, e, p, n, nTypes, i)
    ensures ReadU32(data, e, p).Ok? && ReadU32(data, e, p).next <= i
    decreases n
  {
    var u := ReadU32(data, e, p);
    var h := ReadRef(data, e, u.next + u.value, nTypes);
    if !(u.next <= i < u.next + u.value) {
      InNameAfter(data, e, h.next, n - 1, nTypes, i);
    }
  }

  /**
   * The method loop does not look at the bytes of the names it skips: a
   * buffer that differs from data only inside those names gives the same
   * outcome.
   */
  lemma {:induction false} MethodNamesIgnored(data: seq<byte>, data': seq<byte>, e: nat, p: nat, n: int, nTypes: int)
    requires e <= |data| && |data'| == |data|
    requires forall i :: p <= i < |data| && !InName(data, e, p, n, nTypes, i) ==> data'[i] == data[i]
    ensures ReadMethods(data', e, p, n, nTypes) == ReadMethods(data, e, p, n, nTypes)
    decreases n, 2
  {
    if n > 0 {
      var u := ReadU32(data, e, p);
      if u.Trapped? {
        forall i | p <= i < e
          ensures data'[i] == data[i]
        {
          assert !InName(data, e, p, n, nTypes, i);
        }
        MethodsSame(data, data', e, p, n, nTypes);
      } else {
        MethodNameFirst(data, data', e, p, n, nTypes, u.value, u.next, u.next + u.value);
      }
    }
  }

  /** MethodNamesIgnored once the first name length is read; the type lies at at. */
  lemma {:induction false} MethodNameFirst(data: seq<byte>, data': seq<byte>, e: nat, p: nat, n: int, nTypes: int,
                                           size: nat, q: nat, at: nat)
    requires e <= |data| && |data'| == |data| && n > 0
    requires ReadU32(data, e, p) == Ok(size, q) && at == q + size
    requires forall i :: p <= i < |data| && !InName(data, e, p, n, nTypes, i) ==> data'[i] == data[i]
    ensures ReadMethods(data', e, p, n, nTypes) == ReadMethods(data, e, p, n, nTypes)
    decreases n, 1
  {
    forall i | p <= i < q
      ensures data'[i] == data[i]
    {
      if InName(data, e, p, n, nTypes, i) {
        InNameAfter(data, e, p, n, nTypes, i);
      }
    }
    U32Window(data, e, data', e, p, q);
    var h := ReadRef(data, e, at, nTypes);
    if h.Trapped? {
      forall i | at <= i < e
        ensures data'[i] == data[i]
      {
        assert !InName(data, e, p, n, nTypes, i);
      }
      RefSame(data, data', e, at, nTypes);
      MethodsTypeTrap(data, e, p, n, nTypes, size, q, at, h.reason);
      MethodsTypeTrap(data', e, p, n, nTypes, size, q, at, h.reason);
    } else {
      MethodNameIgnoredRest(data, data', e, p, n, nTypes, size, q, at, h.value, h.next);
    }
  }

  /** The rest of MethodNamesIgnored, once the first name length and type are read. */
  lemma {:induction false} MethodNameIgnoredRest(data: seq<byte>, data': seq<byte>, e: nat, p: nat, n: int, nTypes: int,
                                                 size: nat, q: nat, at: nat, t: int, q': nat)
    requires e <= |data| && |data'| == |data| && n > 0
    requires ReadU32(data, e, p) == Ok(size, q) && ReadU32(data', e, p) == Ok(size, q)
    requires at == q + size && ReadRef(data, e, at, nTypes) == Ok(t, q')
    requires forall i :: p <= i < |data| && !InName(data, e, p, n, nTypes, i) ==> data'[i] == data[i]
    ensures ReadMethods(data', e, p, n, nTypes) == ReadMethods(data, e, p, n, nTypes)
    decreases n, 0
  {
    NamesRestAgree(data, data', e, p, n, nTypes, size, q, at, t, q');
    RefWindow(data, e, data', e, at, nTypes, q');
    MethodNamesIgnored(data, data', e, q', n - 1, nTypes);
    MethodsStep(data, e, p, n, nTypes, size, q, at, t, q');
    MethodsStep(data', e, p, n, nTypes, size, q, at, t, q');
  }

  /** Past the first name, the two buffers agree on the type and everywhere outside the remaining names. */
  lemma NamesRestAgree(data: seq<byte>, data': seq<byte>, e: nat, p: nat, n: int, nTypes: int,
                       size: nat, q: nat, at: nat, t: int, q': nat)
    requires e <= |data| && |data'| == |data| && n > 0
    requires ReadU32(data, e, p) == Ok(size, q) && at == q + size && ReadRef(data, e, at, nTypes) == Ok(t, q')
    requires forall i :: p <= i < |data| && !InName(data, e, p, n, nTypes, i) ==> data'[i] == data[i]
    ensures Agree(data, data', at, q')
    ensures forall i :: q' <= i < |data| && !InName(data, e, q', n - 1, nTypes, i) ==> data'[i] == data[i]
  {
    forall i | at <= i < |data| && !InName(data, e, q', n - 1, nTypes, i)
      ensures data'[i] == data[i]
    {
      assert !InName(data, e, p, n, nTypes, i);
    }
    forall i | at <= i < q'
      ensures data'[i] == data[i]
    {
      if InName(data, e, q', n - 1, nTypes, i) {
        InNameAfter(data, e, q', n - 1, nTypes, i);
      }
    }
  }

  /** Position i lies in the annotation bytes that the function type at p steps over. */
  predicate InAnnotations(data: seq<byte>, e: nat, p: nat, nTypes: int, i: nat)
    requires e <= |data|
  {
    var b := ReadFuncBody(data, e, p, nTypes);
    b.Ok? && b.value.Func? && b.next - b.value.annotations <= i < b.next
  }

  lemma InAnnotationsAfter(data: seq<byte>, e: nat, p: nat, nTypes: int, i: nat)
    requires e <= |data| && InAnnotations(data, e, p, nTypes, i)
    ensures p < i
  {
    var a := ReadRefList(data, e, p, nTypes);
    ReadRefListSound(data, e, p, nTypes);
    var b := ReadRefList(data, e, a.next, nTypes);
    ReadRefListSound(data, e, a.next, nTypes);
    ReadU32Sound(data, e, b.next);
  }

  /**
   * A function type does not look at its annotation bytes: a buffer that
   * differs from data only there gives the same outcome.
   */
  lemma FuncBodyIgnored(data: seq<byte>, data': seq<byte>, e: nat, p: nat, nTypes: int)
    requires e <= |data| && |data'| == |data|
    requires forall i :: p <= i < |data| && !InAnnotations(data, e, p, nTypes, i) ==> data'[i] == data[i]
    ensures ReadFuncBody(data', e, p, nTypes) == ReadFuncBody(data, e, p, nTypes)
  {
    if ReadFuncBody(data, e, p, nTypes).Trapped? {
      FuncBodySame(data, data', e, p, nTypes);
    } else {
      var a := ReadRefList(data, e, p, nTypes);
      var b := ReadRefList(data, e, a.next, nTypes);
      var c := ReadCount(data, e, b.next);
      ReadRefListSound(data, e, p, nTypes);
      ReadRefListSound(data, e, a.next, nTypes);
      ReadU32Sound(data, e, b.next);
      assert Agree(data, data', p, c.next);
      RefListWindow(data, e, data', e, p, nTypes, c.next);
      RefListWindow(data, e, data', e, a.next, nTypes, c.next);
      CountWindow(data, e, data', e, b.next, c.next);
    }
  }

  /**
   * Position i lies in bytes the declaration at p steps over: the
   * annotations of a function type or the method names of a service.
   */
  predicate Skipped(data: seq<byte>, e: nat, p: nat, nTypes: int, i: nat)
    requires e <= |data|
  {
    && ReadI32(data, e, p).Ok?
    && var ty, q := ReadI32(data, e, p).value, ReadI32(data, e, p).next;
      || (ty == IDL_CON_func && InAnnotations(data, e, q, nTypes, i))
      || (ty == IDL_CON_service && ReadCount(data, e, q).Ok?
          && InName(data, e, ReadCount(data, e, q).next, ReadCount(data, e, q).value, nTypes, i))
  }

  /**
   * A declaration's outcome is decided by the bytes it reads: a buffer
   * that differs from data only in skipped names and annotations gives the
   * same declaration (or the same trap).
   */
  lemma DeclSkippedIgnored(data: seq<byte>, data': seq<byte>, e: nat, p: nat, nTypes: int)
    requires e <= |data| && |data'| == |data|
    requires forall i :: p <= i < |data| && !Skipped(data, e, p, nTypes, i) ==> data'[i] == data[i]
    ensures ReadTypeDecl(data', e, p, nTypes) == ReadTypeDecl(data, e, p, nTypes)
  {
    var ty := ReadI32(data, e, p);
    if ty.Trapped? || (ty.value != IDL_CON_func && ty.value != IDL_CON_service) {
      DeclSame(data, data', e, p, nTypes);
    } else if ty.value == IDL_CON_func {
      forall i | p <= i < ty.next
        ensures data'[i] == data[i]
      {
        if InAnnotations(data, e, ty.next, nTypes, i) {
          InAnnotationsAfter(data, e, ty.next, nTypes, i);
        }
      }
      ReadI32Sound(data, e, p);
      I32Window(data, e, data', e, p, ty.next);
      FuncBodyIgnored(data, data', e, ty.next, nTypes);
    } else {
      DeclServiceIgnored(data, data', e, p, nTypes, ty.next);
    }
  }

  /** DeclSkippedIgnored for a service, whose tag ends at q. */
  lemma DeclServiceIgnored(data: seq<byte>, data': seq<byte>, e: nat, p: nat, nTypes: int, q: nat)
    requires e <= |data| && |data'| == |data|
    requires ReadI32(data, e, p) == Ok(IDL_CON_service, q)
    requires forall i :: p <= i < |data| && !Skipped(data, e, p, nTypes, i) ==> data'[i] == data[i]
    ensures ReadTypeDecl(data', e, p, nTypes) == ReadTypeDecl(data, e, p, nTypes)
  {
    var c := ReadCount(data, e, q);
    if c.Trapped? {
      DeclSame(data, data', e, p, nTypes);
    } else {
      forall i | p <= i < c.next
        ensures data'[i] == data[i]
      {
        if InName(data, e, c.next, c.value, nTypes, i) {
          InNameAfter(data, e, c.next, c.value, nTypes, i);
          ReadU32Sound(data, e, c.next);
        }
      }
      ReadI32Sound(data, e, p);
      ReadU32Sound(data, e, q);
      I32Window(data, e, data', e, p, c.next);
      CountWindow(data, e, data', e, q, c.next);
      MethodNamesIgnored(data, data', e, c.next, c.value, nTypes);
    }
  }
}
