# The IDL header decoder of the Motoko runtime, in Dafny

This project models `rts/idl.c` of the Motoko runtime. It is the code that
first reads every incoming inter-actor message. It has three parts:

- `read_u32_of_leb128` decodes an unsigned LEB128 number (section 7.6,
  "Variable Length Data", of DWARF version 4) into a `uint32_t`.
- `read_i32_of_sleb128` decodes a signed SLEB128 number into an `int32_t`.
- `parse_idl_header` reads the header of an early Candid message:
  - the magic word `DIDL`;
  - the number of types;
  - one declaration per type, each with its immediate type references
    checked against `[IDL_PRIM_lowest, n_types)`;
  - the list of main types.

  It records in `typtbl` where each declaration begins and reports in
  `main_types_out` where the main types begin.

The model has three layers.

- **Functions that describe each loop.**
  - `Leb128` holds `ReadU32From` and `ReadI32From`: the `do … while` loops
    from any state of the locals `r`, `s` and `last_sign_bit_set`.
  - `IdlHeader` holds one function per reading loop of `parse_idl_header`,
    plus the `IDL_PRIM_*` and `IDL_CON_*` constants. The table loop
    `ReadTypeTable` is defined round by round, in the order of the C `for`
    loop.
  - Every `idl_trap_with` call, and the bounds check of `read_byte` and
    `read_word`, is a `Trap` value of `Outcome`. A step returns
    `Ok(value, next)` or `Trapped(reason)`. The checks run in the order of
    the C code, so the trap that fires is the one the C code raises.
- **Imperative code (`Idl`).** A `Buffer.Buf` object holds the bytes, the end
  `e` and a mutable cursor `p`. The methods move `p` the way the C code moves
  `buf->p`, with the same loops and checks. `ParseIdlHeader` allocates a
  `typtbl` array and fills it inside the loop. Each method is proved to have
  the `Shape` of the function that describes it: the same trap, or success
  at the same cursor. `ReadTypeTableInto` and `ParseIdlHeader` are also
  proved to leave in `typtbl` the `Offsets` of the function's entries. So
  the lemmas about outcomes, cursors and entry positions hold for the code.
  The lemmas about the collected declarations describe the bytes the code
  has checked, not values it returns.
- **What the outcome depends on (`IdlFrame`).** Every reader, run on a
  buffer cut short, either gives the same result or traps out of bounds
  while the full read needed the missing bytes. So a header cut anywhere
  before its end traps, and a header is decided by its own bytes. The bytes
  of method names and func annotations, which the code skips, may be
  anything without changing the outcome.
- **An encoder (`IdlEncoding`).** It writes declarations and main types with
  shortest LEB128/SLEB128 numbers. It is proved to be read back by the
  parser, which gives an independent definition of what the parser accepts.

The decoders are proved correct against the DWARF encodings `EncodeU` and
`EncodeS`:

- They succeed exactly on the shortest encodings, of at most five bytes.
- They trap on the non-shortest, overflowing or truncated groups the C code
  rejects.
- The signed fifth-byte check is loose: fifth bytes `0x08`–`0x0F` and
  `0x70`–`0x77` are accepted, and the value wraps. The model reproduces this
  and states it exactly (`ReadI32Exact`, `LooseFifthByte`).

The header lemmas prove the safety property the parser exists for: on
success, every type reference of every declaration and every main type lies
in `[IDL_PRIM_lowest, n_types)`. They also prove the layout of `typtbl`.

## Model

| member | source | states |
|---|---|---|
| Buffer.ReadByteAt | rts/idl.c:11 | `read_byte` succeeds exactly when `p < e`, with `data[p]`, and advances by one; otherwise it traps out of bounds |
| Buffer.ReadWordAt | rts/idl.c:98 | `read_word` succeeds exactly when four bytes remain, with a uint32_t, and advances by four; otherwise it traps out of bounds |
| Buffer.Buf.ReadByte | rts/idl.c:11 | the cursor method returns what `ReadByteAt` gives and moves the cursor only on success |
| Buffer.Buf.ReadWord | rts/idl.c:98 | the cursor method returns what `ReadWordAt` gives and moves the cursor only on success |
| Bits.ToInt32 | rts/idl.c:101 | a uint32_t read as an int32_t (two's complement) lies in the int32_t range |
| Bits.SignExtend | rts/idl.c:48-50 | `r \| (~0 << s)` stays a uint32_t |
| Bits.Int32WrapCongruent | rts/idl.c:51 | the int32_t returned is the only one with the same low 32 bits as the unbounded value |
| Leb128.ReadU32From | rts/idl.c:10-23 | a successful loop yields a uint32_t and consumes at least one byte, staying within the buffer |
| Leb128.ReadU32 | rts/idl.c:6-25 | a success is a uint32_t read from at least one byte within the buffer |
| Leb128.ReadU32Iff | rts/idl.c:6-25 | the decoder succeeds exactly when the bytes at the cursor are the shortest LEB128 encoding of some uint32_t value |
| Leb128.ReadU32Sound | rts/idl.c:6-25 | what the decoder accepts is exactly `EncodeU(value)`, at most five bytes, value below 2^32, cursor after the encoding |
| Leb128.ReadU32Complete | rts/idl.c:6-25 | every uint32_t is read back from its encoding, of at most five bytes, and the cursor moves past exactly that encoding |
| Leb128.ReadU32TrailingZero | rts/idl.c:12-15 | a 0x00 byte after one to four continuation bytes traps "not shortest encoding" (e.g. `0x80 0x00`) |
| Leb128.ReadU32Overflow | rts/idl.c:16-20 | a fifth byte with a nonzero upper nibble traps "int overflow" |
| Leb128.ReadU32Truncated | rts/idl.c:10-11 | a group cut off by the end of the buffer traps out of bounds |
| Leb128.ReadU32TooLarge | rts/idl.c:16-20 | the encoding of any value of 2^32 or more traps "int overflow" at its fifth byte |
| Leb128.ReadU32Cut | rts/idl.c:6-25 | on a buffer that ends earlier and agrees up to its end, the decoder gives the same result, or traps out of bounds where the full read went past the new end |
| Leb128.ReadI32From | rts/idl.c:32-51 | a successful loop yields an int32_t and consumes at least one byte, staying within the buffer |
| Leb128.ReadI32 | rts/idl.c:27-52 | a success is an int32_t read from at least one byte within the buffer |
| Leb128.ReadI32Iff | rts/idl.c:27-52 | the decoder succeeds exactly when the bytes at the cursor are the shortest SLEB128 encoding of a value in [-2^32, 2^32) |
| Leb128.ReadI32Sound | rts/idl.c:27-52 | what the decoder accepts is the shortest encoding of a value w in [-2^32, 2^32), at most five bytes, and the result is w truncated to 32 bits |
| Leb128.ReadI32Complete | rts/idl.c:27-52 | every w in [-2^32, 2^32) is read back from its shortest encoding, as the int32_t with the same low 32 bits |
| Leb128.ReadI32CompleteInt32 | rts/idl.c:47-50 | every int32_t, negative ones included, is read back exactly from its encoding, which is consumed exactly |
| Leb128.ReadI32Exact | rts/idl.c:34-38 | the result equals the value of the bytes exactly when that value is an int32_t; the other accepted groups are five bytes long and wrap |
| Leb128.LooseFifthByte | rts/idl.c:34-38 | `80 80 80 80 08` denotes 2^31 yet is accepted, as -2^31, whose own encoding ends in 0x78 |
| Leb128.ReadI32Redundant | rts/idl.c:39-42 | 0x00 after a byte with bit 6 clear, or 0x7F after one with bit 6 set, traps "not shortest encoding" |
| Leb128.ReadI32Overflow | rts/idl.c:34-38 | a fifth byte whose upper nibble is neither 0x0 nor 0x7 traps "int overflow", so no more than five bytes are read |
| Leb128.ReadI32Truncated | rts/idl.c:32-33 | a signed group cut off by the end of the buffer traps out of bounds |
| Leb128.ReadI32Cut | rts/idl.c:27-52 | on a buffer that ends earlier and agrees up to its end, the signed decoder gives the same result, or traps out of bounds where the full read went past the new end |
| IdlHeader.Tag | rts/idl.c:77-82 | every declaration starts with one of the six constructor codes from -18 to -23 |
| IdlHeader.ReadCount | rts/idl.c:125 | a count is the uint32_t read into a C int: it succeeds exactly when the u32 read does and equals it exactly when it is below 2^31 |
| IdlHeader.ReadRef | rts/idl.c:119-120 | a reference that is read lies in [IDL_PRIM_lowest, n_types) |
| IdlHeader.ReadRefsSound | rts/idl.c:138-146 | the reference loop reads `max(n, 0)` references, all valid, one byte or more each |
| IdlHeader.ReadFieldsSound | rts/idl.c:124-135 | the field loop reads `max(n, 0)` fields with valid types and uint32_t ids that are not checked |
| IdlHeader.ReadMethodsSound | rts/idl.c:151-159 | the method loop reads `max(n, 0)` methods with valid types; name lengths are uint32_t |
| IdlHeader.ReadRefListSound | rts/idl.c:167-170 | the main type list holds valid references only and ends within the buffer |
| IdlHeader.ReadTypeDeclSound | rts/idl.c:115-163 | an accepted declaration has the constructor code it starts with and valid immediate references |
| IdlHeader.DeclTag | rts/idl.c:115-163 | a tag at or above -17 traps "type index too high", a tag below -23 traps "future type" |
| IdlHeader.OptVecDecl | rts/idl.c:118-123 | an opt or vec declaration is accepted exactly when its reference is valid, else "type index out of range" |
| IdlHeader.ReadRefEncoding | rts/idl.c:119-120 | an encoded int32_t reference is read back when valid and traps "type index out of range" otherwise |
| IdlHeader.ReadTypeTableSound | rts/idl.c:113-164 | after k rounds the table holds k entries, each with valid references |
| IdlHeader.ReadTypeTableStep | rts/idl.c:113-115 | one more round appends the entry of the declaration at the cursor |
| IdlHeader.ReadTypeTableLast | rts/idl.c:113-164 | a table read in k > 0 rounds is the one after k - 1 rounds plus one declaration |
| IdlHeader.ReadTypeTableTrapStep | rts/idl.c:113-164 | a declaration that traps ends the table loop with its trap |
| IdlHeader.ReadTypeTableTrapped | rts/idl.c:113-164 | once the table loop traps, that trap is the outcome however many rounds were due |
| IdlHeader.ReadTypeTableTrapOne | rts/idl.c:113-164 | a trapped table loop stays trapped one round later |
| IdlHeader.HeaderSound | rts/idl.c:96-173 | on success there are fewer than 2^31 types, every reference of every declaration and every main type is valid, and main_types_out lies after the count and before the final cursor |
| IdlHeader.MagicWord | rts/idl.c:98 | only the bytes "DIDL" read as 0x4C444944 |
| IdlHeader.HeaderMagic | rts/idl.c:98 | without the magic bytes the parse traps (out of bounds or "missing magic bytes") before anything else is read |
| IdlHeader.HeaderCount | rts/idl.c:101-109 | a count of 2^31 or more traps "overflow in number of types"; a count that leaves too few bytes traps "too many types" |
| IdlHeader.NegativeFieldCount | rts/idl.c:124-129 | a field count of 2^32 - 1 becomes -1 in a C int, and the record is accepted with no fields |
| IdlHeader.ServiceNameSkipped | rts/idl.c:151-159 | a method name's bytes are skipped unread |
| IdlHeader.AnnotationsOvershoot | rts/idl.c:147-150 | annotations move the cursor past the end of the buffer unchecked; only the next read traps |
| IdlHeader.LaidTail | rts/idl.c:113-164 | entries lie back to back exactly when the first is read where they start and the rest lie back to back after it |
| IdlHeader.LaidInit | rts/idl.c:113-164 | entries plus one more lie back to back exactly when the first ones end where the last one begins and it is read there |
| IdlHeader.LaidPrefix | rts/idl.c:113-164 | the entries before the last of a back-to-back run lie back to back up to where the last one begins |
| IdlHeader.LaidSnoc | rts/idl.c:113-164 | a declaration read where back-to-back entries end extends them |
| IdlHeader.TypeTableLaid | rts/idl.c:112-164 | the table loop succeeds with entries es exactly when es are n declarations lying back to back, each entry where its tag begins |
| IdlHeader.TableIsLaid | rts/idl.c:112-164 | a successful table loop lays its entries back to back |
| IdlHeader.LaidIsTable | rts/idl.c:112-164 | n entries lying back to back are what the table loop reads |
| IdlHeader.LaidIncreasing | rts/idl.c:113-114 | the table entries are strictly increasing, and each lies before the end of the buffer |
| IdlHeader.HeaderLayout | rts/idl.c:96-173 | on success: magic first, count n after it, n entries from right after the count, strictly increasing, each declaration ending where the next begins, main_types_out where the last ends, then the main types up to the final cursor |
| IdlFrame.ReadRefsCut | rts/idl.c:138-146 | the reference loop on a buffer cut short gives the same result or traps out of bounds where the full loop needed the missing bytes |
| IdlFrame.ReadFieldsCut | rts/idl.c:124-135 | the field loop on a buffer cut short gives the same result or traps out of bounds where the full loop needed the missing bytes |
| IdlFrame.ReadMethodsCut | rts/idl.c:151-159 | the method loop on a buffer cut short gives the same result or traps out of bounds where the full loop needed the missing bytes |
| IdlFrame.ReadFuncBodyCut | rts/idl.c:136-150 | a func body on a buffer cut short gives the same result or traps out of bounds where the full read needed the missing bytes |
| IdlFrame.ReadTypeDeclCut | rts/idl.c:115-163 | a declaration on a buffer cut short gives the same result or traps out of bounds where the full read needed the missing bytes |
| IdlFrame.ReadTypeTableCut | rts/idl.c:113-164 | the table loop on a buffer cut short gives the same result or traps out of bounds where the full loop needed the missing bytes |
| IdlFrame.ParseHeaderCut | rts/idl.c:96-173 | the header parse on a buffer cut short gives the same result or traps where the full parse needed the missing bytes |
| IdlFrame.HeaderTruncated | rts/idl.c:96-173 | a header whose buffer ends anywhere before the header's own end traps |
| IdlFrame.HeaderPrefix | rts/idl.c:96-173 | an accepted header is accepted alike from any buffer holding the same bytes up to its end, whatever follows |
| IdlFrame.MethodNamesIgnored | rts/idl.c:151-159 | the method loop gives the same result on any buffer that differs only inside the method names it skips |
| IdlFrame.FuncBodyIgnored | rts/idl.c:136-150 | a func body gives the same result on any buffer that differs only in its annotation bytes |
| IdlFrame.DeclSkippedIgnored | rts/idl.c:115-163 | a declaration gives the same result on any buffer that differs only in the method names or annotations it skips |
| IdlEncoding.Layout | rts/idl.c:113-114 | one entry per written declaration, holding that declaration |
| IdlEncoding.ReadRefsEncoding | rts/idl.c:138-146 | valid references written in SLEB128 are read back, with the cursor after them |
| IdlEncoding.ReadRefListEncoding | rts/idl.c:167-170 | a count and valid references are read back as the list |
| IdlEncoding.ReadFieldsEncoding | rts/idl.c:124-135 | fields with valid types and uint32_t ids are read back |
| IdlEncoding.ReadMethodsEncoding | rts/idl.c:151-159 | methods with valid types are read back, their names skipped |
| IdlEncoding.ReadFuncEncoding | rts/idl.c:136-150 | a func body with valid argument and result types and n annotation bytes is read back |
| IdlEncoding.ReadTypeDeclEncoding | rts/idl.c:115-163 | every encodable declaration is read back from its encoding, cursor after it |
| IdlEncoding.ReadTypeTableCons | rts/idl.c:113-164 | the table read from a declaration's start is that declaration's entry before the table after it |
| IdlEncoding.ReadTypeTableEncoding | rts/idl.c:113-164 | encodable declarations written back to back are read back as a table with their layout |
| IdlEncoding.MagicAt | rts/idl.c:98 | the bytes "DIDL" are read as the magic word |
| IdlEncoding.HeaderEncoding | rts/idl.c:96-173 | every header whose references are valid and counts below 2^31 is parsed back from its encoding: same declarations, their layout, main_types_out after them, same main types, the cursor at its end |
| Idl.ReadU32OfLeb128 | rts/idl.c:6-25 | the do-while loop returns what `ReadU32` gives, and on success leaves the cursor after the group |
| Idl.ReadI32OfSleb128 | rts/idl.c:27-52 | the loop with sign extension returns what `ReadI32` gives, and on success leaves the cursor after the group |
| Idl.ReadLoopCount | rts/idl.c:125 | `int n = read_u32_of_leb128(buf)` gives `ReadCount` |
| Idl.ReadTypeIndex | rts/idl.c:119-120 | a reference read and range-checked gives `ReadRef` |
| Idl.ReadTypeIndices | rts/idl.c:138-141 | the loop over n references has the outcome of `ReadRefs` |
| Idl.ReadTypeIndexList | rts/idl.c:167-170 | a count and its references have the outcome of `ReadRefList` |
| Idl.ReadFieldList | rts/idl.c:125-129 | the field loop has the outcome of `ReadFields` |
| Idl.ReadMethodList | rts/idl.c:152-159 | the method loop, names skipped by `buf->p += size`, has the outcome of `ReadMethods` |
| Idl.SkipBytes | rts/idl.c:148-150 | the annotation loop moves the cursor by `max(n, 0)` without a check |
| Idl.ReadFuncSignature | rts/idl.c:136-150 | the func branch has the outcome of `ReadFuncBody` |
| Idl.ReadDeclaration | rts/idl.c:115-163 | the dispatch on the tag has the outcome of `ReadTypeDecl` |
| Idl.ParseHeaderTable | rts/idl.c:111-170 | once magic and count are accepted, the header reads as the table loop followed by the main types |
| Idl.ReadTypeTableInto | rts/idl.c:112-164 | the for loop has the outcome of `ReadTypeTable` over n_types rounds and, on success, leaves in `typtbl` the `Offsets` of its entries |
| Idl.ParseIdlHeader | rts/idl.c:96-173 | parse_idl_header traps exactly as `ParseHeader` does; on success it returns main_types_out and the final cursor, and `typtbl` holds where each declaration begins |

## Left out

- `rts/motoko-rts-tests/src/crc32.rs` is not part of this model. It is a test driver for base32 and CRC32 functions whose code is not available.
- `buf.h` is not part of this model. `read_byte` and `read_word` are modelled only as the bounds-checked primitives `ReadByteAt` and `ReadWordAt`.
- `alloc` and the heap: `typtbl` is an `array<nat>` of cursor positions, not of pointers into the heap. When the parse traps before the table is allocated, the model returns an empty array.
- Pointer arithmetic overflow, e.g. `buf->p += size` with a huge `size`: cursors are unbounded naturals. A cursor beyond `e` is representable, and only the next read traps.
- Trap message text: each `idl_trap_with` call is a distinct `Trap` value. The strings are not modelled, and neither is the text of the bounds traps of `buf.h`.
- Undefined and implementation-defined C arithmetic:
  - `(b & 0x7f) << 28` overflows a C `int` for bytes of 8 and above. The model computes the intended uint32_t sum modulo 2^32.
  - The uint32_t-to-int conversions at lines 101, 125, 131, 138, 143, 148, 152 and 167 are read as two's complement (`ToInt32`).
- The state after a trap: a trap ends the C program. The methods return `Trapped(reason)` and leave the cursor unspecified.
- Values the C code does not keep: the loops of `parse_idl_header` only check what they read. The `Idl` methods therefore return the outcome (trap, or success at a cursor), the `Shape` of the functions' results. The functions collect the declarations, so that lemmas can talk about them.
- The returned position: `parse_idl_header` returns nothing itself. It leaves the buffer cursor after the main types and stores the start of the main type list in `main_types_out`. `ParseIdlHeader` returns both, following the code.
- The encoder of `IdlEncoding` has no counterpart in the source. It writes zeros for the bytes the parser skips (method names, func annotations); `DeclSkippedIgnored` shows that any other bytes there give the same declaration.
- Deep well-formedness of the type graph, and the decoding of values: the source checks only immediate references, and so does the model.
