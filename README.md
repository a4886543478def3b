# upb message layer: in-memory record format

A Dafny model of `upb_msg.h`, the header that describes a protocol-buffer message type at run time
and defines how an instance of that type is laid out in memory. An instance is a raw byte buffer.
It starts with a presence bitset: one bit per field, bit `i % 8` of byte `i / 8` for field
index `i`. Each field's value is stored at that field's `byte_offset`. The model covers:

- the descriptors `upb_msg_field`, `upb_abbrev_msg_field` and `upb_msg`
  (module `Layout`, file `layout.dfy`), with the invariant a constructed message type satisfies
  (`Layout.Valid`). That invariant includes "required fields hold the lowest field indices";
- the field lookups by number and by name, with the hash tables modelled as maps, and the recovery
  of a full field from an abbreviated table entry (`Layout`);
- the presence bitset operations `upb_isset_offset`, `upb_isset_mask`, `upb_msg_set`,
  `upb_msg_unset`, `upb_msg_is_set` and `upb_msg_clear` (module `Presence`). The instance is an
  `array<bv8>` that the state-changing operations update in place. Each of them is specified by a
  function on the buffer's contents (`WithBit`, `WithoutBit`, `ClearedPrefix`). Lemmas then
  relate those functions to the reference reading `Present(bs, j)`;
- `upb_msg_all_required_fields_set` as written, with its byte-scanning `while` loop, and a
  corrected version (module `RequiredCheck`);
- the scalar accessors generated by `UPB_DEFINE_ACCESSORS` (module `Accessors`). They are one
  generic family over a `Codec`, which gives a C type's size and its byte encoding. The concrete
  codecs are in module `Codecs`. The host's byte order is a parameter (`Endian`);
- `upb_array` and the element accessors generated by `UPB_DEFINE_ARRAY_ACCESSORS` (module
  `Arrays`);
- a client (module `RequiredScenario`, file `scenario.dfy`). `ExampleMsg` is a message type
  with ten fields, two of them required, and both lookup tables filled; `ExampleMsgValid`
  proves it satisfies `Layout.Valid`. `RequiredFlagsDecideCheck` shows the check failing with
  one required flag set and passing with both. `OptionalFlagDefeatsHeaderCheck` shows an optional
  flag in the same byte making the as-written check fail while the masked check passes. Both
  methods take any message type of the shape `TwoOfTenShape` derives from validity, and
  `RunOnExample` runs them on `ExampleMsg`.

Notes on the completeness check as written:

- The loop guard is `> 8`, so the final byte compared covers 1 to 8 required fields, or none
  when `num_required_fields == 0` (`RequiredCheck.LastRequiredByte`).
- The check always reads byte 0, even with no required fields, so the as-written method
  requires a buffer of at least one byte.

Notes on C semantics:

- `(char*)s` may be signed. The `|=`, `&= ~` and `&` in set, unset and is-set act on the byte's
  eight bits as the `bv8` operations do, given the modulo-256 conversion back to `char`. C leaves
  that conversion implementation-defined when the `int` result does not fit a signed `char`,
  which happens for flags with `i % 8 == 7` (see "## Left out").
- In the completeness check, `(1 << num_fields) - 1` is an `int`. For `num_fields <= 8` it is at
  most 255, so the model computes it in 16 bits (`LowOnes`).

## Model

| member | source | states |
|---|---|---|
| `Layout.GetMsgField` | upb_msg.h:99-102 | on a valid message type, `upb_get_msg_field` applied to an entry of either lookup table recovers the full field whose abbreviation that entry is, and that field has the entry's `field_index` |
| `RequiredScenario.ExampleMsgValid` | upb_msg.h:63-72 | the example descriptor (ten fields, two required, two flag bytes, both tables filled) satisfies the invariant of a constructed `upb_msg`, so the invariant can be met |
| `RequiredScenario.TwoOfTenShape` | upb_msg.h:63-72 | in every valid message type with ten fields of which two are required, the bitset has two bytes, fields 0 to 2 hold indices 0 to 2 (so their flags share byte 0), fields 0 and 1 are required and field 2 is not |
| `Layout.FieldByNum` | upb_msg.h:110-118 | the result is NULL (`None`) exactly when the number is not a key of the by-number table; otherwise it is that key's entry |
| `Layout.FieldByName` | upb_msg.h:119-124 | the result is NULL (`None`) exactly when the name is not a key of the by-name table; otherwise it is that key's entry |
| `Layout.FieldByNumMissIffUnknown` | upb_msg.h:99-118 | on a valid message type, a number lookup misses exactly when no field has that number. For a hit, `upb_get_msg_field` (`m.fields[f.field_index]`) is in range, is the field with that number, and abbreviates back to the entry |
| `Layout.FieldByNameMissIffUnknown` | upb_msg.h:99-124 | on a valid message type, a name lookup misses exactly when no field has that name. For a hit, `upb_get_msg_field` is in range, is the field with that name, and abbreviates back to the entry |
| `Layout.FieldByNumFindsField` | upb_msg.h:82-92 | looking up a field's own number returns its abbreviated entry, whose `byte_offset`, `field_index`, type and ref agree with the full field |
| `Layout.FieldByNameFindsField` | upb_msg.h:82-97 | looking up a field's own name returns its abbreviated entry, whose fields agree with the full field |
| `Presence.IssetOffset` | upb_msg.h:231-233 | field index `i` lives in byte `off` with `8*off <= i < 8*off + 8`, that is `off == i / 8` |
| `Presence.IssetMask` | upb_msg.h:235-237 | the mask is a byte with exactly one bit set (non-zero, a power of two), and that bit is `i % 8` |
| `Presence.MsgIsSet` | upb_msg.h:253-256 | `byte & mask != 0` is the reference reading `Present`: bit `i % 8` of byte `i / 8` is one |
| `Presence.MsgSet` | upb_msg.h:243-246 | the buffer becomes `WithBit(old buffer, i)` (only byte `i / 8` changes) and the field then reads as set |
| `Presence.MsgUnset` | upb_msg.h:248-251 | the buffer becomes `WithoutBit(old buffer, i)` (only byte `i / 8` changes) and the field then reads as unset |
| `Presence.MsgClear` | upb_msg.h:270-273 | the buffer becomes its old contents with the first `set_flags_bytes` bytes zeroed, the rest unchanged |
| `Presence.WithBitSets` | upb_msg.h:243-246 | after setting flag `i`: flag `i` is present, every other flag reads as before, every other byte is unchanged, and the length is kept |
| `Presence.WithoutBitClears` | upb_msg.h:248-251 | after unsetting flag `i`: flag `i` is absent, every other flag reads as before, every other byte is unchanged, and the length is kept |
| `Presence.WithBitIdempotent` | upb_msg.h:243-246 | setting a flag twice gives the same buffer as setting it once |
| `Presence.WithoutBitIdempotent` | upb_msg.h:248-251 | unsetting a flag twice gives the same buffer as unsetting it once |
| `Presence.ClearedPrefixClears` | upb_msg.h:270-273 | after zeroing `n` bytes, no flag below `8 * n` is present, and the bytes from `n` on are unchanged |
| `Presence.ClearUnsetsEveryField` | upb_msg.h:63-72 | on a valid message type, after `upb_msg_clear` no field of the type reads as set |
| `RequiredCheck.LastRequiredByte` | upb_msg.h:260-265 | the loop stops at byte `k` with `8*k < n <= 8*k + 8` when `n > 0`, leaving 1 to 8 required fields for that byte. It stops at byte 0 when `n == 0` |
| `RequiredCheck.AllRequiredFieldsSet` | upb_msg.h:258-268 | the loop's result equals the closed form `ExactCheck`: bytes before `k` are 0xFF and byte `k` equals `(1 << r) - 1`. A true result implies every flag below `num_required_fields` is set |
| `RequiredCheck.ExactCheckSound` | upb_msg.h:258-268 | soundness: if the check passes, every flag in `[0, num_required_fields)` is set |
| `RequiredCheck.ExactCheckIff` | upb_msg.h:258-268 | exact behaviour: the check passes iff every required flag is set AND no other flag in the last byte read is set (both directions) |
| `RequiredCheck.OptionalFlagDefeatsCheck` | upb_msg.h:266 | a set non-required flag in the last byte read makes the check return false |
| `RequiredCheck.MultipleOfEightComparesFullBytes` | upb_msg.h:262-266 | when `n` is a positive multiple of 8, the last required byte is compared with 0xFF, so the check is "the first `n / 8` bytes are 0xFF" |
| `RequiredCheck.ExactCheckReadsOnlyPrefix` | upb_msg.h:260-266 | the result depends only on bytes `0..LastRequiredByte(n)`, which always includes byte 0 |
| `RequiredCheck.ExactCheckRejectsCompleteInstances` | upb_msg.h:266 | two buffers whose required flags are all set but which the check rejects: `[0x03]` with one required field, and `[0x01]` with none |
| `RequiredCheck.AllRequiredFieldsSetMasked` | upb_msg.h:258-268 | the corrected check returns true exactly when every flag below `num_required_fields` is set. It reads no byte when there are no required fields |
| `RequiredCheck.MaskedCheckIff` | upb_msg.h:262-266 | the masked closed form holds iff every required flag is set. A byte before the last one that is not 0xFF already means some required flag is clear |
| `RequiredCheck.RequiredPresentMeansRequiredFieldsSet` | upb_msg.h:68 | on a valid message type (required fields hold the lowest indices), "every flag below `num_required_fields` is set" is the same as "every field whose descriptor is required is set" |
| `Accessors.MsgGetPtr` | upb_msg.h:191-194 | the field pointer addresses the instance buffer `s` at byte `f.byte_offset` |
| `Accessors.MsgGet` | upb_msg.h:195-198 | the value read is the codec's decoding of the `width` bytes starting at `f.byte_offset` of the instance, and no other bytes |
| `Accessors.MsgSetValue` | upb_msg.h:199-202 | after the store, the field reads back the value stored. The buffer is its old contents with the value's bytes written at `byte_offset`, and no byte outside `[byte_offset, byte_offset + width)` changes |
| `Accessors.SlotGetAfterSet` | upb_msg.h:195-202 | reading a slot just written, through any codec that reads back what it stores, returns the value written |
| `Accessors.SlotSetFrame` | upb_msg.h:199-202 | a store keeps the buffer's length and every byte outside the slot, and puts the value's encoding inside the slot |
| `Accessors.SlotGetAfterSetElsewhere` | upb_msg.h:190-202 | storing into one field leaves a field with a disjoint slot reading what it read before |
| `Accessors.SlotSetTwice` | upb_msg.h:199-202 | of two stores to the same slot, only the second shows |
| `Codecs.UIntRoundTrip` | upb_msg.h:223-224 | a `w`-byte unsigned integer stored in either byte order takes `w` bytes and reads back unchanged |
| `Codecs.UInt32CodecValid` | upb_msg.h:223 | `uint32_t` takes 4 bytes and reads back what was stored |
| `Codecs.UInt64CodecValid` | upb_msg.h:224 | `uint64_t` takes 8 bytes and reads back what was stored. The pointer accessors (lines 226-229) use this codec as 8-byte addresses |
| `Codecs.Int32CodecValid` | upb_msg.h:221 | `int32_t` is stored in two's complement in 4 bytes and reads back what was stored, negative values included |
| `Codecs.Int64CodecValid` | upb_msg.h:222 | `int64_t` is stored in two's complement in 8 bytes and reads back what was stored |
| `Codecs.BoolCodecValid` | upb_msg.h:225 | `bool` takes 1 byte and reads back what was stored |
| `Codecs.FloatCodecValid` | upb_msg.h:220 | `float` is a 4-byte bit pattern that reads back unchanged |
| `Codecs.DoubleCodecValid` | upb_msg.h:219 | `double` is an 8-byte bit pattern that reads back unchanged |
| `Arrays.UpbArray.constructor` | upb_msg.h:130-133 | a `upb_array` holds its `data` and its `len` |
| `Arrays.ArrayGetPtr` | upb_msg.h:205-207 | the element pointer addresses element `n` of `data` |
| `Arrays.ArrayGet` | upb_msg.h:208-210 | the value read through the element pointer is element `n` of `data` |
| `Arrays.ArraySet` | upb_msg.h:211-213 | afterwards element `n` reads back `v` (through `upb_array_get`), every other element is unchanged, and the `upb_array` itself (`data`, `len`) is unchanged |

## Left out

- Presence.MsgSet, Presence.MsgUnset: with a signed `char`, setting bit 7 of `0x00` yields the `int` 128, and clearing bit 7 of `0x80` (the `char` -128) yields `-128 & ~128 == -256`. Neither fits a signed `char`, so converting back is implementation-defined in C (section 6.3.1.3 of ISO/IEC 9899:2011) and may even raise a signal. The model takes the modulo-256 reduction that common compilers document, and it does not model other implementations.
- `upb_msg_init` and `upb_msg_free` are only declared in the header; their bodies are not part of this model. What `init` establishes is stated as the predicate `Layout.Valid`, not proved of `init`. It includes required-first index assignment, distinct numbers and names, both tables filled, and `set_flags_bytes == ceil(num_fields / 8)`.
- `upb_inttable` and `upb_strtable` (upb_table.h) are not part of this model. The two tables are Dafny maps keyed by field number and by field name, so table lookup is exact and takes no time.
- The `google_protobuf_DescriptorProto` and `FieldDescriptorProto` back-references are schema nodes outside this header. A message node is kept opaque. A field node is shrunk to its number, name, type tag and whether it is required, which are the facts `Valid` needs.
- `upb_field_type_t` and `union upb_symbol_ref` come from upb.h, which is not part of this model. The type is a numeric tag, and a reference is either unresolved or an opaque id.
- `float` and `double` are opaque 4- and 8-byte bit patterns. No floating-point arithmetic is modelled.
- Pointer-typed accessors (`upb_string*` for bytes and string, `void*` substructs, `upb_array*`) are stored as 8-byte addresses through `Codecs.UInt64Codec`. Nothing about the memory they point to is modelled, and neither is a host with 4-byte pointers.
- Host layout: the byte order is a parameter of the codecs. Alignment, C struct padding and strict-aliasing rules are not modelled. Offsets are taken as given, as the header takes them.
- The macro expansion itself is not modelled. There is one generic accessor family instead of a copy per type, and the misspelled `#undef UPB_DEFINE_PRMITIVE_ARRAY` (upb_msg.h:161) has no effect on the model.
- The typedef-only array structs (`upb_msg_array`, `upb_string_array`, the `UPB_DEFINE_PRIMITIVE_ARRAY` and `UPB_DEFINE_STRUCT_ARRAY` structs) hold no logic. `Arrays.UpbArray<T>` covers their shape; the `void *data` is a typed `array<T>`.
- Codecs.BoolCodec: a byte other than 0 or 1 read as `bool` is undefined in C. The model reads any non-zero byte as true.
- RequiredCheck.AllRequiredFieldsSet: `num_required_fields` is converted to `int`. A value above `INT_MAX` would give a negative count and an undefined shift, so the method requires `num_required_fields <= INT_MAX`.
- Concurrency is not modelled. The header has none, and concurrent writes to one instance are the embedding program's responsibility.

## Findings

| source | as written | input that shows it | evidently intended | confidence | as-written member | corrected member |
|---|---|---|---|---|---|---|
| upb_msg.h:266 | the last byte read is compared for equality with `(1 << r) - 1`, so every bit above the required ones in that byte must be clear (byte 0 must be 0 when there are no required fields) | one required field (index 0) set and optional field 1 also set: byte 0 is `0x03`, and the function returns false. Also: no required fields and optional field 0 set: byte 0 is `0x01`, and the function returns false | mask the byte before comparing, `(byte & mask) == mask`, and read nothing when there are no required fields, so the result is exactly "every required field is set" (the promise of line 68 and of the function's name) | not executed; high | `RequiredCheck.ExactCheckRejectsCompleteInstances` | `RequiredCheck.AllRequiredFieldsSetMasked` |
