# A-XDR cursor codec, modelled in Dafny

This project models the core of a small C library that encodes and decodes
values in an A-XDR style binary layout. A codec cursor wraps a caller-owned
byte buffer, and each primitive codec writes or reads at the cursor's position
and moves it. The primitives handle:

- 32-bit signed and unsigned integers;
- booleans and enumerations;
- bit strings and octet strings, each with a 4-byte length prefix;
- visible strings and null.

On top of the primitives sit the SEQUENCE and SEQUENCE OF dispatchers. They
walk a table of fields, or a counted element array, call a field codec for
each entry on the shared cursor, and stop at the first failure.

The model follows the byte layout and error order that the C code produces.

Modules:

- `Wire` (`wire.dfy`): bytes and the C integer widths (`int32`, `uint32`). It
  also holds the result codes and the byte layouts the encoders write: `BE32`,
  two's complement, the boolean byte, and length-prefixed strings. `Splice`
  describes a buffer after bytes are written into it.
- `Codec` (`cursor.dfy`): the class `Cursor` (`AXDR_CODEC`) with its fields
  `buf`, `size`, `position` and `error`, and every primitive codec as a method.
  - Encoders modify `position` and the buffer, and state exactly which bytes change.
  - Decoders modify only `position` and return what they store through their
    out-pointers, as `Option` values.
- `Fields` (`fields.dfy`): the closed set of field codecs a dispatcher can call.
  `Kind` replaces the C function pointers and `Value` replaces the untyped
  field pointers. It also defines:
  - `EncodeOutcome` and `DecodeOutcome`, the specifications of one field codec call;
  - the `EncodeField` and `DecodeField` methods.
- `Traversal` (`traversal.dfy`): the field-by-field loop shared by all
  dispatchers, as the methods `EncodeEach` and `DecodeEach`. Its
  specifications are `EncodeFields` and `DecodeFields`, and the module proves
  their laws:
  - ordering and concatenation;
  - the first failure wins;
  - success if and only if every field succeeds;
  - encode-then-decode round trip.
- `Sequence` (`sequence.dfy`): the six dispatchers of `src/axdr_sequence.c`,
  the class `SequenceOf` (`AXDR_SEQUENCE_OF`), and the properties specific to
  each dispatcher.
- `Examples` (`examples.dfy`): client methods that repeat the round trips of
  `src/test_axdr.c` and `src/test_sequence.c` against the model. Each states
  in its postcondition what comes back.
- `Wrappers` (`wrappers.dfy`): `Option`.

Two behaviours of the code shape the decoder contracts:

- Not every failure leaves the cursor where it was.
  - The integer and unsigned decoders store the value read and advance by 4
    before their range check (src/axdr.c:146-154, 165-173).
  - The enum decoder also advances by 4 when its range check fails, but it
    stores the value only on success (src/axdr.c:191-194).
  - `DecodeVisibleString` copies the bytes and advances before its length
    check (src/axdr.c:242-249).
  - The length-prefixed decoders consume the 4-byte prefix and store the
    length before checking the space for the payload (src/axdr.c:206-211,
    227-231).

  The postconditions of the decoders in `Codec` state this behaviour.
- The recheck `count > sequence->maxCount` at src/axdr_sequence.c:90 can never
  fire, because `axdr_decode_unsigned` already enforced that bound. The model
  has no separate branch for it. `DecodeSequenceOf` states `count <= maxCount`
  whenever the count was stored.

## Model

| member | source | states |
|---|---|---|
| Wire.BE32 | src/axdr.c:55-58 | the layout of a 32-bit value is exactly four bytes; that they are its bytes most significant first is what `Wire.FromBE32` and `Wire.BE32RoundTrip` state |
| Wire.BE32RoundTrip | src/axdr.c:160-176 | reading back the four big-endian bytes written for an unsigned value gives the value |
| Wire.FromBE32 | src/axdr.c:165-168 | the unsigned value the decoder reads from any four bytes is the one whose four-byte layout is exactly those bytes, so different bytes never read as the same value |
| Wire.IntegerBytesRoundTrip | src/axdr.c:141-157 | the decoder's two's-complement reading of the bytes the integer encoder writes gives the int32 back |
| Wire.ToUnsigned | src/axdr.c:34-37 | the bit pattern is congruent to the value modulo 2^32 and has its top bit set exactly for negative values |
| Wire.ToSigned | src/axdr.c:146-149 | the int32 read has the same bit pattern modulo 2^32 as the four bytes |
| Wire.IntegerBytes | src/axdr.c:34-37 | the integer encoder writes four bytes, and the first has its top bit set exactly when the value is negative |
| Wire.BooleanByte | src/axdr.c:69 | the byte written is nonzero exactly when the value is true, so the decoder's nonzero test reads it back |
| Wire.PayloadLen | src/axdr.c:85-92 | the payload byte count of a bit string is ceil(bits / 8) |
| Wire.PayloadLen32 | src/axdr.c:207 | the decoder's byte count equals ceil(bits / 8) except when `bit_length + 7` wraps in 32 bits, where it is 0 |
| Wire.OctetStringBytes | src/axdr.c:106-110 | an octet string takes 4 + length bytes, and the bytes after the 4-byte prefix are the octets themselves |
| Wire.BitStringBytes | src/axdr.c:89-94 | a bit string takes 4 + ceil(length / 8) bytes, and the bytes after the prefix are the first ceil(length / 8) payload bytes |
| Wire.OctetStringBytesParts | src/axdr.c:220-237 | an encoded octet string starts with a prefix that reads back as its length, followed by its bytes |
| Wire.BitStringBytesParts | src/axdr.c:199-217 | an encoded bit string starts with a prefix that reads back as its bit count, followed by ceil(count / 8) payload bytes |
| Wire.OctetStringReadBack | src/axdr.c:220-237 | where any octet string was written, the decoder reads its length from the prefix and then exactly its octets |
| Wire.BitStringReadBack | src/axdr.c:199-217 | for bit counts below 2^32 - 7, where a bit string was written the decoder reads its bit count, computes in 32 bits the same payload length as the encoder, and reads exactly the payload written |
| Wire.BitStringWrapLosesPayload | src/axdr.c:207 | for the top seven bit counts the prefix still reads back, but `bit_length + 7` wraps in 32 bits: the decoder reads no payload although the encoder, with a 64-bit `size_t`, wrote 2^29 bytes |
| Wire.Splice | src/axdr.c:93 | writing at `p` leaves the buffer length, places the bytes at `p`, and leaves every other byte as it was |
| Wire.SpliceConsecutive | src/axdr.c:89-94 | writing a prefix and then the payload right after it is the same as writing both at once |
| Codec.Cursor.constructor | src/axdr.c:6-15 | a new cursor is over the given buffer and size, at position 0 with no error |
| Codec.Cursor.PutBE32 | src/axdr.c:55-58 | four bytes go in most significant first, at the old position, and the position moves by 4 |
| Codec.Cursor.CopyIn | src/axdr.c:109-110 | the source bytes are copied at the position, and the position moves past them |
| Codec.Cursor.EncodeInteger | src/axdr.c:22-40 | the range check comes before the space check; a failure writes nothing and keeps the position; a success writes the 4 two's-complement big-endian bytes and advances by 4 |
| Codec.Cursor.EncodeUnsigned | src/axdr.c:43-61 | the same check order; a success writes the 4 big-endian bytes and advances by 4 |
| Codec.Cursor.EncodeBoolean | src/axdr.c:64-71 | overflow when no byte is left; otherwise writes 0xFF or 0x00 and advances by 1 |
| Codec.Cursor.EncodeEnum | src/axdr.c:74-80 | a value outside [0, count - 1] is a constraint error; otherwise the result and bytes are those of the integer encoder |
| Codec.Cursor.EncodeBitString | src/axdr.c:83-97 | overflow, with nothing written, unless the prefix and ceil(length / 8) bytes fit; otherwise writes the bit-count prefix and the payload |
| Codec.Cursor.EncodeOctetString | src/axdr.c:100-113 | overflow, with nothing written, unless the prefix and the payload fit; otherwise writes the length prefix and the bytes |
| Codec.Cursor.EncodeVisibleString | src/axdr.c:116-123 | a string longer than the maximum is a constraint error, reported before any space check and with nothing written; otherwise the octet-string encoding |
| Codec.Cursor.EncodeNull | src/axdr.c:135-138 | always succeeds and touches nothing |
| Codec.Cursor.DecodeInteger | src/axdr.c:141-157 | overflow with nothing changed when 4 bytes are not left; otherwise the value read is stored and the position advanced by 4 even when the range check then fails |
| Codec.Cursor.DecodeUnsigned | src/axdr.c:160-176 | the same for the unsigned reading |
| Codec.Cursor.DecodeBoolean | src/axdr.c:179-186 | overflow with nothing changed, or true exactly when the byte is nonzero, advancing by 1 |
| Codec.Cursor.DecodeEnum | src/axdr.c:189-196 | the value is stored only on success; a value outside [0, count - 1] still advances the position by 4 |
| Codec.Cursor.DecodeBitString | src/axdr.c:199-217 | the bit count is stored and the prefix consumed before the payload space check; on success the payload is the next ceil(count / 8) bytes, with that count computed in 32 bits |
| Codec.Cursor.DecodeOctetString | src/axdr.c:220-237 | the length is stored and the prefix consumed before the payload space check; on success the payload is the next `length` bytes |
| Codec.Cursor.DecodeVisibleString | src/axdr.c:240-253 | the bytes are copied and the position advanced before the maximum-length check, which then reports a constraint error |
| Codec.Cursor.DecodeNull | src/axdr.c:278-281 | always succeeds and reads nothing |
| Fields.Intent | src/test_sequence.c:12-26 | a field codec rejects exactly the values that break its constraint, and otherwise produces the bytes of its primitive |
| Fields.Place | src/axdr.c:29-31 | a rejected field writes nothing; an accepted field succeeds exactly when its bytes fit in the space left |
| Fields.Image | src/axdr.c:22-123 | the bytes of each field codec: 4 for the integer, unsigned and enum codecs, 1 for boolean, 4 + length for a visible string with its text after the prefix, none for null |
| Fields.EncodeOutcome | src/axdr.c:22-123 | a successful field codec writes the bytes of its primitive; a failing one writes nothing; it never writes past the usable size |
| Fields.DecodeOutcome | src/axdr.c:141-253 | a decoder never moves past the usable size; overflow stores nothing; a success stores a value of the right type that meets the constraint |
| Fields.FieldRoundTrip | src/test_axdr.c:8-182 | decoding, with the same codec, the bytes a successful field encoder wrote gives the value back and stops right after those bytes |
| Fields.ConstraintBeforeOverflow | src/axdr.c:24-31 | a value that breaks the constraint is rejected with CONSTRAINT and nothing written, whatever the space left |
| Fields.EncodeField | src/test_sequence.c:12-26 | dispatching a field to the primitive encoder of its kind has the effect given by `EncodeOutcome` |
| Fields.DecodeField | src/test_sequence.c:28-42 | dispatching a field to the primitive decoder of its kind has the effect given by `DecodeOutcome` |
| Traversal.StepIntent | src/axdr_sequence.c:16-18 | a NULL pointer is INVALID_VALUE and an unknown tag INVALID_TYPE, neither touching the cursor; otherwise the field codec decides |
| Traversal.Run | src/axdr_sequence.c:15-24 | a traversal of field outcomes never writes past the usable size |
| Traversal.EncodeFields | src/axdr_sequence.c:6-27 | encoding a field list never writes past the usable size |
| Traversal.DecodeStep | src/axdr_sequence.c:38-47 | one decode index stays within the usable size; a NULL entry is INVALID_VALUE and an unknown tag INVALID_TYPE, both reading nothing |
| Traversal.DecodeFields | src/axdr_sequence.c:38-49 | the decode traversal stays within the usable size; a success gives one result per index, and a failure stops with at least one and at most all of them |
| Traversal.EncodeStepAt | src/axdr_sequence.c:16-20 | the call for index i returns the status and writes the bytes that `Place` gives for that field at the current position |
| Traversal.RunAppend | src/axdr_sequence.c:15-24 | running two field lists in a row is running the first and, only if it succeeded, the second right after it |
| Traversal.RunNext | src/axdr_sequence.c:15-24 | after the first i fields have succeeded, the traversal continues with field i at the position they reached |
| Traversal.RunStopsAtFirstFailure | src/axdr_sequence.c:21-23 | once the fields before a failing one have succeeded, the traversal returns that failure unchanged, keeps the bytes already written, and never looks at later fields |
| Traversal.RunSucceedsIffEach | src/axdr_sequence.c:15-26 | the traversal succeeds if and only if the codec of every index, called at that index's offset, succeeds |
| Traversal.RunStatusComesFromAField | src/axdr_sequence.c:15-26 | the traversal's status is SUCCESS or the status of one of its field codecs; with no fields it succeeds and writes nothing |
| Traversal.Offset | src/axdr_sequence.c:15-24 | field j starts after the bytes the fields before it wrote, within the usable size |
| Traversal.DecodeFieldsAppend | src/axdr_sequence.c:38-47 | decoding two field lists in a row is decoding the first and, only if it succeeded, the second from where it stopped |
| Traversal.FieldsRoundTrip | src/axdr_sequence.c:6-50 | decoding the bytes of a successful encoding traversal with the same codecs succeeds, gives back every field in order, and stops right after the last byte written |
| Traversal.EncodeEach | src/axdr_sequence.c:15-26 | the loop's status and the bytes it writes are those of `EncodeFields` |
| Traversal.DecodeEach | src/axdr_sequence.c:38-49 | the loop's status, stored values and final position are those of `DecodeFields` |
| Sequence.EncodeSequence | src/axdr_sequence.c:6-27 | a NULL cursor, field table or encoder table is INVALID_VALUE with nothing touched; otherwise the result and bytes are those of the positional traversal |
| Sequence.DecodeSequence | src/axdr_sequence.c:29-50 | a NULL argument is INVALID_VALUE with nothing touched; otherwise the result and position are those of the positional decode traversal, and each field slot holds what its decoder stored |
| Sequence.EncodeSequenceWithParams | src/axdr_sequence.c:109-129 | a NULL argument is INVALID_VALUE with nothing touched; otherwise the traversal of the tagged fields through the dispatcher |
| Sequence.DecodeSequenceWithParams | src/axdr_sequence.c:131-151 | a NULL argument is INVALID_VALUE with nothing touched; otherwise the tagged decode traversal, with each parameter's value replaced by what was stored and its tag kept |
| Sequence.SequenceOf.constructor | src/axdr.h:22-27 | a SEQUENCE OF holds the given element array, count and maximum count |
| Sequence.EncodeSequenceOf | src/axdr_sequence.c:53-75 | a NULL argument is INVALID_VALUE with nothing touched; otherwise the count is encoded as an unsigned bounded by the maximum count, then each element in order |
| Sequence.EncodeCountThenElements | src/axdr_sequence.c:60-74 | the count's result and bytes come first; the elements follow only if the count succeeded |
| Sequence.CountThenElements | src/axdr_sequence.c:60-72 | never writes past the usable size; a count above the maximum, both narrowed to 32 bits, is CONSTRAINT; a success starts with the four bytes of the narrowed count |
| Sequence.CountThenElementsParts | src/axdr_sequence.c:60-72 | a successful SEQUENCE OF encoding is the four count bytes followed by the encoding traversal of the elements |
| Sequence.DecodeSequenceOf | src/axdr_sequence.c:77-106 | a NULL argument is INVALID_VALUE; a failing count decode leaves `count` and the elements untouched; otherwise `count` (at most `maxCount`) is stored before the elements are decoded into the array |
| Sequence.Narrow | src/axdr_sequence.c:60 | a `size_t` count narrowed to `uint32_t` is unchanged below 2^32 |
| Sequence.Store | src/axdr_sequence.c:43 | a slot is changed only when its decoder stored a value |
| Sequence.StoreInto | src/axdr_sequence.c:99 | the destination array ends up as `Store` describes |
| Sequence.CountFirst | src/axdr_sequence.c:60-72 | encoding a SEQUENCE OF is one traversal of the count step followed by the element steps |
| Sequence.CountOverMaxWritesNothing | src/axdr_sequence.c:60-63 | a count above the maximum, both narrowed to 32 bits, gives CONSTRAINT with nothing written, whatever the elements and the space left |
| Sequence.SequenceOfRoundTrip | src/axdr_sequence.c:53-106 | for fewer than 2^32 elements, decoding a successful SEQUENCE OF encoding reads back the count and every element, stops after the last byte written, and fills the first `count` slots with the elements |
| Sequence.CountReadsBack | src/axdr_sequence.c:85-94 | for fewer than 2^32 elements, the count a successful SEQUENCE OF encoding wrote decodes, with the maximum as bound, to the number of elements |
| Sequence.CountWrapsAt32Bits | src/axdr_sequence.c:60-72 | from 2^32 elements on, a successful encoding writes the count modulo 2^32, so the count read back is smaller than the number of elements written after it |
| Sequence.ElementsReadBack | src/axdr_sequence.c:97-103 | decoding the bytes of a successful element traversal gives back every element in order and stops where the encoding stopped |
| Sequence.StoreElements | src/axdr_sequence.c:98-103 | storing the decoded elements in order puts the elements back |
| Sequence.TaggedRoundTrip | src/axdr_sequence.c:109-151 | decoding a successful tagged encoding into destinations with the same tags succeeds, stops after the last byte written, and makes each destination equal to its parameter |
| Sequence.StopsAtInvalid | src/axdr_sequence.c:16-18 | a NULL pointer or unknown tag at index i ends the traversal with its error after the earlier fields wrote their bytes, with no rollback |
| Sequence.PositionalStopsAtNull | src/axdr_sequence.c:16-18 | a NULL encoder or field at index i returns INVALID_VALUE with the bytes of fields 0..i-1 left written |
| Sequence.TaggedStopsAtInvalid | src/axdr_sequence.c:117-125 | a NULL field gives INVALID_VALUE and a tag the dispatcher does not know gives INVALID_TYPE, after the earlier fields were applied |
| Sequence.DecodeStopsAtInvalid | src/axdr_sequence.c:38-47 | once the indexes before a NULL entry or unknown tag decoded successfully, the decode traversal ends there with INVALID_VALUE or INVALID_TYPE, keeping the earlier results and position |
| Sequence.PositionalDecodeStopsAtNull | src/axdr_sequence.c:39-41 | a NULL decoder or field at index i returns INVALID_VALUE at the position fields 0..i-1 reached |
| Sequence.TaggedDecodeStopsAtInvalid | src/axdr_sequence.c:139-147 | a NULL parameter value gives INVALID_VALUE and a tag the dispatcher does not know gives INVALID_TYPE, after the earlier parameters were decoded |
| Examples.IntegerRoundTrip | src/test_axdr.c:8-42 | every int32 (including 0, ±1, ±42, INT32_MIN and INT32_MAX) encodes and decodes back over the full range |
| Examples.BooleanRoundTrip | src/test_axdr.c:44-77 | true and false both come back |
| Examples.EnumRoundTrip | src/test_axdr.c:79-114 | each value 0..3 of a four-value enumeration comes back |
| Examples.BitStringRoundTrip | src/test_axdr.c:116-150 | the 16 bits A5 5A come back with the bit count 16 |
| Examples.VisibleStringRoundTrip | src/test_axdr.c:152-182 | a visible string of at most 20 characters comes back unchanged |
| Examples.NullRoundTrip | src/test_axdr.c:215-237 | null succeeds both ways and leaves the position at 0 |
| Examples.RecordReadsBack | src/test_sequence.c:52-105 | the encoded record {12345, true, "Test Name"} decodes into zeroed destinations as the record itself |
| Examples.RecordRoundTrip | src/test_sequence.c:52-105 | the tagged record round-trips through both dispatchers with SUCCESS |
| Examples.FiveReadBack | src/test_sequence.c:108-156 | the encoded {1, 2, 3, 4, 5} decodes with count 5 into the first five slots |
| Examples.SequenceOfRoundTrip5 | src/test_sequence.c:108-156 | {1, 2, 3, 4, 5} with at most 10 elements round-trips through both dispatchers, count and elements |

## Left out

- Generalized time (`axdr_encode_generalized_time`, `axdr_decode_generalized_time`) is not modelled. It depends on the C library's calendar and formatting functions.
- `axdr_codec_cleanup` and the allocation in `axdr_codec_init` are not modelled. `Codec.Cursor.constructor` cannot fail.
- The varint and variable-length string codecs used by `src/test_varint.c` and `src/test_varstring.c` are not part of this model. They are not defined in any of the library's sources.
- Wire.BitStringReadBack: holds only for bit counts below 2^32 - 7. For the top seven counts the decoder's 32-bit `bit_length + 7` (src/axdr.c:207) wraps, so it reads no payload while the encoder, with a 64-bit `size_t`, wrote 2^29 bytes, as `Wire.BitStringWrapLosesPayload` states. With a 32-bit `size_t` the encoder's `(length + 7) / 8` (src/axdr.c:85, 92) wraps too and writes no payload; the model takes `size_t` to be 64 bits.
- Sequence.SequenceOfRoundTrip: holds only for fewer than 2^32 elements. From 2^32 elements on, `axdr_encode_unsigned` receives the count and the maximum narrowed to 32 bits (src/axdr_sequence.c:60) while the element loop runs over the full `size_t` count (src/axdr_sequence.c:67). The count written is then the count modulo 2^32, as `Sequence.CountWrapsAt32Bits` states, and the decoder reads back fewer elements than were written.
- Sequence.CountReadsBack: the same bound of fewer than 2^32 elements.
- Wire.ToSigned: `codec->buffer[p] << 24` (src/axdr.c:146) shifts a promoted `int`, which for a first byte of 0x80 or more is signed overflow that ISO C leaves undefined. The model assumes the two's-complement wrap-around that common compilers produce.
- The `error` field is kept, but no operation ever changes it. The dispatchers state that it is unchanged.
- Bit strings and octet strings are primitives only. Their codecs take a pointer and a separate length, so they cannot be one-pointer field codecs of a sequence.
- Field and element pointers, `elementSize` and the `i * elementSize` stride become typed values and array indices:
  - type punning through `void*` and misaligned strides are not modelled;
  - field tables are assumed not to alias the byte buffer;
  - a dispatcher's function pointer becomes a `Kind` or a tag-to-`Kind` map.
- Sequence.DecodeSequence: decoded values are written to the field slots after the traversal rather than one by one during it. Nothing else reads those slots during the traversal, so the final state is the same, but the model does not show the intermediate states.
- Sequence.DecodeSequenceWithParams: the same.
- Sequence.DecodeSequenceOf: the same.
- Sequence.EncodeSequence: requires `fieldCount` to be within both tables. The C code reads them lazily and would stop at an earlier NULL entry before reading out of bounds.
- Sequence.DecodeSequence: the same requirement on `fieldCount`.
- Sequence.EncodeSequenceWithParams: requires `paramCount` to be within the parameter array.
- Sequence.DecodeSequenceWithParams: the same requirement on `paramCount`.
- Decode destinations are returned values, or the model's slots. The C `memcpy` into caller buffers of unchecked size, and the NUL terminator written by the visible-string decoder, are not modelled.
- Codec.Cursor.EncodeBitString: requires the bit count to be below 2^32, so the narrowing of `size_t` to `uint32_t` for the prefix is excluded rather than modelled.
- Codec.Cursor.EncodeOctetString: the same for the byte count.
- Codec.Cursor.EncodeVisibleString: the same for the byte count. The string is given as its content up to the NUL terminator, so it holds no zero byte.
- Codec.Cursor.DecodeEnum: requires `count > INT32_MIN`, because `count - 1` would overflow `int` in C.
- `position + n` is unbounded in the model. Overflow of `size_t` in the space checks is not modelled.
- `axdr_decode_sequence_with_params` receives its dispatcher with the encoder's function type. The model gives it a tag table whose kinds are decoded, as the decoding dispatcher of `src/test_sequence.c` does.
- In C, a field whose type does not match what its codec reads is undefined behaviour. The model requires every field to fit its codec (`Fits`, `Decodable`).
