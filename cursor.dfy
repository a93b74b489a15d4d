/** The codec cursor (`AXDR_CODEC`) and the primitive encoders and decoders
    of `src/axdr.c`. Every primitive works on the cursor in place: encoders
    write bytes at `position` and advance it, decoders read bytes at
    `position`, advance it and hand back what they store through their
    out-pointers. */
module Codec {
  import opened Wire
  import opened Wrappers

  /** A cursor over a caller-owned buffer of `size` usable bytes. */
  class Cursor {
    const buf: array<byte>
    const size: nat
    var position: nat
    var error: Status

    /** `position` stays within the buffer; the buffer really has `size` bytes. */
    ghost predicate Valid()
      reads this
    {
      position <= size <= buf.Length
    }

    /** The cursor wrote `w` at `p0` over the earlier buffer contents `s0`
        and moved just past it; nothing else in the buffer changed. With
        `w == []` it says that neither the buffer nor the position changed. */
    ghost predicate Advanced(s0: seq<byte>, p0: nat, w: seq<byte>)
      reads this, buf
    {
      && p0 + |w| <= |s0| == buf.Length
      && position == p0 + |w|
      && buf[..] == Splice(s0, p0, w)
    }

    /** `axdr_codec_init` (without the allocation, which cannot fail here). */
    constructor (buffer: array<byte>, size: nat)
      requires size <= buffer.Length
      ensures buf == buffer && this.size == size
      ensures position == 0 && error == Success
      ensures Valid()
    {
      buf := buffer;
      this.size := size;
      position := 0;
      error := Success;
    }

    /** `codec->buffer[codec->position++] = b`, four times, most significant byte first. */
    method PutBE32(u: uint32)
      requires Valid() && position + 4 <= size
      modifies this`position, buf
      ensures Valid() && Advanced(old(buf[..]), old(position), BE32(u))
    {
      ghost var s0, p0 := buf[..], position;
      buf[position] := u / 0x100_0000;
      position := position + 1;
      buf[position] := (u / 0x1_0000) % 0x100;
      position := position + 1;
      buf[position] := (u / 0x100) % 0x100;
      position := position + 1;
      buf[position] := u % 0x100;
      position := position + 1;
      assert buf[..] == Splice(s0, p0, BE32(u));
    }

    /** `memcpy(codec->buffer + codec->position, src, n); codec->position += n`. */
    method CopyIn(src: seq<byte>)
      requires Valid() && position + |src| <= size
      modifies this`position, buf
      ensures Valid() && Advanced(old(buf[..]), old(position), src)
    {
      ghost var s0 := buf[..];
      forall j | 0 <= j < |src| {
        buf[position + j] := src[j];
      }
      assert buf[..] == Splice(s0, position, src);
      position := position + |src|;
    }

    /** `axdr_encode_integer`: the range check comes first, then the space
        check; on success the two's-complement value is written big-endian. */
    method EncodeInteger(value: int32, min: int32, max: int32) returns (st: Status)
      requires Valid()
      modifies this`position, buf
      ensures Valid()
      ensures st == (if value < min || value > max then Constraint
                     else if old(position) + 4 > size then BufferOverflow
                     else Success)
      ensures Advanced(old(buf[..]), old(position), if st == Success then IntegerBytes(value) else [])
    {
      if value < min || value > max {
        return Constraint;
      }
      if position + 4 > size {
        return BufferOverflow;
      }
      PutBE32(ToUnsigned(value));
      return Success;
    }

    /** `axdr_encode_unsigned`. */
    method EncodeUnsigned(value: uint32, max: uint32) returns (st: Status)
      requires Valid()
      modifies this`position, buf
      ensures Valid()
      ensures st == (if value > max then Constraint
                     else if old(position) + 4 > size then BufferOverflow
                     else Success)
      ensures Advanced(old(buf[..]), old(position), if st == Success then BE32(value) else [])
    {
      if value > max {
        return Constraint;
      }
      if position + 4 > size {
        return BufferOverflow;
      }
      PutBE32(value);
      return Success;
    }

    /** `axdr_encode_boolean`. */
    method EncodeBoolean(value: bool) returns (st: Status)
      requires Valid()
      modifies this`position, buf
      ensures Valid()
      ensures st == (if old(position) + 1 > size then BufferOverflow else Success)
      ensures Advanced(old(buf[..]), old(position), if st == Success then [BooleanByte(value)] else [])
    {
      if position + 1 > size {
        return BufferOverflow;
      }
      ghost var s0 := buf[..];
      buf[position] := if value then 0xFF else 0x00;
      assert buf[..] == Splice(s0, position, [BooleanByte(value)]);
      position := position + 1;
      return Success;
    }

    /** `axdr_encode_enum`: `value` must lie in [0, count - 1]; the bytes are
        those of `axdr_encode_integer(value, 0, count - 1)`. */
    method EncodeEnum(value: int32, count: int32) returns (st: Status)
      requires Valid()
      modifies this`position, buf
      ensures Valid()
      ensures st == (if value < 0 || value >= count then Constraint
                     else if old(position) + 4 > size then BufferOverflow
                     else Success)
      ensures Advanced(old(buf[..]), old(position), if st == Success then IntegerBytes(value) else [])
    {
      if value < 0 || value >= count {
        return Constraint;
      }
      st := EncodeInteger(value, 0, count - 1);
    }

    /** `axdr_encode_bit_string`: the space for the prefix and the
        ceil(length / 8) payload bytes is checked before anything is written. */
    method EncodeBitString(bits: seq<byte>, length: nat) returns (st: Status)
      requires Valid()
      requires length < 0x1_0000_0000     // the length is narrowed to uint32_t for the prefix
      requires PayloadLen(length) <= |bits|  // memcpy reads that many bytes from `bits`
      modifies this`position, buf
      ensures Valid()
      ensures st == (if old(position) + 4 + PayloadLen(length) > size then BufferOverflow else Success)
      ensures Advanced(old(buf[..]), old(position), if st == Success then BitStringBytes(length, bits) else [])
    {
      if position + 4 + PayloadLen(length) > size {
        return BufferOverflow;
      }
      ghost var s0, p0 := buf[..], position;
      // The C code ignores this result; the space check above makes it a success.
      var prefix := EncodeUnsigned(length, UINT32_MAX);
      var byteLength := PayloadLen(length);
      CopyIn(bits[..byteLength]);
      SpliceConsecutive(s0, p0, BE32(length), bits[..byteLength]);
      return Success;
    }

    /** `axdr_encode_octet_string`. */
    method EncodeOctetString(octets: seq<byte>) returns (st: Status)
      requires Valid()
      requires |octets| < 0x1_0000_0000   // the length is narrowed to uint32_t for the prefix
      modifies this`position, buf
      ensures Valid()
      ensures st == (if old(position) + 4 + |octets| > size then BufferOverflow else Success)
      ensures Advanced(old(buf[..]), old(position), if st == Success then OctetStringBytes(octets) else [])
    {
      if position + 4 + |octets| > size {
        return BufferOverflow;
      }
      ghost var s0, p0 := buf[..], position;
      var prefix := EncodeUnsigned(|octets|, UINT32_MAX);
      CopyIn(octets);
      SpliceConsecutive(s0, p0, BE32(|octets|), octets);
      return Success;
    }

    /** `axdr_encode_visible_string`: `text` is the content up to the NUL
        terminator, so it holds no zero byte; the maximum-length check comes
        before any framing. */
    method EncodeVisibleString(text: seq<byte>, maxLength: nat) returns (st: Status)
      requires Valid()
      requires 0 !in text && |text| < 0x1_0000_0000
      modifies this`position, buf
      ensures Valid()
      ensures st == (if |text| > maxLength then Constraint
                     else if old(position) + 4 + |text| > size then BufferOverflow
                     else Success)
      ensures Advanced(old(buf[..]), old(position), if st == Success then OctetStringBytes(text) else [])
    {
      if |text| > maxLength {
        return Constraint;
      }
      st := EncodeOctetString(text);
    }

    /** `axdr_encode_null`: nothing goes on the wire. */
    method EncodeNull() returns (st: Status)
      ensures st == Success
    {
      return Success;
    }

    /** `axdr_decode_integer`: the value is stored and the position advanced
        before the range check, so a CONSTRAINT result still moves the cursor. */
    method DecodeInteger(min: int32, max: int32) returns (st: Status, value: Option<int32>)
      requires Valid()
      modifies this`position
      ensures Valid()
      ensures old(position) + 4 > size ==>
        st == BufferOverflow && value == None && position == old(position)
      ensures old(position) + 4 <= size ==>
        && value == Some(ToSigned(FromBE32(buf[old(position)..old(position) + 4])))
        && position == old(position) + 4
        && st == (if value.value < min || value.value > max then Constraint else Success)
    {
      if position + 4 > size {
        return BufferOverflow, None;
      }
      // The four shifted bytes form the two's-complement pattern of the int32.
      var pattern := FromBE32(buf[position..position + 4]);
      var v := ToSigned(pattern);
      value := Some(v);
      position := position + 4;
      if v < min || v > max {
        return Constraint, value;
      }
      return Success, value;
    }

    /** `axdr_decode_unsigned`, with the same order as `DecodeInteger`. */
    method DecodeUnsigned(max: uint32) returns (st: Status, value: Option<uint32>)
      requires Valid()
      modifies this`position
      ensures Valid()
      ensures old(position) + 4 > size ==>
        st == BufferOverflow && value == None && position == old(position)
      ensures old(position) + 4 <= size ==>
        && value == Some(FromBE32(buf[old(position)..old(position) + 4]))
        && position == old(position) + 4
        && st == (if value.value > max then Constraint else Success)
    {
      if position + 4 > size {
        return BufferOverflow, None;
      }
      var v := FromBE32(buf[position..position + 4]);
      value := Some(v);
      position := position + 4;
      if v > max {
        return Constraint, value;
      }
      return Success, value;
    }

    /** `axdr_decode_boolean`: any nonzero byte is true. */
    method DecodeBoolean() returns (st: Status, value: Option<bool>)
      requires Valid()
      modifies this`position
      ensures Valid()
      ensures old(position) + 1 > size ==>
        st == BufferOverflow && value == None && position == old(position)
      ensures old(position) + 1 <= size ==>
        st == Success && value == Some(buf[old(position)] != 0) && position == old(position) + 1
    {
      if position + 1 > size {
        return BufferOverflow, None;
      }
      value := Some(buf[position] != 0);
      position := position + 1;
      return Success, value;
    }

    /** `axdr_decode_enum`: decodes an integer constrained to [0, count - 1]
        and stores it only on success. */
    method DecodeEnum(count: int32) returns (st: Status, value: Option<int32>)
      requires Valid()
      requires count > INT32_MIN   // `count - 1` is computed in int
      modifies this`position
      ensures Valid()
      ensures old(position) + 4 > size ==>
        st == BufferOverflow && value == None && position == old(position)
      ensures old(position) + 4 <= size ==>
        var v := ToSigned(FromBE32(buf[old(position)..old(position) + 4]));
        && position == old(position) + 4
        && st == (if v < 0 || v > count - 1 then Constraint else Success)
        && value == (if st == Success then Some(v) else None)
    {
      var temp;
      st, temp := DecodeInteger(0, count - 1);
      if st == Success {
        value := temp;
      } else {
        value := None;
      }
    }

    /** `axdr_decode_bit_string`: the bit count is stored as soon as the
        prefix is read, before the payload space check; the payload length is
        computed in uint32 arithmetic. */
    method DecodeBitString() returns (st: Status, length: Option<nat>, bits: Option<seq<byte>>)
      requires Valid()
      modifies this`position
      ensures Valid()
      ensures old(position) + 4 > size ==>
        st == BufferOverflow && length == None && bits == None && position == old(position)
      ensures old(position) + 4 <= size ==>
        var n := FromBE32(buf[old(position)..old(position) + 4]);
        var m := PayloadLen32(n);
        && length == Some(n)
        && (old(position) + 4 + m > size ==>
              st == BufferOverflow && bits == None && position == old(position) + 4)
        && (old(position) + 4 + m <= size ==>
              && st == Success
              && bits == Some(buf[old(position) + 4..old(position) + 4 + m])
              && position == old(position) + 4 + m)
    {
      var bitLength;
      st, bitLength := DecodeUnsigned(UINT32_MAX);
      if st != Success {
        return st, None, None;
      }
      length := Some(bitLength.value);
      var byteLength := PayloadLen32(bitLength.value);
      if position + byteLength > size {
        return BufferOverflow, length, None;
      }
      bits := Some(buf[position..position + byteLength]);
      position := position + byteLength;
      return Success, length, bits;
    }

    /** `axdr_decode_octet_string`: the length is stored as soon as the
        prefix is read, before the payload space check. */
    method DecodeOctetString() returns (st: Status, length: Option<nat>, octets: Option<seq<byte>>)
      requires Valid()
      modifies this`position
      ensures Valid()
      ensures old(position) + 4 > size ==>
        st == BufferOverflow && length == None && octets == None && position == old(position)
      ensures old(position) + 4 <= size ==>
        var n := FromBE32(buf[old(position)..old(position) + 4]);
        && length == Some(n)
        && (old(position) + 4 + n > size ==>
              st == BufferOverflow && octets == None && position == old(position) + 4)
        && (old(position) + 4 + n <= size ==>
              && st == Success
              && octets == Some(buf[old(position) + 4..old(position) + 4 + n])
              && position == old(position) + 4 + n)
    {
      var strLength;
      st, strLength := DecodeUnsigned(UINT32_MAX);
      if st != Success {
        return st, None, None;
      }
      length := Some(strLength.value);
      if position + strLength.value > size {
        return BufferOverflow, length, None;
      }
      octets := Some(buf[position..position + strLength.value]);
      position := position + strLength.value;
      return Success, length, octets;
    }

    /** `axdr_decode_visible_string`: the octet string is copied and the
        cursor advanced before the maximum-length check, so a CONSTRAINT
        result leaves the (unterminated) bytes copied and the cursor moved. */
    method DecodeVisibleString(maxLength: nat) returns (st: Status, text: Option<seq<byte>>)
      requires Valid()
      modifies this`position
      ensures Valid()
      ensures old(position) + 4 > size ==>
        st == BufferOverflow && text == None && position == old(position)
      ensures old(position) + 4 <= size ==>
        var n := FromBE32(buf[old(position)..old(position) + 4]);
        && (old(position) + 4 + n > size ==>
              st == BufferOverflow && text == None && position == old(position) + 4)
        && (old(position) + 4 + n <= size ==>
              && text == Some(buf[old(position) + 4..old(position) + 4 + n])
              && position == old(position) + 4 + n
              && st == (if n > maxLength then Constraint else Success))
    {
      var length;
      st, length, text := DecodeOctetString();
      if st != Success {
        return st, text;
      }
      if length.value > maxLength {
        return Constraint, text;
      }
      return Success, text;
    }

    /** `axdr_decode_null`: nothing is read. */
    method DecodeNull() returns (st: Status)
      ensures st == Success
    {
      return Success;
    }
  }
}
