/** Wire-level vocabulary of the A-XDR codec: bytes, the C integer widths,
    the result codes, and the byte layouts the encoders write. */
module Wire {

  type byte = x: int | 0 <= x < 0x100
  type int32 = x: int | -0x8000_0000 <= x < 0x8000_0000
  type uint32 = x: int | 0 <= x < 0x1_0000_0000

  const INT32_MIN: int32 := -0x8000_0000
  const INT32_MAX: int32 := 0x7FFF_FFFF
  const UINT32_MAX: uint32 := 0xFFFF_FFFF

  predicate IsInt32(x: int) { -0x8000_0000 <= x < 0x8000_0000 }
  predicate IsUint32(x: int) { 0 <= x < 0x1_0000_0000 }

  /** The result codes `AXDR_SUCCESS` and `AXDR_ERROR_*`. */
  datatype Status = Success | BufferOverflow | InvalidLength | InvalidValue | Constraint | InvalidType
  {
    /** The integer the C functions return for this status. */
    function Code(): int {
      match this
      case Success => 0
      case BufferOverflow => -1
      case InvalidLength => -2
      case InvalidValue => -3
      case Constraint => -4
      case InvalidType => -5
    }
  }

  /** The four bytes of `u`, most significant first. */
  function BE32(u: uint32): (r: seq<byte>)
    ensures |r| == 4
  {
    [u / 0x100_0000, (u / 0x1_0000) % 0x100, (u / 0x100) % 0x100, u % 0x100]
  }

  /** The unsigned value of four big-endian bytes; they are exactly the
      bytes `BE32` writes for it. */
  function FromBE32(s: seq<byte>): (u: uint32)
    requires |s| == 4
    ensures BE32(u) == s
  {
    var b0, b1, b2, b3 := s[0] as int, s[1] as int, s[2] as int, s[3] as int;
    var u := b0 * 0x100_0000 + b1 * 0x1_0000 + b2 * 0x100 + b3;
    assert u / 0x100_0000 == b0;
    var hi := b0 * 0x100 + b1;
    assert u == hi * 0x1_0000 + (b2 * 0x100 + b3);
    assert u / 0x1_0000 == hi && hi % 0x100 == b1;
    var mid := hi * 0x100 + b2;
    assert u == mid * 0x100 + b3;
    assert u / 0x100 == mid && mid % 0x100 == b2;
    assert u % 0x100 == b3;
    u
  }

  lemma BE32RoundTrip(u: uint32)
    ensures FromBE32(BE32(u)) == u
  {
    var b := BE32(u);
    var hi := u / 0x1_0000;
    assert u == hi * 0x1_0000 + (u / 0x100) % 0x100 * 0x100 + u % 0x100;
    assert hi == b[0] as int * 0x100 + b[1] as int;
  }

  /** The two's-complement bit pattern of `v`, read as unsigned. */
  function ToUnsigned(v: int32): (u: uint32)
    ensures u % 0x1_0000_0000 == v % 0x1_0000_0000
    ensures (u >= 0x8000_0000) == (v < 0)
  {
    if v < 0 then v + 0x1_0000_0000 else v
  }

  /** The int32 whose two's-complement bit pattern is `u`. */
  function ToSigned(u: uint32): (v: int32)
    ensures v % 0x1_0000_0000 == u % 0x1_0000_0000
  {
    if u < 0x8000_0000 then u else u - 0x1_0000_0000
  }

  /** What `axdr_encode_integer` writes for `v`: its two's-complement pattern, big-endian. */
  function IntegerBytes(v: int32): (r: seq<byte>)
    ensures |r| == 4
    ensures (r[0] >= 0x80) == (v < 0)
  {
    BE32(ToUnsigned(v))
  }

  /** The decoder's reading of those four bytes gives `v` back. */
  lemma IntegerBytesRoundTrip(v: int32)
    ensures ToSigned(FromBE32(IntegerBytes(v))) == v
  {
    BE32RoundTrip(ToUnsigned(v));
  }

  /** What `axdr_encode_boolean` writes: 0xFF for true, 0x00 for false. */
  function BooleanByte(b: bool): (r: byte)
    ensures (r != 0) == b
  {
    if b then 0xFF else 0x00
  }

  /** The byte count of a bit string of `bits` bits, ceil(bits / 8), as the
      encoder computes it in `size_t`. */
  function PayloadLen(bits: nat): (n: nat)
    ensures n * 8 >= bits && n * 8 < bits + 8
  {
    (bits + 7) / 8
  }

  /** The same byte count as the decoder computes it: `bit_length + 7` is
      evaluated in 32-bit unsigned arithmetic and wraps. */
  function PayloadLen32(bits: uint32): (n: nat)
    ensures bits < 0x1_0000_0000 - 7 ==> n == PayloadLen(bits)
    ensures bits >= 0x1_0000_0000 - 7 ==> n == 0
  {
    ((bits + 7) % 0x1_0000_0000) / 8
  }

  /** An octet string on the wire: its 4-byte big-endian length, then its bytes. */
  function OctetStringBytes(octets: seq<byte>): (r: seq<byte>)
    requires |octets| < 0x1_0000_0000
    ensures |r| == 4 + |octets|
    ensures r[4..] == octets
  {
    BE32(|octets|) + octets
  }

  /** The prefix of an octet string reads back as its length, and the
      payload follows it. */
  lemma OctetStringBytesParts(octets: seq<byte>)
    requires |octets| < 0x1_0000_0000
    ensures var r := OctetStringBytes(octets);
      FromBE32(r[..4]) == |octets| && r[4..] == octets
  {
    BE32RoundTrip(|octets|);
    assert (BE32(|octets|) + octets)[..4] == BE32(|octets|);
  }

  /** A bit string on the wire: its 4-byte big-endian bit count, then
      ceil(length / 8) bytes taken from `bits`. */
  function BitStringBytes(length: uint32, bits: seq<byte>): (r: seq<byte>)
    requires PayloadLen(length) <= |bits|
    ensures |r| == 4 + PayloadLen(length)
    ensures r[4..] == bits[..PayloadLen(length)]
  {
    BE32(length) + bits[..PayloadLen(length)]
  }

  /** The prefix of a bit string reads back as its bit count, and the
      ceil(length / 8) payload bytes follow it. */
  lemma BitStringBytesParts(length: uint32, bits: seq<byte>)
    requires PayloadLen(length) <= |bits|
    ensures var r := BitStringBytes(length, bits);
      FromBE32(r[..4]) == length && r[4..] == bits[..PayloadLen(length)]
  {
    BE32RoundTrip(length);
    assert (BE32(length) + bits[..PayloadLen(length)])[..4] == BE32(length);
  }

  /** Where an octet string was written, the decoder reads its length
      from the prefix and then exactly its bytes, for any octets. */
  lemma OctetStringReadBack(octets: seq<byte>, s: seq<byte>, pos: nat)
    requires |octets| < 0x1_0000_0000 && pos + 4 + |octets| <= |s|
    requires s[pos..pos + 4 + |octets|] == OctetStringBytes(octets)
    ensures FromBE32(s[pos..pos + 4]) == |octets|
    ensures s[pos + 4..pos + 4 + FromBE32(s[pos..pos + 4])] == octets
  {
    OctetStringBytesParts(octets);
    var w := OctetStringBytes(octets);
    assert s[pos..pos + 4] == w[..4];
    assert s[pos + 4..pos + 4 + |octets|] == w[4..];
  }

  /** Where a bit string was written, the decoder reads its bit count from
      the prefix, computes in 32 bits the same payload length the encoder
      used, and reads exactly the payload, as long as `length + 7` does
      not wrap. */
  lemma BitStringReadBack(length: uint32, bits: seq<byte>, s: seq<byte>, pos: nat)
    requires length < 0x1_0000_0000 - 7 && PayloadLen(length) <= |bits|
    requires pos + 4 + PayloadLen(length) <= |s|
    requires s[pos..pos + 4 + PayloadLen(length)] == BitStringBytes(length, bits)
    ensures FromBE32(s[pos..pos + 4]) == length
    ensures PayloadLen32(length) == PayloadLen(length)
    ensures s[pos + 4..pos + 4 + PayloadLen32(length)] == bits[..PayloadLen(length)]
  {
    BitStringBytesParts(length, bits);
    var w := BitStringBytes(length, bits);
    assert s[pos..pos + 4] == w[..4];
    assert s[pos + 4..pos + 4 + PayloadLen(length)] == w[4..];
  }

  /** The bit counts the read-back excludes: for the top seven counts the
      encoder writes 2^29 payload bytes, but the decoder's 32-bit
      `length + 7` wraps and it reads a payload of none. */
  lemma BitStringWrapLosesPayload(length: uint32, bits: seq<byte>)
    requires length >= 0x1_0000_0000 - 7 && PayloadLen(length) <= |bits|
    ensures FromBE32(BitStringBytes(length, bits)[..4]) == length
    ensures PayloadLen(length) == 0x2000_0000 && PayloadLen32(length) == 0
  {
    BitStringBytesParts(length, bits);
  }

  /** `s` with the bytes `w` written over it from index `p` on. */
  function Splice(s: seq<byte>, p: nat, w: seq<byte>): (r: seq<byte>)
    requires p + |w| <= |s|
    ensures |r| == |s| && r[p..p + |w|] == w
    ensures forall i | 0 <= i < |s| && !(p <= i < p + |w|) :: r[i] == s[i]
  {
    s[..p] + w + s[p + |w|..]
  }

  /** Writing `a` and then `b` right after it is writing `a + b`. */
  lemma SpliceConsecutive(s: seq<byte>, p: nat, a: seq<byte>, b: seq<byte>)
    requires p + |a| + |b| <= |s|
    ensures Splice(Splice(s, p, a), p + |a|, b) == Splice(s, p, a + b)
  {
    var lhs, rhs := Splice(Splice(s, p, a), p + |a|, b), Splice(s, p, a + b);
    forall i | 0 <= i < |s| ensures lhs[i] == rhs[i] {
      if p <= i < p + |a| {
        assert rhs[i] == rhs[p..p + |a| + |b|][i - p] == (a + b)[i - p];
        assert Splice(s, p, a)[i] == Splice(s, p, a)[p..p + |a|][i - p];
      } else if p + |a| <= i < p + |a| + |b| {
        assert rhs[i] == rhs[p..p + |a| + |b|][i - p] == (a + b)[i - p];
        assert lhs[i] == lhs[p + |a|..p + |a| + |b|][i - p - |a|];
      }
    }
  }
}
