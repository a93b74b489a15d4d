/** The closed set of field codecs that the sequence dispatchers apply.

    In C a sequence carries untyped field pointers and function pointers
    (`AXDR_ENCODE_FIELD`, `AXDR_DECODE_FIELD`, `AXDR_FIELD_ENCODER`); here a
    field codec is a `Kind` (which primitive, with which bounds) and a field
    is a `Value`. Each kind forwards to one primitive of the cursor, the way
    the test dispatcher in `src/test_sequence.c` forwards to
    `axdr_encode_integer`, `axdr_encode_boolean` and
    `axdr_encode_visible_string`. Bit and octet strings take a pointer and a
    separate length, so no one-pointer field codec can forward to them; they
    are not field kinds. */
module Fields {
  import opened Wire
  import opened Wrappers
  import opened Codec

  datatype Kind =
    | IntegerK(min: int32, max: int32)
    | UnsignedK(bound: uint32)
    | BooleanK
    | EnumK(count: int32)
    | VisibleStringK(maxLength: nat)
    | NullK

  datatype Value =
    | IntV(i: int)
    | BoolV(b: bool)
    | TextV(text: seq<byte>)
    | NullV

  /** The field really is of the type the codec reads it as (in C a
      mismatch is undefined behaviour), and it fits the C widths. */
  predicate Typed(k: Kind, v: Value) {
    match k
    case IntegerK(_, _) => v.IntV? && IsInt32(v.i)
    case UnsignedK(_) => v.IntV? && IsUint32(v.i)
    case BooleanK => v.BoolV?
    case EnumK(_) => v.IntV? && IsInt32(v.i)
    case VisibleStringK(_) => v.TextV? && |v.text| < 0x1_0000_0000
    case NullK => true
  }

  /** A field the encoder can be handed: typed, and a visible string is the
      content of a NUL-terminated C string, so it holds no zero byte. */
  predicate Fits(k: Kind, v: Value) {
    Typed(k, v) && (k.VisibleStringK? ==> 0 !in v.text)
  }

  /** `axdr_decode_enum` computes `count - 1` in int. */
  predicate Decodable(k: Kind) {
    k.EnumK? ==> k.count > INT32_MIN
  }

  /** The value breaks the constraint the kind puts on it. */
  predicate Violates(k: Kind, v: Value)
    requires Typed(k, v)
  {
    match k
    case IntegerK(min, max) => v.i < min || v.i > max
    case UnsignedK(max) => v.i > max
    case EnumK(count) => v.i < 0 || v.i >= count
    case VisibleStringK(maxLength) => |v.text| > maxLength
    case _ => false
  }

  /** The bytes the kind's encoder writes for `v` when it succeeds: four
      for the integer kinds, one for a boolean, a 4-byte length prefix and
      the characters for a visible string, none for null. */
  function Image(k: Kind, v: Value): (r: seq<byte>)
    requires Typed(k, v)
    ensures |r| == match k
      case IntegerK(_, _) => 4
      case UnsignedK(_) => 4
      case BooleanK => 1
      case EnumK(_) => 4
      case VisibleStringK(_) => 4 + |v.text|
      case NullK => 0
    ensures k.VisibleStringK? ==> r[4..] == v.text
  {
    match k
    case IntegerK(_, _) => IntegerBytes(v.i)
    case UnsignedK(_) => BE32(v.i)
    case BooleanK => [BooleanByte(v.b)]
    case EnumK(_) => IntegerBytes(v.i)
    case VisibleStringK(_) => OctetStringBytes(v.text)
    case NullK => []
  }

  /** The result of one encoder call and the bytes it wrote. */
  datatype Encoded = Encoded(st: Status, bytes: seq<byte>)

  /** What the encoder of kind `k` decides about `v` before it looks at the
      space left: the constraint verdict and, if it passes, the bytes. */
  function Intent(k: Kind, v: Value): (r: Encoded)
    requires Fits(k, v)
    ensures r.st == Success || r.st == Constraint
    ensures r.st == Constraint <==> Violates(k, v)
    ensures r.st == Success ==> r.bytes == Image(k, v)
  {
    if Violates(k, v) then Encoded(Constraint, []) else Encoded(Success, Image(k, v))
  }

  /** Carrying out the decision `w` at `pos` with `size` usable bytes: a
      rejected field is reported as it is and writes nothing; an accepted
      one is written only if all its bytes fit. */
  function Place(w: Encoded, pos: nat, size: nat): (r: Encoded)
    requires pos <= size
    ensures pos + |r.bytes| <= size
    ensures r.st != Success ==> r.bytes == []
    ensures r.st == Success <==> w.st == Success && pos + |w.bytes| <= size
    ensures r.st == Success ==> r.bytes == w.bytes
    ensures w.st != Success ==> r.st == w.st
  {
    if w.st != Success then Encoded(w.st, [])
    else if pos + |w.bytes| > size then Encoded(BufferOverflow, [])
    else w
  }

  /** What the encoder of kind `k` does to a cursor at `pos` with `size`
      usable bytes: a constraint violation is reported before a lack of
      space, and a failing encoder writes nothing. */
  function EncodeOutcome(k: Kind, v: Value, pos: nat, size: nat): (r: Encoded)
    requires Fits(k, v) && pos <= size
    ensures r.st == Success ==> r.bytes == Image(k, v)
    ensures r.st != Success ==> r.bytes == []
    ensures pos + |r.bytes| <= size
  {
    Place(Intent(k, v), pos, size)
  }

  /** The result of one decoder call, what it stored through its field
      pointer (`None`: nothing), and the position it left. */
  datatype Read = Read(st: Status, out: Option<Value>, next: nat)

  /** What the decoder of kind `k` does to a cursor at `pos` over the
      buffer contents `s`. */
  function DecodeOutcome(k: Kind, s: seq<byte>, pos: nat, size: nat): (r: Read)
    requires Decodable(k) && pos <= size <= |s|
    ensures pos <= r.next <= size
    ensures r.st == BufferOverflow ==> r.out == None
    ensures r.st == Success && !k.NullK? ==>
      r.out.Some? && Typed(k, r.out.value) && !Violates(k, r.out.value)
  {
    match k
    case IntegerK(min, max) =>
      if pos + 4 > size then Read(BufferOverflow, None, pos)
      else
        var x := ToSigned(FromBE32(s[pos..pos + 4]));
        Read(if x < min || x > max then Constraint else Success, Some(IntV(x)), pos + 4)
    case UnsignedK(max) =>
      if pos + 4 > size then Read(BufferOverflow, None, pos)
      else
        var x := FromBE32(s[pos..pos + 4]);
        Read(if x > max then Constraint else Success, Some(IntV(x)), pos + 4)
    case BooleanK =>
      if pos + 1 > size then Read(BufferOverflow, None, pos)
      else Read(Success, Some(BoolV(s[pos] != 0)), pos + 1)
    case EnumK(count) =>
      if pos + 4 > size then Read(BufferOverflow, None, pos)
      else
        var x := ToSigned(FromBE32(s[pos..pos + 4]));
        if x < 0 || x > count - 1 then Read(Constraint, None, pos + 4)
        else Read(Success, Some(IntV(x)), pos + 4)
    case VisibleStringK(maxLength) =>
      if pos + 4 > size then Read(BufferOverflow, None, pos)
      else
        var n := FromBE32(s[pos..pos + 4]);
        if pos + 4 + n > size then Read(BufferOverflow, None, pos + 4)
        else
          Read(if n > maxLength then Constraint else Success,
               Some(TextV(s[pos + 4..pos + 4 + n])), pos + 4 + n)
    case NullK =>
      Read(Success, None, pos)
  }

  /** What decoding gives back for a field encoded from `v`: the value
      itself, except that the null codec stores nothing. */
  function Echo(k: Kind, v: Value): Option<Value> {
    if k.NullK? then None else Some(v)
  }

  /** Decoding the bytes an encoder wrote, with the same kind, succeeds,
      gives the value back and stops right after those bytes; only the
      written window of the buffer matters. */
  lemma FieldRoundTrip(k: Kind, v: Value, s: seq<byte>, pos: nat, size: nat)
    requires Fits(k, v) && Decodable(k) && pos <= size <= |s|
    requires EncodeOutcome(k, v, pos, size).st == Success
    requires s[pos..pos + |Image(k, v)|] == Image(k, v)
    ensures DecodeOutcome(k, s, pos, size) == Read(Success, Echo(k, v), pos + |Image(k, v)|)
  {
    var w := Image(k, v);
    match k
    case IntegerK(_, _) =>
      assert s[pos..pos + 4] == w;
      IntegerBytesRoundTrip(v.i);
    case UnsignedK(_) =>
      assert s[pos..pos + 4] == w;
      BE32RoundTrip(v.i);
    case BooleanK =>
      assert s[pos] == w[0];
    case EnumK(_) =>
      assert s[pos..pos + 4] == w;
      IntegerBytesRoundTrip(v.i);
    case VisibleStringK(_) =>
      OctetStringBytesParts(v.text);
      assert s[pos..pos + 4] == w[..4];
      assert s[pos + 4..pos + 4 + |v.text|] == w[4..];
    case NullK =>
  }

  /** A constraint violation is reported whatever the space left. */
  lemma ConstraintBeforeOverflow(k: Kind, v: Value, pos: nat, size: nat)
    requires Fits(k, v) && pos <= size && Violates(k, v)
    ensures EncodeOutcome(k, v, pos, size) == Encoded(Constraint, [])
  {
  }

  /** Dispatch one field to the primitive encoder of its kind. */
  method EncodeField(c: Cursor, k: Kind, v: Value) returns (st: Status)
    requires c.Valid() && Fits(k, v)
    modifies c`position, c.buf
    ensures c.Valid()
    ensures var r := EncodeOutcome(k, v, old(c.position), c.size);
      st == r.st && c.Advanced(old(c.buf[..]), old(c.position), r.bytes)
  {
    match k
    case IntegerK(min, max) =>
      st := c.EncodeInteger(v.i, min, max);
    case UnsignedK(max) =>
      st := c.EncodeUnsigned(v.i, max);
    case BooleanK =>
      st := c.EncodeBoolean(v.b);
    case EnumK(count) =>
      st := c.EncodeEnum(v.i, count);
    case VisibleStringK(maxLength) =>
      st := c.EncodeVisibleString(v.text, maxLength);
    case NullK =>
      st := c.EncodeNull();
  }

  /** Dispatch one field to the primitive decoder of its kind; `out` is what
      the decoder stores through the field pointer. */
  method DecodeField(c: Cursor, k: Kind) returns (st: Status, out: Option<Value>)
    requires c.Valid() && Decodable(k)
    modifies c`position
    ensures c.Valid()
    ensures DecodeOutcome(k, c.buf[..], old(c.position), c.size) == Read(st, out, c.position)
  {
    match k
    case IntegerK(min, max) =>
      var x;
      st, x := c.DecodeInteger(min, max);
      out := if x.Some? then Some(IntV(x.value)) else None;
    case UnsignedK(max) =>
      var x;
      st, x := c.DecodeUnsigned(max);
      out := if x.Some? then Some(IntV(x.value)) else None;
    case BooleanK =>
      var x;
      st, x := c.DecodeBoolean();
      out := if x.Some? then Some(BoolV(x.value)) else None;
    case EnumK(count) =>
      var x;
      st, x := c.DecodeEnum(count);
      out := if x.Some? then Some(IntV(x.value)) else None;
    case VisibleStringK(maxLength) =>
      var x;
      st, x := c.DecodeVisibleString(maxLength);
      out := if x.Some? then Some(TextV(x.value)) else None;
    case NullK =>
      st := c.DecodeNull();
      out := None;
  }
}
