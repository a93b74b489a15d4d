/** Clients of the codec, after the round trips of `src/test_axdr.c` and
    `src/test_sequence.c`: each encodes into a fresh buffer, moves the
    cursor back to the start and decodes, and its postcondition says what
    comes back. */
module Examples {
  import opened Wire
  import opened Wrappers
  import opened Codec
  import opened Fields
  import opened Traversal
  import opened Sequence

  /** The bytes `w` written at the start of `s` are what a decoder finds there. */
  lemma WrittenAtStart(s0: seq<byte>, w: seq<byte>, s: seq<byte>)
    requires |w| <= |s0| && s == Splice(s0, 0, w)
    ensures s[..|w|] == w
  {
    assert s[0..|w|] == w;
  }

  /** Any int32 goes through `axdr_encode_integer` and `axdr_decode_integer`
      over the full int32 range unchanged. */
  method IntegerRoundTrip(v: int32) returns (encoded: Status, decoded: Status, value: Option<int32>)
    ensures encoded == Success && decoded == Success && value == Some(v)
  {
    var buffer := new byte[128];
    var codec := new Cursor(buffer, 128);
    ghost var s0 := buffer[..];
    encoded := codec.EncodeInteger(v, INT32_MIN, INT32_MAX);
    WrittenAtStart(s0, IntegerBytes(v), buffer[..]);
    assert buffer[0..4] == IntegerBytes(v);
    IntegerBytesRoundTrip(v);
    codec.position := 0;
    decoded, value := codec.DecodeInteger(INT32_MIN, INT32_MAX);
  }

  /** True and false survive the boolean codec. */
  method BooleanRoundTrip(b: bool) returns (encoded: Status, decoded: Status, value: Option<bool>)
    ensures encoded == Success && decoded == Success && value == Some(b)
  {
    var buffer := new byte[128];
    var codec := new Cursor(buffer, 128);
    ghost var s0 := buffer[..];
    encoded := codec.EncodeBoolean(b);
    WrittenAtStart(s0, [BooleanByte(b)], buffer[..]);
    codec.position := 0;
    decoded, value := codec.DecodeBoolean();
  }

  /** Every value of an enumeration of four survives the enum codec. */
  method EnumRoundTrip(v: int32) returns (encoded: Status, decoded: Status, value: Option<int32>)
    requires 0 <= v < 4
    ensures encoded == Success && decoded == Success && value == Some(v)
  {
    var buffer := new byte[128];
    var codec := new Cursor(buffer, 128);
    ghost var s0 := buffer[..];
    encoded := codec.EncodeEnum(v, 4);
    WrittenAtStart(s0, IntegerBytes(v), buffer[..]);
    assert buffer[0..4] == IntegerBytes(v);
    IntegerBytesRoundTrip(v);
    codec.position := 0;
    decoded, value := codec.DecodeEnum(4);
  }

  /** The 16 bits A5 5A come back with their bit count. */
  method BitStringRoundTrip() returns (encoded: Status, decoded: Status, length: Option<nat>, bits: Option<seq<byte>>)
    ensures encoded == Success && decoded == Success
    ensures length == Some(16) && bits == Some([0xA5, 0x5A])
  {
    var buffer := new byte[128];
    var codec := new Cursor(buffer, 128);
    ghost var s0 := buffer[..];
    encoded := codec.EncodeBitString([0xA5, 0x5A], 16);
    ghost var w := BitStringBytes(16, [0xA5, 0x5A]);
    WrittenAtStart(s0, w, buffer[..]);
    BitStringBytesParts(16, [0xA5, 0x5A]);
    assert buffer[0..4] == w[..4] && buffer[4..6] == w[4..] == [0xA5, 0x5A];
    assert PayloadLen32(16) == 2;
    codec.position := 0;
    decoded, length, bits := codec.DecodeBitString();
  }

  /** A visible string of at most 20 characters (such as "Hello, A-XDR!")
      comes back unchanged through the codec limited to 20. */
  method VisibleStringRoundTrip(text: seq<byte>) returns (encoded: Status, decoded: Status, value: Option<seq<byte>>)
    requires 0 !in text && |text| <= 20
    ensures encoded == Success && decoded == Success && value == Some(text)
  {
    var buffer := new byte[128];
    var codec := new Cursor(buffer, 128);
    ghost var s0 := buffer[..];
    encoded := codec.EncodeVisibleString(text, 20);
    ghost var w := OctetStringBytes(text);
    WrittenAtStart(s0, w, buffer[..]);
    OctetStringBytesParts(text);
    assert buffer[0..4] == w[..4] && buffer[4..4 + |text|] == w[4..];
    codec.position := 0;
    decoded, value := codec.DecodeVisibleString(20);
  }

  /** The null codec succeeds both ways and leaves the cursor where it was. */
  method NullRoundTrip() returns (encoded: Status, decoded: Status, position: nat)
    ensures encoded == Success && decoded == Success && position == 0
  {
    var buffer := new byte[128];
    var codec := new Cursor(buffer, 128);
    encoded := codec.EncodeNull();
    decoded := codec.DecodeNull();
    position := codec.position;
  }

  /** The dispatcher of the record example: tag 0 an int32 over its full
      range, tag 1 a boolean, tag 2 a visible string of at most 32 characters. */
  function RecordDispatcher(): Dispatcher {
    map[0 := IntegerK(INT32_MIN, INT32_MAX), 1 := BooleanK, 2 := VisibleStringK(32)]
  }

  /** "Test Name". */
  const NAME: seq<byte> := [84, 101, 115, 116, 32, 78, 97, 109, 101]

  /** The record {id 12345, active, "Test Name"} as tagged parameters. */
  function Record(): seq<Param> {
    [Param(Some(IntV(12345)), 0), Param(Some(BoolV(true)), 1), Param(Some(TextV(NAME)), 2)]
  }

  /** The record encodes in a 256-byte buffer without error. */
  lemma RecordEncodes()
    ensures AllFit(TaggedSteps(Record(), RecordDispatcher()))
    ensures EncodeFields(TaggedSteps(Record(), RecordDispatcher()), 0, 256).st == Success
  {
    var d := RecordDispatcher();
    var steps := TaggedSteps(Record(), d);
    assert steps == [Apply(IntegerK(INT32_MIN, INT32_MAX), IntV(12345)), Apply(BooleanK, BoolV(true)),
                     Apply(VisibleStringK(32), TextV(NAME))];
    var ws := Intents(steps);
    assert ws == [Encoded(Success, IntegerBytes(12345)), Encoded(Success, [BooleanByte(true)]),
                  Encoded(Success, OctetStringBytes(NAME))];
    assert Run(ws[2..], 5, 256).st == Success;
    assert Run(ws[1..], 4, 256).st == Success;
  }

  /** The zeroed destinations of the record, with the record's tags. */
  function Zeroed(): seq<Param> {
    [Param(Some(IntV(0)), 0), Param(Some(BoolV(false)), 1), Param(Some(TextV([])), 2)]
  }

  /** Every field of the record is present, has a tag the dispatcher
      knows, fits its codec and is not null. */
  lemma RecordFields()
    ensures var d := RecordDispatcher();
      forall j | 0 <= j < |Record()| ::
        && Record()[j].value.Some? && Record()[j].tag in d
        && Fits(d[Record()[j].tag], Record()[j].value.value) && Decodable(d[Record()[j].tag])
        && !d[Record()[j].tag].NullK?
  {
  }

  /** The zeroed destinations are present and carry the record's tags. */
  lemma ZeroedTags()
    ensures |Zeroed()| == |Record()|
    ensures forall j | 0 <= j < |Zeroed()| :: Zeroed()[j].value.Some? && Zeroed()[j].tag == Record()[j].tag
  {
  }

  /** The buffer contents `s` start with the encoded record. */
  predicate RecordWritten(s: seq<byte>) {
    && 256 <= |s| && AllFit(TaggedSteps(Record(), RecordDispatcher()))
    && var w := EncodeFields(TaggedSteps(Record(), RecordDispatcher()), 0, 256).bytes;
       s[..|w|] == w
  }

  /** Decoding the encoded record into the zeroed destinations succeeds and
      fills them with the record. */
  lemma RecordReadsBack(s: seq<byte>)
    requires RecordWritten(s)
    ensures var r := DecodeFields(TaggedReads(Zeroed(), RecordDispatcher()), s, 0, 256);
      r.st == Success && Store(Zeroed(), r.outs, PutParam) == Record()
  {
    hide DecodeFields, DecodeOutcome, Store, Run;
    var d := RecordDispatcher();
    RecordEncodes();
    RecordFields();
    ZeroedTags();
    var w := EncodeFields(TaggedSteps(Record(), d), 0, 256).bytes;
    assert s[0..|w|] == w;
    TaggedRoundTrip(Record(), Zeroed(), d, s, 0, 256);
  }

  /** `axdr_encode_sequence_with_params` on the record, at the start of a
      256-byte buffer. */
  method EncodeRecord(codec: Cursor) returns (st: Status)
    requires codec.Valid() && codec.position == 0 && codec.size == 256
    modifies codec, codec.buf
    ensures codec.Valid() && st == Success && RecordWritten(codec.buf[..])
  {
    var params := new Param[3] (j requires 0 <= j < 3 => Record()[j]);
    assert params[..3] == Record();
    RecordEncodes();
    ghost var s0 := codec.buf[..];
    st := EncodeSequenceWithParams(codec, params, 3, Some(RecordDispatcher()));
    WrittenAtStart(s0, EncodeFields(TaggedSteps(Record(), RecordDispatcher()), 0, 256).bytes, codec.buf[..]);
  }

  /** `axdr_decode_sequence_with_params` from the start of a buffer holding
      the encoded record, into zeroed destinations. */
  method DecodeRecord(codec: Cursor) returns (st: Status, record: seq<Param>)
    requires codec.Valid() && codec.position == 0 && codec.size == 256 && RecordWritten(codec.buf[..])
    modifies codec
    ensures st == Success && record == Record()
  {
    hide DecodeFields, DecodeOutcome, Store, Run;
    var dests := new Param[3] (j requires 0 <= j < 3 => Zeroed()[j]);
    assert dests[..3] == dests[..] == Zeroed();
    RecordReadsBack(codec.buf[..]);
    st := DecodeSequenceWithParams(codec, dests, 3, Some(RecordDispatcher()));
    record := dests[..];
  }

  /** The record encoded with `axdr_encode_sequence_with_params` and decoded
      with `axdr_decode_sequence_with_params` into zeroed destinations with
      the same tags comes back field for field. */
  method RecordRoundTrip() returns (encoded: Status, decoded: Status, record: seq<Param>)
    ensures encoded == Success && decoded == Success && record == Record()
  {
    var buffer := new byte[256];
    var codec := new Cursor(buffer, 256);
    encoded := EncodeRecord(codec);
    codec.position := 0;
    decoded, record := DecodeRecord(codec);
  }

  /** {1, 2, 3, 4, 5}. */
  function Five(): seq<Value> {
    [IntV(1), IntV(2), IntV(3), IntV(4), IntV(5)]
  }

  /** The buffer contents `s` start with the encoded {1, 2, 3, 4, 5}. */
  predicate FiveWritten(s: seq<byte>) {
    && 512 <= |s|
    && var w := CountThenElements(IntegerK(INT32_MIN, INT32_MAX), Five(), 10, 0, 512).bytes;
       s[..|w|] == w
  }

  /** Decoding the encoded {1, 2, 3, 4, 5} into ten elements succeeds,
      reads the count 5 and fills the first five elements. */
  lemma FiveReadBack(s: seq<byte>, slots: seq<Value>)
    requires FiveWritten(s) && |slots| == 10
    ensures var k := IntegerK(INT32_MIN, INT32_MAX);
      var h := DecodeOutcome(UnsignedK(Narrow(10)), s, 0, 512);
      && h == Read(Success, Some(IntV(5)), 4)
      && var r := DecodeFields(ElementReads(k, 5), s, h.next, 512);
      && r.st == Success && Store(slots, r.outs, PutElement)[..5] == Five()
  {
    hide CountThenElements, Run, DecodeFields, DecodeOutcome;
    var k := IntegerK(INT32_MIN, INT32_MAX);
    ElementsEncode();
    var w := CountThenElements(k, Five(), 10, 0, 512).bytes;
    assert s[0..|w|] == w;
    SequenceOfRoundTrip(k, Five(), 10, s, 0, 512, slots);
  }

  /** `axdr_encode_sequence_of` on an element array holding `elems`. */
  method EncodeArray(codec: Cursor, k: Kind, elems: seq<Value>, maxCount: nat) returns (st: Status)
    requires codec.Valid() && forall j | 0 <= j < |elems| :: Fits(k, elems[j])
    modifies codec, codec.buf
    ensures codec.Valid()
    ensures var r := CountThenElements(k, elems, maxCount, old(codec.position), codec.size);
      st == r.st && codec.Advanced(old(codec.buf[..]), old(codec.position), r.bytes)
  {
    var source := new Value[|elems|] (j requires 0 <= j < |elems| => elems[j]);
    var sq := new SequenceOf(source, |elems|, maxCount);
    assert source[..|elems|] == elems;
    st := EncodeSequenceOf(codec, sq, Some(k));
  }

  /** `axdr_encode_sequence_of` on {1, 2, 3, 4, 5} with at most 10 elements,
      at the start of a 512-byte buffer. */
  method EncodeFive(codec: Cursor) returns (st: Status)
    requires codec.Valid() && codec.position == 0 && codec.size == 512
    modifies codec, codec.buf
    ensures codec.Valid() && st == Success && FiveWritten(codec.buf[..])
  {
    ghost var s0 := codec.buf[..];
    st := EncodeArray(codec, IntegerK(INT32_MIN, INT32_MAX), Five(), 10);
    ElementsEncode();
    WrittenAtStart(s0, CountThenElements(IntegerK(INT32_MIN, INT32_MAX), Five(), 10, 0, 512).bytes, codec.buf[..]);
  }

  /** `axdr_decode_sequence_of` into an element array of `capacity`
      elements, all `IntV(0)`, with the given maximum count. */
  method DecodeArray(codec: Cursor, k: Kind, maxCount: nat, capacity: nat) returns (st: Status, count: nat, elements: seq<Value>)
    requires codec.Valid() && Decodable(k) && Narrow(maxCount) <= capacity
    modifies codec
    ensures |elements| == capacity
    ensures var h := DecodeOutcome(UnsignedK(Narrow(maxCount)), codec.buf[..], old(codec.position), codec.size);
      h.st == Success ==>
        && count == h.out.value.i
        && var d := DecodeFields(ElementReads(k, count), codec.buf[..], h.next, codec.size);
        && st == d.st && elements == Store(seq(capacity, _ => IntV(0)), d.outs, PutElement)
  {
    var target := new Value[capacity] (_ => IntV(0));
    assert target[..] == seq(capacity, _ => IntV(0));
    var dsq := new SequenceOf(target, 0, maxCount);
    st := DecodeSequenceOf(codec, dsq, Some(k));
    count := dsq.count;
    elements := target[..];
  }

  /** `axdr_decode_sequence_of` from the start of a buffer holding the
      encoded {1, 2, 3, 4, 5}, into ten zeroed elements. */
  method DecodeFive(codec: Cursor) returns (st: Status, count: nat, elements: seq<Value>)
    requires codec.Valid() && codec.position == 0 && codec.size == 512 && FiveWritten(codec.buf[..])
    modifies codec
    ensures st == Success && count == 5 && |elements| == 10 && elements[..5] == Five()
  {
    FiveReadBack(codec.buf[..], seq(10, _ => IntV(0)));
    st, count, elements := DecodeArray(codec, IntegerK(INT32_MIN, INT32_MAX), 10, 10);
  }

  /** The SEQUENCE OF {1, 2, 3, 4, 5}, at most 10 elements, encoded with
      `axdr_encode_sequence_of` and decoded into a zeroed array of 10
      comes back with its count and its elements. */
  method SequenceOfRoundTrip5() returns (encoded: Status, decoded: Status, count: nat, elements: seq<Value>)
    ensures encoded == Success && decoded == Success
    ensures count == 5 && |elements| == 10 && elements[..5] == Five()
  {
    var buffer := new byte[512];
    var codec := new Cursor(buffer, 512);
    encoded := EncodeFive(codec);
    codec.position := 0;
    decoded, count, elements := DecodeFive(codec);
  }

  /** {1, 2, 3, 4, 5} with at most 10 elements encodes in a 512-byte buffer
      without error. */
  lemma ElementsEncode()
    ensures CountThenElements(IntegerK(INT32_MIN, INT32_MAX), Five(), 10, 0, 512).st == Success
  {
    var k := IntegerK(INT32_MIN, INT32_MAX);
    var ws := Intents(ElementSteps(k, Five()));
    assert ws == [Encoded(Success, IntegerBytes(1)), Encoded(Success, IntegerBytes(2)), Encoded(Success, IntegerBytes(3)),
                  Encoded(Success, IntegerBytes(4)), Encoded(Success, IntegerBytes(5))];
    assert Run(ws[4..], 20, 512).st == Success;
    assert Run(ws[3..], 16, 512).st == Success;
    assert Run(ws[2..], 12, 512).st == Success;
    assert Run(ws[1..], 8, 512).st == Success;
  }
}
