/** The SEQUENCE and SEQUENCE OF codecs of `src/axdr_sequence.c`.

    Each C function first rejects a NULL argument with
    `AXDR_ERROR_INVALID_VALUE`, then describes what it finds at each index
    as a `Step` (or `ReadStep`) and runs the shared traversal of the
    `Traversal` module. The untyped pointers of the C become:
    - a field pointer: `Option<Value>` (`None` is NULL); when decoding,
      `Some(v)` is a destination currently holding `v`;
    - a field codec pointer: `Option<Kind>`;
    - the tagged dispatcher `AXDR_FIELD_ENCODER`: `Option<Dispatcher>`, the
      kind each type tag it knows selects;
    - `AXDR_SEQUENCE_OF`: the class `SequenceOf`. */
module Sequence {
  import opened Wire
  import opened Wrappers
  import opened Codec
  import opened Fields
  import opened Traversal

  /** `size_t` narrowed to `uint32_t`, as `axdr_encode_unsigned` and
      `axdr_decode_unsigned` receive a count or a maximum count. */
  function Narrow(n: nat): (u: uint32)
    ensures n < 0x1_0000_0000 ==> u == n
  {
    n % 0x1_0000_0000
  }

  // ---------------------------------------------------------------------
  // What the traversal finds at each index

  /** Index j of `axdr_encode_sequence`: a NULL encoder or field pointer is
      a missing field. */
  function PositionalStep(encoder: Option<Kind>, field: Option<Value>): Step {
    if encoder.None? || field.None? then Missing else Apply(encoder.value, field.value)
  }

  function PositionalSteps(encoders: seq<Option<Kind>>, fields: seq<Option<Value>>, n: nat): (r: seq<Step>)
    requires n <= |encoders| && n <= |fields|
    ensures |r| == n
  {
    seq(n, j requires 0 <= j < n => PositionalStep(encoders[j], fields[j]))
  }

  /** Index j of `axdr_decode_sequence`. */
  function PositionalRead(decoder: Option<Kind>, field: Option<Value>): ReadStep {
    if decoder.None? || field.None? then ReadMissing else ReadApply(decoder.value)
  }

  function PositionalReads(decoders: seq<Option<Kind>>, fields: seq<Option<Value>>, n: nat): (r: seq<ReadStep>)
    requires n <= |decoders| && n <= |fields|
    ensures |r| == n
  {
    seq(n, j requires 0 <= j < n => PositionalRead(decoders[j], fields[j]))
  }

  /** `AXDR_ENCODE_PARAMS`: a field pointer and the type tag handed to the
      dispatcher with it. */
  datatype Param = Param(value: Option<Value>, tag: int32)

  /** A field dispatcher: the kind of field codec each tag it knows selects;
      any other tag makes it return `AXDR_ERROR_INVALID_TYPE`. */
  type Dispatcher = map<int32, Kind>

  /** Index j of `axdr_encode_sequence_with_params`. */
  function TaggedStep(p: Param, d: Dispatcher): Step {
    if p.value.None? then Missing
    else if p.tag !in d then Unknown
    else Apply(d[p.tag], p.value.value)
  }

  function TaggedSteps(params: seq<Param>, d: Dispatcher): (r: seq<Step>)
    ensures |r| == |params|
  {
    seq(|params|, j requires 0 <= j < |params| => TaggedStep(params[j], d))
  }

  /** Index j of `axdr_decode_sequence_with_params`. */
  function TaggedRead(p: Param, d: Dispatcher): ReadStep {
    if p.value.None? then ReadMissing
    else if p.tag !in d then ReadUnknown
    else ReadApply(d[p.tag])
  }

  function TaggedReads(params: seq<Param>, d: Dispatcher): (r: seq<ReadStep>)
    ensures |r| == |params|
  {
    seq(|params|, j requires 0 <= j < |params| => TaggedRead(params[j], d))
  }

  /** The count that `axdr_encode_sequence_of` writes, constrained by the
      maximum count. */
  function CountStep(count: nat, maxCount: nat): Step {
    Apply(UnsignedK(Narrow(maxCount)), IntV(Narrow(count)))
  }

  /** One element codec applied to every element, in order. */
  function ElementSteps(k: Kind, elems: seq<Value>): (r: seq<Step>)
    ensures |r| == |elems|
  {
    seq(|elems|, j requires 0 <= j < |elems| => Apply(k, elems[j]))
  }

  function ElementReads(k: Kind, n: nat): (r: seq<ReadStep>)
    ensures |r| == n
  {
    seq(n, j requires 0 <= j < n => ReadApply(k))
  }

  /** What `axdr_encode_sequence_of` encodes: the count, then the elements. */
  function SequenceOfSteps(k: Kind, elems: seq<Value>, maxCount: nat): (r: seq<Step>)
    ensures |r| == 1 + |elems|
  {
    [CountStep(|elems|, maxCount)] + ElementSteps(k, elems)
  }

  // ---------------------------------------------------------------------
  // Where decoded values go

  /** The slots of a decoding traversal after it ran: slot j holds what the
      codec of index j stored, if it stored anything, and is untouched
      otherwise. `put` says how a stored value lands in a slot. */
  function Store<T>(slots: seq<T>, outs: seq<Option<Value>>, put: (T, Value) -> T): (r: seq<T>)
    requires |outs| <= |slots|
    ensures |r| == |slots|
    ensures forall j | 0 <= j < |slots| && (j >= |outs| || outs[j].None?) :: r[j] == slots[j]
  {
    seq(|slots|, j requires 0 <= j < |slots| =>
      if j < |outs| && outs[j].Some? then put(slots[j], outs[j].value) else slots[j])
  }

  /** The decoders' stores through their field pointers: slot j receives
      what the codec of index j stored. */
  method StoreInto<T>(slots: array<T>, outs: seq<Option<Value>>, put: (T, Value) -> T)
    requires |outs| <= slots.Length
    modifies slots
    ensures slots[..] == Store(old(slots[..]), outs, put)
  {
    forall j | 0 <= j < |outs| && outs[j].Some? {
      slots[j] := put(slots[j], outs[j].value);
    }
  }

  /** A field destination of `axdr_decode_sequence` now holds the value. */
  function PutField(slot: Option<Value>, v: Value): Option<Value> {
    Some(v)
  }

  /** The destination of a parameter now holds the value; its tag stays. */
  function PutParam(slot: Param, v: Value): Param {
    slot.(value := Some(v))
  }

  /** An element of the array now holds the value. */
  function PutElement(slot: Value, v: Value): Value {
    v
  }

  // ---------------------------------------------------------------------
  // The codecs

  /** What the codecs of this module may change on a cursor. */
  function CursorFrame(codec: Cursor?): set<object> {
    if codec == null then {} else {codec, codec.buf}
  }

  /** `axdr_encode_sequence`. */
  method EncodeSequence(codec: Cursor?, fields: array?<Option<Value>>, encoders: array?<Option<Kind>>, fieldCount: nat)
    returns (st: Status)
    requires codec != null ==> codec.Valid()
    requires fields != null && encoders != null ==>
      && fieldCount <= fields.Length && fieldCount <= encoders.Length
      && AllFit(PositionalSteps(encoders[..], fields[..], fieldCount))
    modifies CursorFrame(codec)
    ensures codec != null ==> codec.Valid() && codec.error == old(codec.error)
    ensures codec == null || fields == null || encoders == null ==> st == InvalidValue
    ensures codec != null && (fields == null || encoders == null) ==>
      codec.Advanced(old(codec.buf[..]), old(codec.position), [])
    ensures codec != null && fields != null && encoders != null ==>
      var r := EncodeFields(PositionalSteps(old(encoders[..]), old(fields[..]), fieldCount), old(codec.position), codec.size);
      st == r.st && codec.Advanced(old(codec.buf[..]), old(codec.position), r.bytes)
  {
    if codec == null || fields == null || encoders == null {
      return InvalidValue;
    }
    var steps := PositionalSteps(encoders[..], fields[..], fieldCount);
    IntentsAreIntentsOf(steps);
    st := EncodeEach(codec, steps, Intents(steps));
  }

  /** `axdr_decode_sequence`: each decoder stores through its field pointer. */
  method DecodeSequence(codec: Cursor?, fields: array?<Option<Value>>, decoders: array?<Option<Kind>>, fieldCount: nat)
    returns (st: Status)
    requires codec != null ==> codec.Valid()
    requires fields != null && decoders != null ==>
      && fieldCount <= fields.Length && fieldCount <= decoders.Length
      && AllDecodable(PositionalReads(decoders[..], fields[..], fieldCount))
    modifies codec, fields
    ensures codec != null ==> codec.Valid() && codec.error == old(codec.error)
    ensures codec == null || fields == null || decoders == null ==> st == InvalidValue
    ensures codec != null && (fields == null || decoders == null) ==> codec.position == old(codec.position)
    ensures fields != null && (codec == null || decoders == null) ==> fields[..] == old(fields[..])
    ensures codec != null && fields != null && decoders != null ==>
      var d := DecodeFields(PositionalReads(old(decoders[..]), old(fields[..]), fieldCount), codec.buf[..], old(codec.position), codec.size);
      st == d.st && codec.position == d.next && fields[..] == Store(old(fields[..]), d.outs, PutField)
  {
    if codec == null || fields == null || decoders == null {
      return InvalidValue;
    }
    var rs := PositionalReads(decoders[..], fields[..], fieldCount);
    var outs;
    st, outs := DecodeEach(codec, rs);
    StoreInto(fields, outs, PutField);
  }

  /** `axdr_encode_sequence_with_params`: the dispatcher gets each field
      with its tag. */
  method EncodeSequenceWithParams(codec: Cursor?, params: array?<Param>, paramCount: nat, dispatcher: Option<Dispatcher>)
    returns (st: Status)
    requires codec != null ==> codec.Valid()
    requires params != null && dispatcher.Some? ==>
      paramCount <= params.Length && AllFit(TaggedSteps(params[..paramCount], dispatcher.value))
    modifies CursorFrame(codec)
    ensures codec != null ==> codec.Valid() && codec.error == old(codec.error)
    ensures codec == null || params == null || dispatcher.None? ==> st == InvalidValue
    ensures codec != null && (params == null || dispatcher.None?) ==>
      codec.Advanced(old(codec.buf[..]), old(codec.position), [])
    ensures codec != null && params != null && dispatcher.Some? ==>
      var r := EncodeFields(TaggedSteps(old(params[..paramCount]), dispatcher.value), old(codec.position), codec.size);
      st == r.st && codec.Advanced(old(codec.buf[..]), old(codec.position), r.bytes)
  {
    if codec == null || params == null || dispatcher.None? {
      return InvalidValue;
    }
    var steps := TaggedSteps(params[..paramCount], dispatcher.value);
    IntentsAreIntentsOf(steps);
    st := EncodeEach(codec, steps, Intents(steps));
  }

  /** `axdr_decode_sequence_with_params`: the dispatcher decodes into each
      field pointer by its tag. */
  method DecodeSequenceWithParams(codec: Cursor?, params: array?<Param>, paramCount: nat, dispatcher: Option<Dispatcher>)
    returns (st: Status)
    requires codec != null ==> codec.Valid()
    requires params != null && dispatcher.Some? ==>
      paramCount <= params.Length && AllDecodable(TaggedReads(params[..paramCount], dispatcher.value))
    modifies codec, params
    ensures codec != null ==> codec.Valid() && codec.error == old(codec.error)
    ensures codec == null || params == null || dispatcher.None? ==> st == InvalidValue
    ensures codec != null && (params == null || dispatcher.None?) ==> codec.position == old(codec.position)
    ensures params != null && (codec == null || dispatcher.None?) ==> params[..] == old(params[..])
    ensures codec != null && params != null && dispatcher.Some? ==>
      var d := DecodeFields(TaggedReads(old(params[..paramCount]), dispatcher.value), codec.buf[..], old(codec.position), codec.size);
      st == d.st && codec.position == d.next && params[..] == Store(old(params[..]), d.outs, PutParam)
  {
    if codec == null || params == null || dispatcher.None? {
      return InvalidValue;
    }
    var rs := TaggedReads(params[..paramCount], dispatcher.value);
    var outs;
    st, outs := DecodeEach(codec, rs);
    StoreInto(params, outs, PutParam);
  }

  /** `AXDR_SEQUENCE_OF`: an element array with its count and the largest
      count allowed. */
  class SequenceOf {
    var elements: array?<Value>
    var count: nat
    var maxCount: nat

    constructor (elements: array?<Value>, count: nat, maxCount: nat)
      ensures this.elements == elements && this.count == count && this.maxCount == maxCount
    {
      this.elements := elements;
      this.count := count;
      this.maxCount := maxCount;
    }
  }

  /** `axdr_encode_sequence_of`: the count as an unsigned bounded by the
      maximum count, then every element with the one element codec. */
  method EncodeSequenceOf(codec: Cursor?, sq: SequenceOf?, elementCodec: Option<Kind>) returns (st: Status)
    requires codec != null ==> codec.Valid()
    requires sq != null && sq.elements != null ==> sq.count <= sq.elements.Length
    requires sq != null && sq.elements != null && elementCodec.Some? ==>
      forall j | 0 <= j < sq.count :: Fits(elementCodec.value, sq.elements[j])
    modifies CursorFrame(codec)
    ensures codec != null ==> codec.Valid() && codec.error == old(codec.error)
    ensures codec == null || sq == null || elementCodec.None? || sq.elements == null ==> st == InvalidValue
    ensures codec != null && (sq == null || elementCodec.None? || sq.elements == null) ==>
      codec.Advanced(old(codec.buf[..]), old(codec.position), [])
    ensures codec != null && sq != null && elementCodec.Some? && sq.elements != null ==>
      var r := CountThenElements(elementCodec.value, old(sq.elements[..sq.count]), sq.maxCount, old(codec.position), codec.size);
      st == r.st && codec.Advanced(old(codec.buf[..]), old(codec.position), r.bytes)
  {
    if codec == null || sq == null || elementCodec.None? || sq.elements == null {
      return InvalidValue;
    }
    st := EncodeCountThenElements(codec, elementCodec.value, sq.elements[..sq.count], sq.maxCount);
  }

  /** The body of `axdr_encode_sequence_of` once its arguments are known to
      be there: the count, then each element in order. */
  method EncodeCountThenElements(codec: Cursor, k: Kind, elems: seq<Value>, maxCount: nat) returns (st: Status)
    requires codec.Valid() && forall j | 0 <= j < |elems| :: Fits(k, elems[j])
    modifies codec`position, codec.buf
    ensures codec.Valid()
    ensures var r := CountThenElements(k, elems, maxCount, old(codec.position), codec.size);
      st == r.st && codec.Advanced(old(codec.buf[..]), old(codec.position), r.bytes)
  {
    ghost var s0, p0 := codec.buf[..], codec.position;
    var steps := ElementSteps(k, elems);
    ghost var h := EncodeOutcome(UnsignedK(Narrow(maxCount)), IntV(Narrow(|elems|)), p0, codec.size);
    st := EncodeField(codec, UnsignedK(Narrow(maxCount)), IntV(Narrow(|elems|)));
    if st != Success {
      return;
    }
    IntentsAreIntentsOf(steps);
    st := EncodeEach(codec, steps, Intents(steps));
    ghost var r := Run(Intents(steps), p0 + |h.bytes|, codec.size);
    SpliceConsecutive(s0, p0, h.bytes, r.bytes);
  }

  /** `axdr_decode_sequence_of`: the count is decoded as an unsigned bounded
      by the maximum count and stored before any element is decoded; then
      the elements are decoded into the array. The recheck of the count
      against the maximum cannot fail once the bounded decode succeeded. */
  method DecodeSequenceOf(codec: Cursor?, sq: SequenceOf?, elementCodec: Option<Kind>) returns (st: Status)
    requires codec != null ==> codec.Valid()
    requires sq != null && sq.elements != null ==> Narrow(sq.maxCount) <= sq.elements.Length
    requires elementCodec.Some? ==> Decodable(elementCodec.value)
    modifies codec, sq, if sq == null || sq.elements == null then {} else {sq.elements}
    ensures codec != null ==> codec.Valid() && codec.error == old(codec.error)
    ensures sq != null ==> sq.elements == old(sq.elements) && sq.maxCount == old(sq.maxCount)
    ensures codec == null || sq == null || elementCodec.None? || sq.elements == null ==>
      && st == InvalidValue
      && (codec != null ==> codec.position == old(codec.position))
      && (sq != null ==> sq.count == old(sq.count))
      && (sq != null && sq.elements != null ==> sq.elements[..] == old(sq.elements[..]))
    ensures codec != null && sq != null && elementCodec.Some? && sq.elements != null ==>
      var h := DecodeOutcome(UnsignedK(Narrow(sq.maxCount)), codec.buf[..], old(codec.position), codec.size);
      if h.st != Success then
        st == h.st && codec.position == h.next && sq.count == old(sq.count) && sq.elements[..] == old(sq.elements[..])
      else
        && sq.count == h.out.value.i <= sq.maxCount
        && var d := DecodeFields(ElementReads(elementCodec.value, sq.count), codec.buf[..], h.next, codec.size);
        && st == d.st && codec.position == d.next
        && sq.elements[..] == Store(old(sq.elements[..]), d.outs, PutElement)
  {
    if codec == null || sq == null || elementCodec.None? || sq.elements == null {
      return InvalidValue;
    }
    var count;
    st, count := codec.DecodeUnsigned(Narrow(sq.maxCount));
    if st != Success {
      return;
    }
    sq.count := count.value;
    var outs;
    st, outs := DecodeEach(codec, ElementReads(elementCodec.value, sq.count));
    StoreInto(sq.elements, outs, PutElement);
  }

  // ---------------------------------------------------------------------
  // Properties

  /** What `axdr_encode_sequence_of` does from `pos`: the count first,
      narrowed to 32 bits like the maximum; if its codec fails, that is the
      result and nothing is written; otherwise the elements, all of them,
      follow the count's bytes. */
  function CountThenElements(k: Kind, elems: seq<Value>, maxCount: nat, pos: nat, size: nat): (r: Encoded)
    requires pos <= size && forall j | 0 <= j < |elems| :: Fits(k, elems[j])
    ensures pos + |r.bytes| <= size
    ensures Narrow(|elems|) > Narrow(maxCount) ==> r.st == Constraint
    ensures r.st == Success ==> 4 <= |r.bytes| && r.bytes[..4] == BE32(Narrow(|elems|))
  {
    var h := EncodeOutcome(UnsignedK(Narrow(maxCount)), IntV(Narrow(|elems|)), pos, size);
    if h.st != Success then h
    else After(h.bytes, Run(Intents(ElementSteps(k, elems)), pos + |h.bytes|, size))
  }

  /** Count then elements is one traversal of the count step followed by
      the element steps, so every law of the traversal applies to it. */
  lemma CountFirst(k: Kind, elems: seq<Value>, maxCount: nat, pos: nat, size: nat)
    requires pos <= size && forall j | 0 <= j < |elems| :: Fits(k, elems[j])
    ensures AllFit(SequenceOfSteps(k, elems, maxCount))
    ensures EncodeFields(SequenceOfSteps(k, elems, maxCount), pos, size) == CountThenElements(k, elems, maxCount, pos, size)
  {
    var steps := ElementSteps(k, elems);
    var all := SequenceOfSteps(k, elems, maxCount);
    IntentsAppend([CountStep(|elems|, maxCount)], steps);
    var ws := Intents(all);
    assert ws[0] == StepIntent(CountStep(|elems|, maxCount));
    assert ws[1..] == Intents(steps);
  }

  /** A SEQUENCE OF whose count exceeds its maximum, both narrowed to 32
      bits, is rejected with `AXDR_ERROR_CONSTRAINT` before anything is
      written, whatever the space left and whatever the elements. */
  lemma CountOverMaxWritesNothing(k: Kind, elems: seq<Value>, maxCount: nat, pos: nat, size: nat)
    requires pos <= size && forall j | 0 <= j < |elems| :: Fits(k, elems[j])
    requires Narrow(|elems|) > Narrow(maxCount)
    ensures CountThenElements(k, elems, maxCount, pos, size) == Encoded(Constraint, [])
  {
    ConstraintBeforeOverflow(UnsignedK(Narrow(maxCount)), IntV(Narrow(|elems|)), pos, size);
  }

  /** Decoding what a successful SEQUENCE OF encoding wrote, with the same
      element codec and maximum count, reads back the count and then every
      element in order, and stops right after the last byte written; the
      first `count` slots of the element array then hold the elements
      (except for the null codec, which stores nothing). */
  lemma SequenceOfRoundTrip(k: Kind, elems: seq<Value>, maxCount: nat, s: seq<byte>, pos: nat, size: nat, slots: seq<Value>)
    requires Decodable(k) && forall j | 0 <= j < |elems| :: Fits(k, elems[j])
    requires |elems| < 0x1_0000_0000 && |elems| <= |slots|
    requires pos <= size <= |s|
    requires CountThenElements(k, elems, maxCount, pos, size).st == Success
    requires var w := CountThenElements(k, elems, maxCount, pos, size).bytes;
      s[pos..pos + |w|] == w
    ensures DecodeOutcome(UnsignedK(Narrow(maxCount)), s, pos, size) == Read(Success, Some(IntV(|elems|)), pos + 4)
    ensures AllApplied(ElementSteps(k, elems))
    ensures DecodeFields(ElementReads(k, |elems|), s, pos + 4, size)
      == Decoded(Success, Echoes(ElementSteps(k, elems)),
                 pos + |CountThenElements(k, elems, maxCount, pos, size).bytes|)
    ensures !k.NullK? ==> Store(slots, Echoes(ElementSteps(k, elems)), PutElement)[..|elems|] == elems
  {
    CountReadsBack(k, elems, maxCount, s, pos, size);
    CountThenElementsParts(k, elems, maxCount, pos, size);
    var e := EncodeFields(ElementSteps(k, elems), pos + 4, size);
    WindowSplit(s, pos, BE32(Narrow(|elems|)), e.bytes);
    ElementsReadBack(k, elems, s, pos + 4, size);
    if !k.NullK? {
      StoreElements(k, elems, slots);
    }
  }

  /** The count a successful SEQUENCE OF encoding of fewer than 2^32
      elements wrote decodes to the number of elements. */
  lemma CountReadsBack(k: Kind, elems: seq<Value>, maxCount: nat, s: seq<byte>, pos: nat, size: nat)
    requires forall j | 0 <= j < |elems| :: Fits(k, elems[j])
    requires |elems| < 0x1_0000_0000 && pos <= size <= |s|
    requires CountThenElements(k, elems, maxCount, pos, size).st == Success
    requires var w := CountThenElements(k, elems, maxCount, pos, size).bytes;
      s[pos..pos + |w|] == w
    ensures DecodeOutcome(UnsignedK(Narrow(maxCount)), s, pos, size) == Read(Success, Some(IntV(|elems|)), pos + 4)
  {
    var ck := UnsignedK(Narrow(maxCount));
    var h := EncodeOutcome(ck, IntV(|elems|), pos, size);
    var rest := Run(Intents(ElementSteps(k, elems)), pos + |h.bytes|, size);
    WindowSplit(s, pos, h.bytes, rest.bytes);
    FieldRoundTrip(ck, IntV(|elems|), s, pos, size);
  }

  /** From 2^32 elements on, the count is written narrowed: a successful
      encoding reads back a count that is not the number of elements,
      although every element was written after it. */
  lemma CountWrapsAt32Bits(k: Kind, elems: seq<Value>, maxCount: nat, s: seq<byte>, pos: nat, size: nat)
    requires forall j | 0 <= j < |elems| :: Fits(k, elems[j])
    requires |elems| >= 0x1_0000_0000 && pos <= size <= |s|
    requires CountThenElements(k, elems, maxCount, pos, size).st == Success
    requires var w := CountThenElements(k, elems, maxCount, pos, size).bytes;
      s[pos..pos + |w|] == w
    ensures DecodeOutcome(UnsignedK(Narrow(maxCount)), s, pos, size) == Read(Success, Some(IntV(Narrow(|elems|))), pos + 4)
    ensures Narrow(|elems|) < |elems|
  {
    var ck := UnsignedK(Narrow(maxCount));
    var h := EncodeOutcome(ck, IntV(Narrow(|elems|)), pos, size);
    var rest := Run(Intents(ElementSteps(k, elems)), pos + |h.bytes|, size);
    WindowSplit(s, pos, h.bytes, rest.bytes);
    FieldRoundTrip(ck, IntV(Narrow(|elems|)), s, pos, size);
  }

  /** The elements of a successful element traversal decode to their own
      echoes and stop where the traversal stopped. */
  lemma ElementsReadBack(k: Kind, elems: seq<Value>, s: seq<byte>, pos: nat, size: nat)
    requires Decodable(k) && forall j | 0 <= j < |elems| :: Fits(k, elems[j])
    requires pos <= size <= |s|
    requires EncodeFields(ElementSteps(k, elems), pos, size).st == Success
    requires var w := EncodeFields(ElementSteps(k, elems), pos, size).bytes;
      s[pos..pos + |w|] == w
    ensures AllApplied(ElementSteps(k, elems))
    ensures DecodeFields(ElementReads(k, |elems|), s, pos, size)
      == Decoded(Success, Echoes(ElementSteps(k, elems)),
                 pos + |EncodeFields(ElementSteps(k, elems), pos, size).bytes|)
  {
    var steps := ElementSteps(k, elems);
    assert AllApplied(steps);
    FieldsRoundTrip(steps, s, pos, size);
    assert ReadsOf(steps) == ElementReads(k, |elems|);
  }

  /** A successful SEQUENCE OF encoding is the four count bytes followed by
      the encoding traversal of the elements. */
  lemma CountThenElementsParts(k: Kind, elems: seq<Value>, maxCount: nat, pos: nat, size: nat)
    requires pos <= size && forall j | 0 <= j < |elems| :: Fits(k, elems[j])
    requires CountThenElements(k, elems, maxCount, pos, size).st == Success
    ensures pos + 4 <= size && AllFit(ElementSteps(k, elems))
    ensures CountThenElements(k, elems, maxCount, pos, size)
      == After(BE32(Narrow(|elems|)), EncodeFields(ElementSteps(k, elems), pos + 4, size))
  {
    var h := EncodeOutcome(UnsignedK(Narrow(maxCount)), IntV(Narrow(|elems|)), pos, size);
    assert h.st == Success && h.bytes == BE32(Narrow(|elems|));
  }

  /** Storing the echoes of the elements puts the elements back. */
  lemma StoreElements(k: Kind, elems: seq<Value>, slots: seq<Value>)
    requires !k.NullK? && |elems| <= |slots|
    requires AllApplied(ElementSteps(k, elems))
    ensures Store(slots, Echoes(ElementSteps(k, elems)), PutElement)[..|elems|] == elems
  {
    var outs := Echoes(ElementSteps(k, elems));
    var r := Store(slots, outs, PutElement);
    forall j | 0 <= j < |elems| ensures r[j] == elems[j] {
      assert ElementSteps(k, elems)[j] == Apply(k, elems[j]);
      assert outs[j] == Some(elems[j]);
      assert r[j] == PutElement(slots[j], elems[j]);
    }
    assert r[..|elems|] == elems;
  }

  /** The tagged SEQUENCE round trip: decoding what a successful encoding
      wrote, with destinations carrying the same tags and the same
      dispatcher, succeeds, stops right after the last byte written, and
      leaves every destination equal to the parameter it was encoded from
      (except those of the null codec, which stores nothing). */
  lemma TaggedRoundTrip(params: seq<Param>, dests: seq<Param>, d: Dispatcher, s: seq<byte>, pos: nat, size: nat)
    requires forall j | 0 <= j < |params| ::
      && params[j].value.Some? && params[j].tag in d
      && Fits(d[params[j].tag], params[j].value.value) && Decodable(d[params[j].tag])
    requires |dests| == |params|
    requires forall j | 0 <= j < |dests| :: dests[j].value.Some? && dests[j].tag == params[j].tag
    requires pos <= size <= |s|
    requires AllFit(TaggedSteps(params, d))
    requires EncodeFields(TaggedSteps(params, d), pos, size).st == Success
    requires var w := EncodeFields(TaggedSteps(params, d), pos, size).bytes;
      s[pos..pos + |w|] == w
    ensures AllDecodable(TaggedReads(dests, d))
    ensures var w := EncodeFields(TaggedSteps(params, d), pos, size).bytes;
      var r := DecodeFields(TaggedReads(dests, d), s, pos, size);
      && r.st == Success && r.next == pos + |w| && |r.outs| == |params|
      && forall j | 0 <= j < |params| && !d[params[j].tag].NullK? :: Store(dests, r.outs, PutParam)[j] == params[j]
  {
    var steps := TaggedSteps(params, d);
    assert AllApplied(steps) by {
      forall j | 0 <= j < |steps|
        ensures steps[j].Apply? && Fits(steps[j].kind, steps[j].value) && Decodable(steps[j].kind)
      {
        assert steps[j] == TaggedStep(params[j], d);
      }
    }
    assert ReadsOf(steps) == TaggedReads(dests, d);
    FieldsRoundTrip(steps, s, pos, size);
    var outs := Echoes(steps);
    var r := Store(dests, outs, PutParam);
    forall j | 0 <= j < |params| && !d[params[j].tag].NullK?
      ensures r[j] == params[j]
    {
      assert steps[j] == Apply(d[params[j].tag], params[j].value.value);
      assert outs[j] == Echo(steps[j].kind, steps[j].value) == params[j].value;
      assert r[j] == PutParam(dests[j], params[j].value.value);
    }
  }

  /** An index that finds a NULL pointer or an unknown tag ends the
      encoding traversal with that index's status; the earlier fields have
      written their bytes and nothing is undone. */
  lemma StopsAtInvalid(steps: seq<Step>, i: nat, pos: nat, size: nat)
    requires AllFit(steps) && i < |steps| && !steps[i].Apply? && pos <= size
    ensures AllFit(steps[..i])
    ensures EncodeFields(steps[..i], pos, size).st == Success ==>
      EncodeFields(steps, pos, size)
        == Encoded(if steps[i].Missing? then InvalidValue else InvalidType, EncodeFields(steps[..i], pos, size).bytes)
  {
    var ws := Intents(steps);
    IntentsPrefix(steps, i);
    assert ws == ws[..i] + [ws[i]] + ws[i + 1..];
    if EncodeFields(steps[..i], pos, size).st == Success {
      RunStopsAtFirstFailure(ws[..i], ws[i], ws[i + 1..], pos, size);
    }
  }

  /** A NULL encoder or field pointer at index i of `axdr_encode_sequence`
      returns `AXDR_ERROR_INVALID_VALUE` once the fields before it succeeded,
      leaving their bytes written. */
  lemma PositionalStopsAtNull(encoders: seq<Option<Kind>>, fields: seq<Option<Value>>, n: nat, i: nat, pos: nat, size: nat)
    requires n <= |encoders| && n <= |fields| && i < n && pos <= size
    requires AllFit(PositionalSteps(encoders, fields, n))
    requires encoders[i].None? || fields[i].None?
    ensures AllFit(PositionalSteps(encoders, fields, i))
    ensures EncodeFields(PositionalSteps(encoders, fields, i), pos, size).st == Success ==>
      EncodeFields(PositionalSteps(encoders, fields, n), pos, size)
        == Encoded(InvalidValue, EncodeFields(PositionalSteps(encoders, fields, i), pos, size).bytes)
  {
    var steps := PositionalSteps(encoders, fields, n);
    assert steps[..i] == PositionalSteps(encoders, fields, i);
    StopsAtInvalid(steps, i, pos, size);
  }

  /** At index i of `axdr_encode_sequence_with_params`, a NULL field pointer
      returns `AXDR_ERROR_INVALID_VALUE` and a tag the dispatcher does not
      know returns `AXDR_ERROR_INVALID_TYPE`, once the fields before it
      succeeded, leaving their bytes written. */
  lemma TaggedStopsAtInvalid(params: seq<Param>, d: Dispatcher, i: nat, pos: nat, size: nat)
    requires i < |params| && pos <= size
    requires AllFit(TaggedSteps(params, d))
    requires params[i].value.None? || params[i].tag !in d
    ensures AllFit(TaggedSteps(params[..i], d))
    ensures EncodeFields(TaggedSteps(params[..i], d), pos, size).st == Success ==>
      EncodeFields(TaggedSteps(params, d), pos, size)
        == Encoded(if params[i].value.None? then InvalidValue else InvalidType,
                   EncodeFields(TaggedSteps(params[..i], d), pos, size).bytes)
  {
    var steps := TaggedSteps(params, d);
    assert steps[..i] == TaggedSteps(params[..i], d);
    StopsAtInvalid(steps, i, pos, size);
  }

  /** A decoding index that finds a NULL pointer or an unknown tag ends
      the traversal with that index's status, after the earlier indices
      stored their values; nothing is undone and the position stays where
      they left it. */
  lemma DecodeStopsAtInvalid(rs: seq<ReadStep>, i: nat, s: seq<byte>, pos: nat, size: nat)
    requires AllDecodable(rs) && i < |rs| && !rs[i].ReadApply? && pos <= size <= |s|
    ensures AllDecodable(rs[..i])
    ensures var ra := DecodeFields(rs[..i], s, pos, size);
      ra.st == Success ==>
        DecodeFields(rs, s, pos, size)
          == Decoded(if rs[i].ReadMissing? then InvalidValue else InvalidType, ra.outs + [None], ra.next)
  {
    var rest := [rs[i]] + rs[i + 1..];
    assert rs == rs[..i] + rest;
    DecodeFieldsAppend(rs[..i], rest, s, pos, size);
    assert rest[0] == rs[i];
  }

  /** A NULL decoder or field at index i of `axdr_decode_sequence` returns
      `AXDR_ERROR_INVALID_VALUE` once the fields before it were decoded,
      leaving their values stored. */
  lemma PositionalDecodeStopsAtNull(decoders: seq<Option<Kind>>, fields: seq<Option<Value>>, n: nat, i: nat,
                                    s: seq<byte>, pos: nat, size: nat)
    requires n <= |decoders| && n <= |fields| && i < n && pos <= size <= |s|
    requires AllDecodable(PositionalReads(decoders, fields, n))
    requires decoders[i].None? || fields[i].None?
    ensures AllDecodable(PositionalReads(decoders, fields, i))
    ensures var ra := DecodeFields(PositionalReads(decoders, fields, i), s, pos, size);
      ra.st == Success ==>
        DecodeFields(PositionalReads(decoders, fields, n), s, pos, size) == Decoded(InvalidValue, ra.outs + [None], ra.next)
  {
    var rs := PositionalReads(decoders, fields, n);
    assert rs[..i] == PositionalReads(decoders, fields, i);
    DecodeStopsAtInvalid(rs, i, s, pos, size);
  }

  /** At index i of `axdr_decode_sequence_with_params`, a NULL field
      returns `AXDR_ERROR_INVALID_VALUE` and a tag the dispatcher does not
      know returns `AXDR_ERROR_INVALID_TYPE`, once the fields before it
      were decoded, leaving their values stored. */
  lemma TaggedDecodeStopsAtInvalid(params: seq<Param>, d: Dispatcher, i: nat, s: seq<byte>, pos: nat, size: nat)
    requires i < |params| && pos <= size <= |s|
    requires AllDecodable(TaggedReads(params, d))
    requires params[i].value.None? || params[i].tag !in d
    ensures AllDecodable(TaggedReads(params[..i], d))
    ensures var ra := DecodeFields(TaggedReads(params[..i], d), s, pos, size);
      ra.st == Success ==>
        DecodeFields(TaggedReads(params, d), s, pos, size)
          == Decoded(if params[i].value.None? then InvalidValue else InvalidType, ra.outs + [None], ra.next)
  {
    var rs := TaggedReads(params, d);
    assert rs[..i] == TaggedReads(params[..i], d);
    DecodeStopsAtInvalid(rs, i, s, pos, size);
  }
}
