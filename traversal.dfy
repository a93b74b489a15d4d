/** The field-by-field traversal that every dispatcher of
    `src/axdr_sequence.c` runs.

    All six C functions walk their fields in index order: check the field
    (and its codec), call the field codec on the shared cursor, and return
    the first result other than success unchanged, leaving in place
    whatever the earlier fields wrote. Here a dispatcher describes what it
    finds at each index as a `Step` (encoding) or a `ReadStep` (decoding)
    and hands the list to `EncodeEach` or `DecodeEach`.

    An encoding traversal is specified in two layers. `StepIntent` is what
    the codec of one index decides before it looks at the space left (a
    NULL pointer, an unknown type tag, a constraint violation, or the bytes
    to write); `Run` carries a list of such decisions out at consecutive
    positions. The laws of the traversal (concatenation, first failure
    wins, success iff every field succeeds) are proved about `Run`, for any
    decisions whatsoever. */
module Traversal {
  import opened Wire
  import opened Wrappers
  import opened Codec
  import opened Fields

  /** What the traversal finds at one index: a NULL field or codec pointer,
      a type tag the dispatcher does not know, or a field and its codec. */
  datatype Step = Missing | Unknown | Apply(kind: Kind, value: Value)

  /** The same for decoding, where the field is a destination. */
  datatype ReadStep = ReadMissing | ReadUnknown | ReadApply(kind: Kind)

  /** A step whose field the encoder can be handed. */
  predicate StepFits(x: Step) {
    x.Apply? ==> Fits(x.kind, x.value)
  }

  predicate AllFit(steps: seq<Step>) {
    forall j | 0 <= j < |steps| :: StepFits(steps[j])
  }

  /** A step whose codec the decoder can run. */
  predicate StepDecodable(x: ReadStep) {
    x.ReadApply? ==> Decodable(x.kind)
  }

  predicate AllDecodable(rs: seq<ReadStep>) {
    forall j | 0 <= j < |rs| :: StepDecodable(rs[j])
  }

  // ---------------------------------------------------------------------
  // Encoding: specification

  /** What index j decides: a NULL pointer is `AXDR_ERROR_INVALID_VALUE`,
      an unknown tag `AXDR_ERROR_INVALID_TYPE`, both without touching the
      cursor; otherwise the field codec's own decision. */
  function StepIntent(x: Step): (r: Encoded)
    requires StepFits(x)
    ensures x.Missing? ==> r == Encoded(InvalidValue, [])
    ensures x.Unknown? ==> r == Encoded(InvalidType, [])
    ensures x.Apply? ==> r == Intent(x.kind, x.value)
  {
    match x
    case Missing => Encoded(InvalidValue, [])
    case Unknown => Encoded(InvalidType, [])
    case Apply(k, v) => Intent(k, v)
  }

  /** The decisions of all indices, in order. */
  function Intents(steps: seq<Step>): (r: seq<Encoded>)
    requires AllFit(steps)
    ensures |r| == |steps|
    ensures forall j | 0 <= j < |steps| :: r[j] == StepIntent(steps[j])
  {
    seq(|steps|, j requires 0 <= j < |steps| => StepIntent(steps[j]))
  }

  /** `ws` lists the decisions of the indices of `steps`; stated one index
      at a time, on demand. */
  predicate IntentsOf(ws: seq<Encoded>, steps: seq<Step>)
    requires AllFit(steps)
  {
    |ws| == |steps| && forall j {:trigger IntentAt(steps, j)} | 0 <= j < |steps| :: ws[j] == IntentAt(steps, j)
  }

  function IntentAt(steps: seq<Step>, j: nat): Encoded
    requires j < |steps| && AllFit(steps)
  {
    StepIntent(steps[j])
  }

  lemma IntentsAreIntentsOf(steps: seq<Step>)
    requires AllFit(steps)
    ensures IntentsOf(Intents(steps), steps)
  {
  }

  /** Carrying out the decisions `ws` from `pos` on: the status of the
      traversal and every byte it wrote, including those of the fields
      before a failing one. */
  function Run(ws: seq<Encoded>, pos: nat, size: nat): (r: Encoded)
    requires pos <= size
    ensures pos + |r.bytes| <= size
    decreases |ws|
  {
    if ws == [] then Encoded(Success, [])
    else
      var e := Place(ws[0], pos, size);
      if e.st != Success then e
      else After(e.bytes, Run(ws[1..], pos + |e.bytes|, size))
  }

  /** `written` followed by the traversal `r` of the remaining fields. */
  function After(written: seq<byte>, r: Encoded): Encoded {
    Encoded(r.st, written + r.bytes)
  }

  /** The encoding traversal of `steps` from `pos`. */
  function EncodeFields(steps: seq<Step>, pos: nat, size: nat): (r: Encoded)
    requires AllFit(steps) && pos <= size
    ensures pos + |r.bytes| <= size
  {
    Run(Intents(steps), pos, size)
  }

  // ---------------------------------------------------------------------
  // Encoding: laws of the traversal

  /** Running `a + b` is running `a` and, only if that succeeded, running
      `b` right after it: fields go in order, their bytes are
      concatenated, and a failure in `a` means `b` is never looked at. */
  lemma {:induction false} RunAppend(a: seq<Encoded>, b: seq<Encoded>, pos: nat, size: nat)
    requires pos <= size
    ensures var ra := Run(a, pos, size);
      Run(a + b, pos, size) ==
        if ra.st != Success then ra else After(ra.bytes, Run(b, pos + |ra.bytes|, size))
    decreases |a|
  {
    if a == [] {
      assert a + b == b;
    } else {
      var ab := a + b;
      assert ab[0] == a[0];
      assert ab[1..] == a[1..] + b;
      var e := Place(a[0], pos, size);
      if e.st == Success {
        var p1 := pos + |e.bytes|;
        RunAppend(a[1..], b, p1, size);
        var ra1 := Run(a[1..], p1, size);
        if ra1.st == Success {
          var rb := Run(b, p1 + |ra1.bytes|, size);
          assert e.bytes + (ra1.bytes + rb.bytes) == (e.bytes + ra1.bytes) + rb.bytes;
        }
      }
    }
  }

  /** One more field of a traversal in progress: `written` so far, then
      index i at `pos`. A failure ends the traversal with what was written;
      a success adds its bytes. */
  lemma RunNext(ws: seq<Encoded>, i: nat, p0: nat, pos: nat, size: nat, written: seq<byte>)
    requires i < |ws| && p0 <= size && pos <= size
    requires Run(ws, p0, size) == After(written, Run(ws[i..], pos, size))
    ensures var e := Place(ws[i], pos, size);
      if e.st != Success then Run(ws, p0, size) == Encoded(e.st, written)
      else Run(ws, p0, size) == After(written + e.bytes, Run(ws[i + 1..], pos + |e.bytes|, size))
  {
    assert ws[i..][0] == ws[i] && ws[i..][1..] == ws[i + 1..];
    var e := Place(ws[i], pos, size);
    if e.st == Success {
      var rest := Run(ws[i + 1..], pos + |e.bytes|, size);
      assert (written + e.bytes) + rest.bytes == written + (e.bytes + rest.bytes);
    }
  }

  /** A traversal that fails stops at its first failing field: the status
      is that field's, the bytes written are exactly those of the fields
      before it, and the fields after it play no part. */
  lemma RunStopsAtFirstFailure(done: seq<Encoded>, w: Encoded, rest: seq<Encoded>, pos: nat, size: nat)
    requires pos <= size
    requires Run(done, pos, size).st == Success
    requires Place(w, pos + |Run(done, pos, size).bytes|, size).st != Success
    ensures var wd := Run(done, pos, size).bytes;
      Run(done + [w] + rest, pos, size) == Encoded(Place(w, pos + |wd|, size).st, wd)
  {
    var wd := Run(done, pos, size).bytes;
    RunAppend(done, [w] + rest, pos, size);
    assert done + [w] + rest == done + ([w] + rest);
    assert ([w] + rest)[0] == w;
  }

  /** Where the field of index j starts: after the bytes of those before. */
  function Offset(ws: seq<Encoded>, j: nat, pos: nat, size: nat): (p: nat)
    requires j <= |ws| && pos <= size
    ensures pos <= p <= size
  {
    pos + |Run(ws[..j], pos, size).bytes|
  }

  /** Past a successful first index, offsets are those of the rest of the
      traversal, started after that index's bytes. */
  lemma OffsetTail(ws: seq<Encoded>, j: nat, pos: nat, size: nat)
    requires 1 <= j <= |ws| && pos <= size && Place(ws[0], pos, size).st == Success
    ensures var p1 := pos + |Place(ws[0], pos, size).bytes|;
      p1 <= size && Offset(ws, j, pos, size) == Offset(ws[1..], j - 1, p1, size)
  {
    assert ws[..j][0] == ws[0];
    assert ws[..j][1..] == ws[1..][..j - 1];
  }

  /** A traversal succeeds exactly when the codec of every index, called at
      that index's offset, succeeds. */
  lemma {:induction false} RunSucceedsIffEach(ws: seq<Encoded>, pos: nat, size: nat)
    requires pos <= size
    ensures Run(ws, pos, size).st == Success <==>
      forall j | 0 <= j < |ws| :: Place(ws[j], Offset(ws, j, pos, size), size).st == Success
    decreases |ws|
  {
    if ws != [] {
      var e := Place(ws[0], pos, size);
      assert ws[..0] == [];
      assert Offset(ws, 0, pos, size) == pos;
      if e.st == Success {
        var tail, p1 := ws[1..], pos + |e.bytes|;
        RunSucceedsIffEach(tail, p1, size);
        forall j | 1 <= j < |ws|
          ensures Offset(ws, j, pos, size) == Offset(tail, j - 1, p1, size)
          ensures ws[j] == tail[j - 1]
        {
          OffsetTail(ws, j, pos, size);
        }
        if Run(ws, pos, size).st == Success {
          forall j | 0 <= j < |ws|
            ensures Place(ws[j], Offset(ws, j, pos, size), size).st == Success
          {
            if j > 0 {
              assert Place(tail[j - 1], Offset(tail, j - 1, p1, size), size).st == Success;
            }
          }
        } else {
          var k :| 0 <= k < |tail| && Place(tail[k], Offset(tail, k, p1, size), size).st != Success;
          assert Place(ws[k + 1], Offset(ws, k + 1, pos, size), size).st != Success;
        }
      }
    }
  }

  /** The status of a traversal is success or the status of one of its
      fields' codecs; a traversal with no fields succeeds and writes nothing. */
  lemma {:induction false} RunStatusComesFromAField(ws: seq<Encoded>, pos: nat, size: nat)
    requires pos <= size
    ensures var r := Run(ws, pos, size);
      r.st == Success || exists j | 0 <= j < |ws| :: r.st == Place(ws[j], Offset(ws, j, pos, size), size).st
    ensures ws == [] ==> Run(ws, pos, size) == Encoded(Success, [])
    decreases |ws|
  {
    if ws != [] {
      var e := Place(ws[0], pos, size);
      assert ws[..0] == [];
      if e.st == Success {
        var tail, p1 := ws[1..], pos + |e.bytes|;
        RunStatusComesFromAField(tail, p1, size);
        var r := Run(tail, p1, size);
        if r.st != Success {
          var k :| 0 <= k < |tail| && r.st == Place(tail[k], Offset(tail, k, p1, size), size).st;
          OffsetTail(ws, k + 1, pos, size);
          assert ws[k + 1] == tail[k];
        }
      }
    }
  }

  lemma IntentsAppend(a: seq<Step>, b: seq<Step>)
    requires AllFit(a) && AllFit(b)
    ensures AllFit(a + b) && Intents(a + b) == Intents(a) + Intents(b)
  {
    forall j | 0 <= j < |a + b| ensures StepFits((a + b)[j]) {
      if j < |a| { assert (a + b)[j] == a[j]; } else { assert (a + b)[j] == b[j - |a|]; }
    }
  }

  /** The decisions of the first i indices are the first i decisions. */
  lemma IntentsPrefix(steps: seq<Step>, i: nat)
    requires AllFit(steps) && i <= |steps|
    ensures AllFit(steps[..i]) && Intents(steps[..i]) == Intents(steps)[..i]
  {
    assert forall j | 0 <= j < i :: steps[..i][j] == steps[j];
  }

  // ---------------------------------------------------------------------
  // Decoding: specification and laws

  /** The result of a decoding traversal, what each invoked index stored
      (`outs[j]` for index j; `None`: nothing), and the final position. */
  datatype Decoded = Decoded(st: Status, outs: seq<Option<Value>>, next: nat)

  /** The result of one index of a decoding traversal. */
  function DecodeStep(x: ReadStep, s: seq<byte>, pos: nat, size: nat): (r: Read)
    requires StepDecodable(x) && pos <= size <= |s|
    ensures pos <= r.next <= size
    ensures x.ReadMissing? ==> r == Read(InvalidValue, None, pos)
    ensures x.ReadUnknown? ==> r == Read(InvalidType, None, pos)
  {
    match x
    case ReadMissing => Read(InvalidValue, None, pos)
    case ReadUnknown => Read(InvalidType, None, pos)
    case ReadApply(k) => DecodeOutcome(k, s, pos, size)
  }

  /** A decoding traversal over the buffer contents `s` from `pos`; it
      reports an entry in `outs` for every index it reached, the failing
      one included. */
  function DecodeFields(rs: seq<ReadStep>, s: seq<byte>, pos: nat, size: nat): (r: Decoded)
    requires AllDecodable(rs) && pos <= size <= |s|
    ensures pos <= r.next <= size
    ensures |r.outs| <= |rs|
    ensures r.st == Success ==> |r.outs| == |rs|
    ensures r.st != Success ==> 1 <= |r.outs|
    decreases |rs|
  {
    if rs == [] then Decoded(Success, [], pos)
    else
      var d := DecodeStep(rs[0], s, pos, size);
      if d.st != Success then Decoded(d.st, [d.out], d.next)
      else
        var rest := DecodeFields(rs[1..], s, d.next, size);
        Decoded(rest.st, [d.out] + rest.outs, rest.next)
  }

  /** Decoding `a + b` is decoding `a` and, only if that succeeded,
      decoding `b` from where it stopped. */
  lemma {:induction false} DecodeFieldsAppend(a: seq<ReadStep>, b: seq<ReadStep>, s: seq<byte>, pos: nat, size: nat)
    requires AllDecodable(a) && AllDecodable(b) && pos <= size <= |s|
    ensures AllDecodable(a + b)
    ensures var ra := DecodeFields(a, s, pos, size);
      DecodeFields(a + b, s, pos, size) ==
        if ra.st != Success then ra
        else
          var rb := DecodeFields(b, s, ra.next, size);
          Decoded(rb.st, ra.outs + rb.outs, rb.next)
    decreases |a|
  {
    hide DecodeStep;
    assert forall j | 0 <= j < |a + b| :: (a + b)[j] == if j < |a| then a[j] else b[j - |a|];
    if a == [] {
      assert a + b == b;
    } else {
      assert (a + b)[0] == a[0];
      assert (a + b)[1..] == a[1..] + b;
      var d := DecodeStep(a[0], s, pos, size);
      if d.st == Success {
        DecodeFieldsAppend(a[1..], b, s, d.next, size);
        var ra1 := DecodeFields(a[1..], s, d.next, size);
        if ra1.st == Success {
          var rb := DecodeFields(b, s, ra1.next, size);
          assert [d.out] + (ra1.outs + rb.outs) == ([d.out] + ra1.outs) + rb.outs;
        }
      }
    }
  }

  // ---------------------------------------------------------------------
  // Encoding, then decoding

  /** What a decoding traversal finds where an encoding traversal applied
      `steps`: the same codecs, with the fields now destinations. */
  function ReadsOf(steps: seq<Step>): (r: seq<ReadStep>)
    ensures |r| == |steps|
    ensures forall j | 0 <= j < |steps| :: r[j] == match steps[j]
      case Missing => ReadMissing
      case Unknown => ReadUnknown
      case Apply(k, _) => ReadApply(k)
  {
    seq(|steps|, j requires 0 <= j < |steps| =>
      match steps[j]
      case Missing => ReadMissing
      case Unknown => ReadUnknown
      case Apply(k, _) => ReadApply(k))
  }

  /** Every index holds a field the encoder accepts and a codec the decoder runs. */
  predicate AllApplied(steps: seq<Step>) {
    forall j | 0 <= j < |steps| :: steps[j].Apply? && Fits(steps[j].kind, steps[j].value) && Decodable(steps[j].kind)
  }

  /** What decoding gives back, index by index, for what `steps` encoded. */
  function Echoes(steps: seq<Step>): (r: seq<Option<Value>>)
    requires AllApplied(steps)
    ensures |r| == |steps|
    ensures forall j | 0 <= j < |steps| :: r[j] == Echo(steps[j].kind, steps[j].value)
  {
    seq(|steps|, j requires 0 <= j < |steps| => Echo(steps[j].kind, steps[j].value))
  }

  /** A successful traversal succeeded at its first index, wrote that
      index's bytes first, and then succeeded on the rest. */
  lemma RunHead(ws: seq<Encoded>, pos: nat, size: nat)
    requires ws != [] && pos <= size && Run(ws, pos, size).st == Success
    ensures ws[0].st == Success && pos + |ws[0].bytes| <= size
    ensures var rest := Run(ws[1..], pos + |ws[0].bytes|, size);
      rest.st == Success && Run(ws, pos, size).bytes == ws[0].bytes + rest.bytes
  {
  }

  /** The window a traversal wrote splits into the window of its first
      field and the window of the rest. */
  lemma WindowSplit(s: seq<byte>, pos: nat, a: seq<byte>, b: seq<byte>)
    requires pos + |a| + |b| <= |s| && s[pos..pos + |a| + |b|] == a + b
    ensures s[pos..pos + |a|] == a
    ensures s[pos + |a|..pos + |a| + |b|] == b
  {
    assert s[pos..pos + |a|] == s[pos..pos + |a| + |b|][..|a|];
    assert s[pos + |a|..pos + |a| + |b|] == s[pos..pos + |a| + |b|][|a|..];
  }

  /** A decoding traversal whose first index succeeds goes on from where
      that index stopped. */
  lemma DecodeFieldsNext(rs: seq<ReadStep>, s: seq<byte>, pos: nat, size: nat, d: Read)
    requires AllDecodable(rs) && rs != [] && pos <= size <= |s|
    requires DecodeStep(rs[0], s, pos, size) == d && d.st == Success
    ensures AllDecodable(rs[1..])
    ensures var rest := DecodeFields(rs[1..], s, d.next, size);
      DecodeFields(rs, s, pos, size) == Decoded(rest.st, [d.out] + rest.outs, rest.next)
  {
    assert forall j | 0 <= j < |rs[1..]| :: rs[1..][j] == rs[j + 1];
  }

  /** Index j of a decoding traversal, started anywhere from `pos` on where
      the bytes of the accepted decision `ws[j]` lie, succeeds, stores
      `outs[j]` and stops right after those bytes. */
  predicate ReadsBack(ws: seq<Encoded>, rs: seq<ReadStep>, outs: seq<Option<Value>>, s: seq<byte>, pos: nat, size: nat)
    requires |ws| == |rs| == |outs| && AllDecodable(rs) && size <= |s|
  {
    forall j, p | 0 <= j < |ws| && pos <= p <= size ::
      ws[j].st == Success && p + |ws[j].bytes| <= size && s[p..p + |ws[j].bytes|] == ws[j].bytes ==>
      ReadAt(rs, j, s, p, size) == Read(Success, outs[j], p + |ws[j].bytes|)
  }

  /** Index j of a decoding traversal, run at `p`. */
  function ReadAt(rs: seq<ReadStep>, j: nat, s: seq<byte>, p: nat, size: nat): Read
    requires j < |rs| && AllDecodable(rs) && p <= size <= |s|
  {
    DecodeStep(rs[j], s, p, size)
  }

  /** Reading back holds for the indices after the first, from any later
      position on. */
  lemma ReadsBackTail(ws: seq<Encoded>, rs: seq<ReadStep>, outs: seq<Option<Value>>, s: seq<byte>, pos: nat, pos': nat, size: nat)
    requires |ws| == |rs| == |outs| && ws != [] && AllDecodable(rs) && pos <= pos' && size <= |s|
    requires ReadsBack(ws, rs, outs, s, pos, size)
    ensures AllDecodable(rs[1..])
    ensures ReadsBack(ws[1..], rs[1..], outs[1..], s, pos', size)
  {
    assert forall j | 0 <= j < |rs| - 1 :: rs[1..][j] == rs[j + 1];
    forall j, p | 0 <= j < |ws| - 1 && pos' <= p <= size
      ensures ws[1..][j].st == Success && p + |ws[1..][j].bytes| <= size && s[p..p + |ws[1..][j].bytes|] == ws[1..][j].bytes ==>
        ReadAt(rs[1..], j, s, p, size) == Read(Success, outs[1..][j], p + |ws[1..][j].bytes|)
    {
      assert ws[1..][j] == ws[j + 1] && outs[1..][j] == outs[j + 1];
      assert ReadAt(rs[1..], j, s, p, size) == ReadAt(rs, j + 1, s, p, size);
    }
  }

  /** Decoding, index by index, the bytes a successful traversal wrote,
      with decoders that each read back their own index, succeeds with
      every index's value and stops right after the last byte written. */
  lemma {:induction false} RunReadsBack(ws: seq<Encoded>, rs: seq<ReadStep>, outs: seq<Option<Value>>, s: seq<byte>, pos: nat, size: nat)
    requires |ws| == |rs| == |outs| && AllDecodable(rs) && pos <= size <= |s|
    requires Run(ws, pos, size).st == Success
    requires s[pos..pos + |Run(ws, pos, size).bytes|] == Run(ws, pos, size).bytes
    requires ReadsBack(ws, rs, outs, s, pos, size)
    ensures DecodeFields(rs, s, pos, size) == Decoded(Success, outs, pos + |Run(ws, pos, size).bytes|)
    decreases |ws|
  {
    hide DecodeStep;
    if ws != [] {
      RunHead(ws, pos, size);
      var n := |ws[0].bytes|;
      var rest := Run(ws[1..], pos + n, size);
      WindowSplit(s, pos, ws[0].bytes, rest.bytes);
      var d := Read(Success, outs[0], pos + n);
      assert ReadAt(rs, 0, s, pos, size) == d;
      DecodeFieldsNext(rs, s, pos, size, d);
      ReadsBackTail(ws, rs, outs, s, pos, pos + n, size);
      RunReadsBack(ws[1..], rs[1..], outs[1..], s, pos + n, size);
      assert [outs[0]] + outs[1..] == outs;
    }
  }

  /** Every field kind reads back what it wrote. */
  lemma StepsReadBack(steps: seq<Step>, s: seq<byte>, size: nat)
    requires AllApplied(steps) && size <= |s|
    ensures AllFit(steps) && AllDecodable(ReadsOf(steps))
    ensures ReadsBack(Intents(steps), ReadsOf(steps), Echoes(steps), s, 0, size)
  {
    var ws, rs := Intents(steps), ReadsOf(steps);
    forall j, p | 0 <= j < |ws| && 0 <= p <= size
      ensures ws[j].st == Success && p + |ws[j].bytes| <= size && s[p..p + |ws[j].bytes|] == ws[j].bytes ==>
        ReadAt(rs, j, s, p, size) == Read(Success, Echoes(steps)[j], p + |ws[j].bytes|)
    {
      var x := steps[j];
      assert ws[j] == Intent(x.kind, x.value);
      if ws[j].st == Success && p + |ws[j].bytes| <= size && s[p..p + |ws[j].bytes|] == ws[j].bytes {
        FieldRoundTrip(x.kind, x.value, s, p, size);
      }
    }
  }

  /** Decoding the bytes a successful encoding traversal wrote, with the
      same codecs, succeeds, gives every field back in order, and stops
      right after the last byte written. */
  lemma FieldsRoundTrip(steps: seq<Step>, s: seq<byte>, pos: nat, size: nat)
    requires AllApplied(steps) && pos <= size <= |s|
    requires EncodeFields(steps, pos, size).st == Success
    requires var w := EncodeFields(steps, pos, size).bytes; s[pos..pos + |w|] == w
    ensures AllDecodable(ReadsOf(steps))
    ensures DecodeFields(ReadsOf(steps), s, pos, size)
      == Decoded(Success, Echoes(steps), pos + |EncodeFields(steps, pos, size).bytes|)
  {
    StepsReadBack(steps, s, size);
    RunReadsBack(Intents(steps), ReadsOf(steps), Echoes(steps), s, pos, size);
  }

  // ---------------------------------------------------------------------
  // The traversals

  /** Index i of an encoding traversal: a NULL pointer or an unknown tag
      is reported without touching the cursor; a field goes to its codec.
      `ws` are the decisions of `steps`. */
  method EncodeStepAt(codec: Cursor, steps: seq<Step>, i: nat, ghost ws: seq<Encoded>) returns (st: Status)
    requires codec.Valid() && i < |steps| && AllFit(steps) && IntentsOf(ws, steps)
    modifies codec`position, codec.buf
    ensures codec.Valid()
    ensures var e := Place(ws[i], old(codec.position), codec.size);
      st == e.st && codec.Advanced(old(codec.buf[..]), old(codec.position), e.bytes)
  {
    assert ws[i] == IntentAt(steps, i);
    match steps[i]
    case Missing =>
      st := InvalidValue;
    case Unknown =>
      st := InvalidType;
    case Apply(k, v) =>
      st := EncodeField(codec, k, v);
  }

  /** The encoding loop shared by the SEQUENCE and SEQUENCE OF encoders. */
  method EncodeEach(codec: Cursor, steps: seq<Step>, ghost ws: seq<Encoded>) returns (st: Status)
    requires codec.Valid() && AllFit(steps) && IntentsOf(ws, steps)
    modifies codec`position, codec.buf
    ensures codec.Valid()
    ensures var r := Run(ws, old(codec.position), codec.size);
      st == r.st && codec.Advanced(old(codec.buf[..]), old(codec.position), r.bytes)
  {
    ghost var s0, p0 := codec.buf[..], codec.position;
    ghost var written: seq<byte> := [];
    for i := 0 to |steps|
      invariant codec.Valid()
      invariant codec.Advanced(s0, p0, written)
      invariant Run(ws, p0, codec.size) == After(written, Run(ws[i..], codec.position, codec.size))
    {
      ghost var pos := codec.position;
      ghost var e := Place(ws[i], pos, codec.size);
      RunNext(ws, i, p0, pos, codec.size, written);
      st := EncodeStepAt(codec, steps, i, ws);
      SpliceConsecutive(s0, p0, written, e.bytes);
      if st != Success {
        assert written + e.bytes == written;
        return;
      }
      written := written + e.bytes;
    }
    return Success;
  }

  /** The decoding loop shared by the SEQUENCE and SEQUENCE OF decoders;
      `outs[j]` is what the codec of index j stored through its field. */
  method DecodeEach(codec: Cursor, rs: seq<ReadStep>) returns (st: Status, outs: seq<Option<Value>>)
    requires codec.Valid() && AllDecodable(rs)
    modifies codec`position
    ensures codec.Valid()
    ensures DecodeFields(rs, codec.buf[..], old(codec.position), codec.size)
      == Decoded(st, outs, codec.position)
  {
    ghost var p0 := codec.position;
    outs := [];
    for i := 0 to |rs|
      invariant codec.Valid()
      invariant var rest := DecodeFields(rs[i..], codec.buf[..], codec.position, codec.size);
        DecodeFields(rs, codec.buf[..], p0, codec.size) == Decoded(rest.st, outs + rest.outs, rest.next)
    {
      assert rs[i..][0] == rs[i] && rs[i..][1..] == rs[i + 1..];
      var out;
      match rs[i]
      case ReadMissing =>
        return InvalidValue, outs + [None];
      case ReadUnknown =>
        return InvalidType, outs + [None];
      case ReadApply(k) =>
        st, out := DecodeField(codec, k);
        if st != Success {
          return st, outs + [out];
        }
        ghost var rest := DecodeFields(rs[i + 1..], codec.buf[..], codec.position, codec.size);
        assert (outs + [out]) + rest.outs == outs + ([out] + rest.outs);
        outs := outs + [out];
    }
    return Success, outs;
  }
}
