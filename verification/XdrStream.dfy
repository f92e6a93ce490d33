/**
  The generated codecs at work on a stream.  Each codec codes its fields one after
  the other and gives up at the first that fails; four of them code a run of
  fixed-size fields through an inline buffer when the stream grants one.
 */
module XdrStream {
  import opened Common
  import opened Xdr

  /** Fields in order, and the run of them that has an inline path; `count` 0 means none. */
  datatype Layout = Layout(kinds: seq<Kind>, start: nat, count: nat) {
    predicate Valid() {
      start + count <= |kinds| && forall i | start <= i < start + count :: Inlinable(kinds[i])
    }
  }

  /** The kinds IXDR_PUT_LONG, IXDR_PUT_U_LONG and IXDR_PUT_BOOL serve. */
  predicate Inlinable(k: Kind) { k.Int? || k.UInt? || k.Bool? }

  predicate AllInlinable(ks: seq<Kind>) { forall i | 0 <= i < |ks| :: Inlinable(ks[i]) }

  lemma SliceFits(ks: seq<Kind>, fs: seq<Field>, i: nat, j: nat)
    requires AllFit(ks, fs) && i <= j <= |ks|
    ensures AllFit(ks[i..j], fs[i..j])
  {}

  lemma HeadFits(ks: seq<Kind>, fs: seq<Field>, i: nat)
    requires AllFit(ks, fs) && i <= |ks|
    ensures AllFit(ks[..i], fs[..i])
  {}

  lemma TailFits(ks: seq<Kind>, fs: seq<Field>, j: nat)
    requires AllFit(ks, fs) && j <= |ks|
    ensures AllFit(ks[j..], fs[j..])
  {}

  // ---------- Encoding, field by field ----------

  datatype Put = Put(ok: bool, out: seq<byte>)

  function PutBlock(out: seq<byte>, capacity: nat, b: seq<byte>): Put {
    if |out| + |b| <= capacity then Put(true, out + b) else Put(false, out)
  }

  /** A counted field writes its length before the length is checked. */
  function PutField(out: seq<byte>, capacity: nat, k: Kind, f: Field): Put
    requires Fits(k, f)
  {
    if !Counted(k) then PutBlock(out, capacity, PutUnit(ToUnit(k, f.value)))
    else
      var head := PutBlock(out, capacity, PutUnit(|f.data|));
      if !head.ok then head
      else if |f.data| > k.max then Put(false, head.out)
      else PutBlock(head.out, capacity, f.data + Zeros(Pad(|f.data|)))
  }

  function PutFields(out: seq<byte>, capacity: nat, ks: seq<Kind>, fs: seq<Field>): Put
    requires AllFit(ks, fs)
    decreases ks
  {
    if ks == [] then Put(true, out)
    else
      var first := PutField(out, capacity, ks[0], fs[0]);
      if !first.ok then first else PutFields(first.out, capacity, ks[1..], fs[1..])
  }

  lemma PutFieldIsEncode(out: seq<byte>, capacity: nat, k: Kind, f: Field)
    requires Fits(k, f)
    ensures var r := PutField(out, capacity, k, f);
      && (r.ok <==> Encodable(k, f) && |out| + |Encode(k, f)| <= capacity)
      && (r.ok ==> r.out == out + Encode(k, f))
  {
    if Counted(k) && |f.data| <= k.max {
      assert out + PutUnit(|f.data|) + (f.data + Zeros(Pad(|f.data|))) == out + Encode(k, f);
    }
  }

  /**
    What one primitive leaves: a field written is on the wire as prescribed, and a counted
    field that is too long leaves its length behind.
   */
  lemma PutFieldIsOnTheWire(out: seq<byte>, capacity: nat, k: Kind, f: Field)
    requires Fits(k, f)
    ensures var r := PutField(out, capacity, k, f);
      && (r.ok <==> Encodable(k, f) && |out| + UNIT * Units(f) <= capacity)
      && out <= r.out
      && (r.ok ==> OnTheWire(k, f, r.out[|out|..]))
      && (!r.ok ==> if Counted(k) && |out| + 4 <= capacity
                    then |r.out| == |out| + 4 && BigEndian(r.out[|out|..]) == |f.data|
                    else r.out == out)
  {
    PutFieldIsEncode(out, capacity, k, f);
    if Encodable(k, f) {
      FieldSize(k, f);
      EncodeIsOnTheWire(k, f, Encode(k, f));
    }
    if Counted(k) {
      UnitIsBigEndian(|f.data|, PutUnit(|f.data|));
    }
  }

  lemma {:induction false} ConsEncodeAll(out: seq<byte>, ks: seq<Kind>, fs: seq<Field>)
    requires ks != [] && AllFit(ks, fs) && AllEncodable(ks, fs)
    ensures out + Encode(ks[0], fs[0]) + EncodeAll(ks[1..], fs[1..]) == out + EncodeAll(ks, fs)
  {}

  /**
    The stream form refines the encoding: it succeeds exactly when every field can be
    encoded and the whole fits, and then appends exactly the encoding.
   */
  lemma {:induction false} PutFieldsIsEncodeAll(out: seq<byte>, capacity: nat, ks: seq<Kind>, fs: seq<Field>)
    requires AllFit(ks, fs) && |out| <= capacity
    ensures var r := PutFields(out, capacity, ks, fs);
      && (r.ok <==> AllEncodable(ks, fs) && |out| + |EncodeAll(ks, fs)| <= capacity)
      && (r.ok ==> r.out == out + EncodeAll(ks, fs))
    decreases ks
  {
    if ks == [] {
    } else {
      PutFieldIsEncode(out, capacity, ks[0], fs[0]);
      ConsEncodable(ks, fs);
      if AllEncodable(ks, fs) {
        ConsEncodeAll(out, ks, fs);
      }
      var first := PutField(out, capacity, ks[0], fs[0]);
      if first.ok {
        PutFieldsIsEncodeAll(first.out, capacity, ks[1..], fs[1..]);
      }
    }
  }

  /** What a codec has written behind what was there: in each field's place stands what is prescribed for it. */
  lemma WrittenInOrder(out: seq<byte>, capacity: nat, ks: seq<Kind>, fs: seq<Field>, i: nat, e: seq<byte>)
    requires AllFit(ks, fs) && |out| <= capacity && PutFields(out, capacity, ks, fs).ok
    requires i < |ks| && OnTheWire(ks[i], fs[i], e)
    ensures var b := PutFields(out, capacity, ks, fs).out;
      out <= b && Holds(b, |out| + Offset(fs, i), |out| + Offset(fs, i + 1), e)
  {
    PutFieldsIsEncodeAll(out, capacity, ks, fs);
    EncodeIsOnTheWire(ks[i], fs[i], e);
    WrittenBehind(out, ks, fs, i, e);
  }

  lemma WrittenBehind(out: seq<byte>, ks: seq<Kind>, fs: seq<Field>, i: nat, e: seq<byte>)
    requires AllFit(ks, fs) && AllEncodable(ks, fs) && i < |ks| && e == Encode(ks[i], fs[i])
    ensures Holds(out + EncodeAll(ks, fs), |out| + Offset(fs, i), |out| + Offset(fs, i + 1), e)
  {
    FieldsInOrder(ks, fs, i, e);
    HoldsFurtherOn(out, EncodeAll(ks, fs), Offset(fs, i), Offset(fs, i + 1), e);
  }

  lemma ConsEncodable(ks: seq<Kind>, fs: seq<Field>)
    requires |ks| == |fs| > 0
    ensures AllEncodable(ks, fs) <==> Encodable(ks[0], fs[0]) && AllEncodable(ks[1..], fs[1..])
  {
    if Encodable(ks[0], fs[0]) && AllEncodable(ks[1..], fs[1..]) {
      forall i | 0 <= i < |ks| ensures Encodable(ks[i], fs[i]) {
        if i > 0 {
          assert Encodable(ks[1..][i - 1], fs[1..][i - 1]);
        }
      }
    }
  }

  /** Coding a layout in two parts is coding it whole. */
  lemma {:induction false} PutFieldsSplits(
      out: seq<byte>, capacity: nat, ks: seq<Kind>, fs: seq<Field>,
      front: seq<Kind>, xs: seq<Field>, back: seq<Kind>, ys: seq<Field>)
    requires ks == front + back && fs == xs + ys && AllFit(front, xs) && AllFit(back, ys) && AllFit(ks, fs)
    ensures PutFields(out, capacity, ks, fs) ==
            var first := PutFields(out, capacity, front, xs);
            if first.ok then PutFields(first.out, capacity, back, ys) else first
    decreases front
  {
    if front == [] {
      assert ks == back && fs == ys;
    } else {
      assert ks[0] == front[0] && ks[1..] == front[1..] + back;
      assert fs[0] == xs[0] && fs[1..] == xs[1..] + ys;
      var first := PutField(out, capacity, ks[0], fs[0]);
      if first.ok {
        PutFieldsSplits(first.out, capacity, ks[1..], fs[1..], front[1..], xs[1..], back, ys);
      }
    }
  }

  // ---------- Encoding through the inline buffer ----------

  /** IXDR_PUT_*: the value as it is; a boolean is not normalised. */
  function RawUnit(v: int): (w: nat)
    ensures w < WORDS
  {
    v % WORDS
  }

  function RawUnits(fs: seq<Field>): (b: seq<byte>)
    requires forall i | 0 <= i < |fs| :: fs[i].Word?
    ensures |b| == UNIT * |fs|
    decreases fs
  {
    if fs == [] then [] else PutUnit(RawUnit(fs[0].value)) + RawUnits(fs[1..])
  }

  /** XDR_INLINE may refuse at any time, and must when there is no room. */
  function PutSpan(out: seq<byte>, capacity: nat, ks: seq<Kind>, fs: seq<Field>, granted: bool): Put
    requires AllFit(ks, fs) && AllInlinable(ks)
  {
    if granted && |out| + UNIT * |ks| <= capacity then Put(true, out + RawUnits(fs))
    else PutFields(out, capacity, ks, fs)
  }

  /** The part of a codec from its inline span on. */
  function PutFromSpan(out: seq<byte>, capacity: nat, l: Layout, fs: seq<Field>, granted: bool): Put
    requires l.Valid() && AllFit(l.kinds, fs)
  {
    var i, j := l.start, l.start + l.count;
    PutSpanAndTail(out, capacity, l.kinds[i..j], fs[i..j], l.kinds[j..], fs[j..], granted)
  }

  function PutSpanAndTail(
      out: seq<byte>, capacity: nat, ks: seq<Kind>, gs: seq<Field>, tail: seq<Kind>, last: seq<Field>, granted: bool)
    : Put
    requires AllFit(ks, gs) && AllInlinable(ks) && AllFit(tail, last)
  {
    var span := PutSpan(out, capacity, ks, gs, granted);
    if !span.ok then span else PutFields(span.out, capacity, tail, last)
  }

  function PutMessage(out: seq<byte>, capacity: nat, l: Layout, fs: seq<Field>, granted: bool): Put
    requires l.Valid() && AllFit(l.kinds, fs)
  {
    var head := PutFields(out, capacity, l.kinds[..l.start], fs[..l.start]);
    if !head.ok then head else PutFromSpan(head.out, capacity, l, fs, granted)
  }

  lemma RawUnitOfBool(v: int)
    requires InRange(Bool, v)
    ensures PutUnit(RawUnit(v)) == PutUnit(ToUnit(Bool, v)) <==> v == 0 || v == 1
  {
    UnitRoundTrip(RawUnit(v), []);
    UnitRoundTrip(ToUnit(Bool, v), []);
    assert PutUnit(RawUnit(v)) + [] == PutUnit(RawUnit(v)) && PutUnit(ToUnit(Bool, v)) + [] == PutUnit(ToUnit(Bool, v));
    if v < 0 {
      assert v % WORDS == v + WORDS;
    }
  }

  /** The inline path writes what the field-by-field path writes if and only if every boolean is 0 or 1. */
  lemma {:induction false} RawIsEncodedIffCanonical(ks: seq<Kind>, fs: seq<Field>)
    requires AllFit(ks, fs) && AllInlinable(ks)
    ensures AllEncodable(ks, fs)
    ensures RawUnits(fs) == EncodeAll(ks, fs) <==> AllCanonical(ks, fs)
    decreases ks
  {
    if ks == [] {
    } else {
      var v := fs[0].value;
      RawIsEncodedIffCanonical(ks[1..], fs[1..]);
      ConsEncodable(ks, fs);
      if ks[0].Bool? {
        RawUnitOfBool(v);
      }
      var a, b := PutUnit(RawUnit(v)), Encode(ks[0], fs[0]);
      assert a == b <==> Canonical(ks[0], fs[0]);
      var x, y := RawUnits(fs[1..]), EncodeAll(ks[1..], fs[1..]);
      assert (a + x)[..UNIT] == a && (a + x)[UNIT..] == x;
      assert (b + y)[..UNIT] == b && (b + y)[UNIT..] == y;
      ConsCanonical(ks, fs);
    }
  }

  lemma ConsCanonical(ks: seq<Kind>, fs: seq<Field>)
    requires |ks| == |fs| > 0
    ensures AllCanonical(ks, fs) <==> Canonical(ks[0], fs[0]) && AllCanonical(ks[1..], fs[1..])
  {
    if Canonical(ks[0], fs[0]) && AllCanonical(ks[1..], fs[1..]) {
      forall i | 0 <= i < |ks| ensures Canonical(ks[i], fs[i]) {
        if i > 0 {
          assert Canonical(ks[1..][i - 1], fs[1..][i - 1]);
        }
      }
    }
  }

  lemma {:induction false} ScalarUnits(ks: seq<Kind>, fs: seq<Field>)
    requires AllFit(ks, fs) && AllInlinable(ks)
    ensures UnitsAll(fs) == |ks|
    decreases ks
  {
    if ks == [] {
    } else {
      ScalarUnits(ks[1..], fs[1..]);
    }
  }

  /** A granted span with room agrees with the fields one by one exactly when its booleans are canonical. */
  lemma SpanAgreesIffCanonical(out: seq<byte>, capacity: nat, ks: seq<Kind>, fs: seq<Field>)
    requires AllFit(ks, fs) && AllInlinable(ks) && |out| + UNIT * |ks| <= capacity
    ensures PutSpan(out, capacity, ks, fs, true) == PutFields(out, capacity, ks, fs) <==> AllCanonical(ks, fs)
  {
    RawIsEncodedIffCanonical(ks, fs);
    ScalarUnits(ks, fs);
    EncodingSize(ks, fs);
    PutFieldsIsEncodeAll(out, capacity, ks, fs);
    var a, b := RawUnits(fs), EncodeAll(ks, fs);
    assert (out + a)[|out|..] == a && (out + b)[|out|..] == b;
  }

  lemma SpanIsPutFields(out: seq<byte>, capacity: nat, ks: seq<Kind>, fs: seq<Field>, granted: bool)
    requires AllFit(ks, fs) && AllInlinable(ks) && AllCanonical(ks, fs)
    ensures PutSpan(out, capacity, ks, fs, granted) == PutFields(out, capacity, ks, fs)
  {
    if granted && |out| + UNIT * |ks| <= capacity {
      SpanAgreesIffCanonical(out, capacity, ks, fs);
    }
  }

  lemma SpanAndTailIsPutFields(
      out: seq<byte>, capacity: nat, ks: seq<Kind>, fs: seq<Field>,
      span: seq<Kind>, gs: seq<Field>, tail: seq<Kind>, last: seq<Field>)
    requires ks == span + tail && fs == gs + last && AllInlinable(span)
    requires AllFit(span, gs) && AllFit(tail, last) && AllFit(ks, fs)
    ensures PutSpanAndTail(out, capacity, span, gs, tail, last, false) == PutFields(out, capacity, ks, fs)
  {
    PutFieldsSplits(out, capacity, ks, fs, span, gs, tail, last);
  }

  lemma {:induction false} SpanAndTailSplit(out: seq<byte>, capacity: nat, l: Layout, fs: seq<Field>)
    requires l.Valid() && AllFit(l.kinds, fs)
    ensures PutFromSpan(out, capacity, l, fs, false) == PutFields(out, capacity, l.kinds[l.start..], fs[l.start..])
  {
    var i, j := l.start, l.start + l.count;
    SliceFits(l.kinds, fs, i, j);
    TailFits(l.kinds, fs, j);
    TailFits(l.kinds, fs, i);
    CutTail(l.kinds, i, j);
    CutTail(fs, i, j);
    SpanAndTailIsPutFields(out, capacity, l.kinds[i..], fs[i..], l.kinds[i..j], fs[i..j], l.kinds[j..], fs[j..]);
  }

  lemma SpanEncodesTheSame(
      out: seq<byte>, capacity: nat, l: Layout, fs: seq<Field>, granted: bool)
    requires l.Valid() && AllFit(l.kinds, fs) && AllCanonical(l.kinds, fs)
    ensures PutFromSpan(out, capacity, l, fs, granted) == PutFields(out, capacity, l.kinds[l.start..], fs[l.start..])
  {
    SpanAndTailSplit(out, capacity, l, fs);
    SpanPathsAgree(out, capacity, l, fs, granted);
  }

  lemma SpanPathsAgree(out: seq<byte>, capacity: nat, l: Layout, fs: seq<Field>, granted: bool)
    requires l.Valid() && AllFit(l.kinds, fs) && AllCanonical(l.kinds, fs)
    ensures PutFromSpan(out, capacity, l, fs, granted) == PutFromSpan(out, capacity, l, fs, false)
  {
    var i, j := l.start, l.start + l.count;
    SliceFits(l.kinds, fs, i, j);
    SpanIsPutFields(out, capacity, l.kinds[i..j], fs[i..j], granted);
  }

  lemma MessageSplits(out: seq<byte>, capacity: nat, l: Layout, fs: seq<Field>)
    requires l.Valid() && AllFit(l.kinds, fs)
    ensures PutFields(out, capacity, l.kinds, fs) ==
            var head := PutFields(out, capacity, l.kinds[..l.start], fs[..l.start]);
            if head.ok then PutFields(head.out, capacity, l.kinds[l.start..], fs[l.start..]) else head
  {
    var i := l.start;
    HeadFits(l.kinds, fs, i);
    TailFits(l.kinds, fs, i);
    CutHead(l.kinds, i);
    CutHead(fs, i);
    PutFieldsSplits(out, capacity, l.kinds, fs, l.kinds[..i], fs[..i], l.kinds[i..], fs[i..]);
  }

  /**
    Whether or not the stream grants the inline buffer, and wherever it runs out of
    room: with canonical booleans both paths give the same success and the same bytes.
   */
  lemma {:induction false} InlineEncodesTheSame(
      out: seq<byte>, capacity: nat, l: Layout, fs: seq<Field>, granted: bool)
    requires l.Valid() && AllFit(l.kinds, fs) && AllCanonical(l.kinds, fs)
    ensures PutMessage(out, capacity, l, fs, granted) == PutFields(out, capacity, l.kinds, fs)
  {
    MessageSplits(out, capacity, l, fs);
    var head := PutFields(out, capacity, l.kinds[..l.start], fs[..l.start]);
    if head.ok {
      SpanEncodesTheSame(head.out, capacity, l, fs, granted);
    }
  }

  lemma {:induction false} PutFieldsExtends(out: seq<byte>, capacity: nat, ks: seq<Kind>, fs: seq<Field>)
    requires AllFit(ks, fs)
    ensures out <= PutFields(out, capacity, ks, fs).out
    decreases ks
  {
    if ks == [] {
    } else {
      var first := PutField(out, capacity, ks[0], fs[0]);
      if first.ok {
        PutFieldsExtends(first.out, capacity, ks[1..], fs[1..]);
      }
    }
  }

  lemma TailsAgreeIffStartsDo(
      capacity: nat, tail: seq<Kind>, last: seq<Field>, a: seq<byte>, b: seq<byte>)
    requires AllFit(tail, last) && |a| == |b|
    ensures PutFields(a, capacity, tail, last) == PutFields(b, capacity, tail, last) <==> a == b
  {
    PutFieldsExtends(a, capacity, tail, last);
    PutFieldsExtends(b, capacity, tail, last);
  }

  /** A span with room and the fields behind it: the two paths agree exactly on canonical booleans. */
  lemma SpanAndTailAgreeIff(
      out: seq<byte>, capacity: nat, ks: seq<Kind>, gs: seq<Field>, tail: seq<Kind>, last: seq<Field>)
    requires AllFit(ks, gs) && AllInlinable(ks) && AllFit(tail, last) && |out| + UNIT * |ks| <= capacity
    ensures (PutSpanAndTail(out, capacity, ks, gs, tail, last, true) ==
             PutSpanAndTail(out, capacity, ks, gs, tail, last, false)) <==> AllCanonical(ks, gs)
  {
    SpanAgreesIffCanonical(out, capacity, ks, gs);
    SpanSize(out, capacity, ks, gs);
    TailsAgreeIffStartsDo(capacity, tail, last,
                          PutSpan(out, capacity, ks, gs, true).out, PutSpan(out, capacity, ks, gs, false).out);
  }

  lemma FromSpanAgreesIff(out: seq<byte>, capacity: nat, l: Layout, fs: seq<Field>)
    requires l.Valid() && AllFit(l.kinds, fs) && |out| + UNIT * l.count <= capacity
    ensures PutFromSpan(out, capacity, l, fs, true) == PutFromSpan(out, capacity, l, fs, false) <==>
            AllCanonical(l.kinds[l.start..l.start + l.count], fs[l.start..l.start + l.count])
  {
    var i, j := l.start, l.start + l.count;
    SliceFits(l.kinds, fs, i, j);
    TailFits(l.kinds, fs, j);
    SpanAndTailAgreeIff(out, capacity, l.kinds[i..j], fs[i..j], l.kinds[j..], fs[j..]);
  }

  /** When the codec reaches its span with room left, its two encoding paths agree exactly on canonical booleans. */
  lemma {:induction false} EncodingPathsAgreeIffCanonical(out: seq<byte>, capacity: nat, l: Layout, fs: seq<Field>)
    requires l.Valid() && AllFit(l.kinds, fs)
    requires var head := PutFields(out, capacity, l.kinds[..l.start], fs[..l.start]);
      head.ok && |head.out| + UNIT * l.count <= capacity
    ensures PutMessage(out, capacity, l, fs, true) == PutMessage(out, capacity, l, fs, false) <==>
            AllCanonical(l.kinds[l.start..l.start + l.count], fs[l.start..l.start + l.count])
  {
    FromSpanAgreesIff(PutFields(out, capacity, l.kinds[..l.start], fs[..l.start]).out, capacity, l, fs);
  }

  lemma SpanSize(out: seq<byte>, capacity: nat, ks: seq<Kind>, fs: seq<Field>)
    requires AllFit(ks, fs) && AllInlinable(ks) && |out| + UNIT * |ks| <= capacity
    ensures var r := PutFields(out, capacity, ks, fs);
      r.ok && |r.out| == |out| + UNIT * |ks|
  {
    RawIsEncodedIffCanonical(ks, fs);
    ScalarUnits(ks, fs);
    EncodingSize(ks, fs);
    PutFieldsIsEncodeAll(out, capacity, ks, fs);
  }

  // ---------- Decoding ----------

  /** IXDR_GET_*: the word as it is; a boolean is not normalised. */
  function RawValue(k: Kind, w: nat): int { if k.UInt? then w else Signed32(w) }

  function RawFields(ks: seq<Kind>, b: seq<byte>): (fs: seq<Field>)
    requires |b| >= UNIT * |ks|
    ensures |fs| == |ks|
    decreases ks
  {
    if ks == [] then [] else [Word(RawValue(ks[0], GetUnit(b)))] + RawFields(ks[1..], b[UNIT..])
  }

  function GetSpan(ks: seq<Kind>, b: seq<byte>, granted: bool): (r: Decoded<seq<Field>>)
    requires AllInlinable(ks)
    ensures r.Decoded? ==> |r.value| == |ks|
  {
    if granted && |b| >= UNIT * |ks| then Decoded(RawFields(ks, b), b[UNIT * |ks|..]) else DecodeAll(ks, b)
  }

  /** Two decodings in a row. */
  function AndThen(first: Decoded<seq<Field>>, second: Decoded<seq<Field>>): Decoded<seq<Field>> {
    if first.Failed? || second.Failed? then Failed else Decoded(first.value + second.value, second.rest)
  }

  /** The part of a codec from its inline span on. */
  function GetFromSpan(l: Layout, b: seq<byte>, granted: bool): (r: Decoded<seq<Field>>)
    requires l.Valid()
    ensures r.Decoded? ==> |r.value| == |l.kinds| - l.start
  {
    GetSpanAndTail(l.kinds[l.start..l.start + l.count], l.kinds[l.start + l.count..], b, granted)
  }

  function GetSpanAndTail(ks: seq<Kind>, tail: seq<Kind>, b: seq<byte>, granted: bool): (r: Decoded<seq<Field>>)
    requires AllInlinable(ks)
    ensures r.Decoded? ==> |r.value| == |ks| + |tail|
  {
    var span := GetSpan(ks, b, granted);
    if span.Failed? then Failed else AndThen(span, DecodeAll(tail, span.rest))
  }

  function GetMessage(l: Layout, b: seq<byte>, granted: bool): (r: Decoded<seq<Field>>)
    requires l.Valid()
    ensures r.Decoded? ==> |r.value| == |l.kinds|
  {
    var head := DecodeAll(l.kinds[..l.start], b);
    if head.Failed? then Failed else AndThen(head, GetFromSpan(l, head.rest, granted))
  }

  /** Decoding a layout in two parts is decoding it whole. */
  lemma {:induction false} DecodeAllSplits(ks: seq<Kind>, front: seq<Kind>, back: seq<Kind>, b: seq<byte>)
    requires ks == front + back
    ensures DecodeAll(ks, b) ==
            var first := DecodeAll(front, b);
            if first.Failed? then Failed else AndThen(first, DecodeAll(back, first.rest))
    decreases front
  {
    if front == [] {
      assert ks == back;
      var all := DecodeAll(ks, b);
      if all.Decoded? {
        assert [] + all.value == all.value;
      }
    } else {
      assert ks[0] == front[0] && ks[1..] == front[1..] + back;
      var first := Decode(ks[0], b);
      if first.Decoded? {
        DecodeAllSplits(ks[1..], front[1..], back, first.rest);
        AppendHead(first.value, DecodeAll(front[1..], first.rest), back);
      }
    }
  }

  lemma AppendHead(f: Field, x: Decoded<seq<Field>>, back: seq<Kind>)
    ensures x.Decoded? ==>
      var y := DecodeAll(back, x.rest);
      y.Decoded? ==> [f] + (x.value + y.value) == ([f] + x.value) + y.value
  {}

  /** The booleans among the next units are 0 or 1. */
  predicate CanonicalInput(ks: seq<Kind>, b: seq<byte>)
    requires |b| >= UNIT * |ks|
    decreases ks
  {
    ks == [] || ((ks[0].Bool? ==> GetUnit(b) <= 1) && CanonicalInput(ks[1..], b[UNIT..]))
  }

  /** Reading a span inline agrees with reading its fields exactly when its booleans are canonical. */
  lemma {:induction false} RawIsDecodedIffCanonical(ks: seq<Kind>, b: seq<byte>)
    requires AllInlinable(ks) && |b| >= UNIT * |ks|
    ensures DecodeAll(ks, b).Decoded? && DecodeAll(ks, b).rest == b[UNIT * |ks|..]
    ensures GetSpan(ks, b, true) == DecodeAll(ks, b) <==> CanonicalInput(ks, b)
    decreases ks
  {
    if ks == [] {
      assert b[UNIT * |ks|..] == b;
    } else {
      RawIsDecodedIffCanonical(ks[1..], b[UNIT..]);
      assert b[UNIT..][UNIT * |ks[1..]|..] == b[UNIT * |ks|..];
      var x, xs := Word(RawValue(ks[0], GetUnit(b))), RawFields(ks[1..], b[UNIT..]);
      var y, ys := Decode(ks[0], b).value, DecodeAll(ks[1..], b[UNIT..]).value;
      assert ([x] + xs)[0] == x && ([x] + xs)[1..] == xs;
      assert ([y] + ys)[0] == y && ([y] + ys)[1..] == ys;
    }
  }

  lemma SpanIsDecodeAll(ks: seq<Kind>, b: seq<byte>, granted: bool)
    requires AllInlinable(ks) && (|b| >= UNIT * |ks| ==> CanonicalInput(ks, b))
    ensures GetSpan(ks, b, granted) == DecodeAll(ks, b)
  {
    if granted && |b| >= UNIT * |ks| {
      RawIsDecodedIffCanonical(ks, b);
    }
  }

  lemma {:induction false} SpanAndTailDecodesTheSame(
      ks: seq<Kind>, span: seq<Kind>, tail: seq<Kind>, b: seq<byte>, granted: bool)
    requires ks == span + tail && AllInlinable(span) && (|b| >= UNIT * |span| ==> CanonicalInput(span, b))
    ensures GetSpanAndTail(span, tail, b, granted) == DecodeAll(ks, b)
  {
    SpanIsDecodeAll(span, b, granted);
    DecodeAllSplits(ks, span, tail, b);
  }

  lemma {:induction false} SpanDecodesTheSame(l: Layout, b: seq<byte>, granted: bool)
    requires l.Valid()
    requires |b| >= UNIT * l.count ==> CanonicalInput(l.kinds[l.start..l.start + l.count], b)
    ensures GetFromSpan(l, b, granted) == DecodeAll(l.kinds[l.start..], b)
  {
    var i, j := l.start, l.start + l.count;
    CutTail(l.kinds, i, j);
    SpanAndTailDecodesTheSame(l.kinds[i..], l.kinds[i..j], l.kinds[j..], b, granted);
  }

  lemma DecodeAllFromSpan(l: Layout, b: seq<byte>)
    requires l.Valid()
    ensures GetFromSpan(l, b, false) == DecodeAll(l.kinds[l.start..], b)
  {
    var i, j := l.start, l.start + l.count;
    CutTail(l.kinds, i, j);
    DecodeAllSplits(l.kinds[i..], l.kinds[i..j], l.kinds[j..], b);
  }

  /**
    Decoding is the same through the inline buffer as field by field, on every input
    on which the span's booleans are canonical, whether or not the buffer is granted.
   */
  lemma InlineDecodesTheSame(l: Layout, b: seq<byte>, granted: bool)
    requires l.Valid()
    requires var head := DecodeAll(l.kinds[..l.start], b);
      head.Decoded? && |head.rest| >= UNIT * l.count ==>
        CanonicalInput(l.kinds[l.start..l.start + l.count], head.rest)
    ensures GetMessage(l, b, granted) == DecodeAll(l.kinds, b)
  {
    DecodeAllSplits(l.kinds, l.kinds[..l.start], l.kinds[l.start..], b);
    var head := DecodeAll(l.kinds[..l.start], b);
    if head.Decoded? {
      SpanDecodesTheSame(l, head.rest, granted);
    }
  }

  /** A span with enough input and fields behind it that decode: the two paths agree exactly on canonical booleans. */
  lemma DecodedSpanAndTailAgreeIff(before: Decoded<seq<Field>>, ks: seq<Kind>, tail: seq<Kind>, b: seq<byte>)
    requires AllInlinable(ks) && |b| >= UNIT * |ks| && before.Decoded? && GetSpanAndTail(ks, tail, b, false).Decoded?
    ensures var raw, each := GetSpanAndTail(ks, tail, b, true), GetSpanAndTail(ks, tail, b, false);
      AndThen(before, raw) == AndThen(before, each) <==> CanonicalInput(ks, b)
  {
    RawIsDecodedIffCanonical(ks, b);
    var raw, each := GetSpan(ks, b, true), GetSpan(ks, b, false);
    SameEnds(before.value, raw.value, each.value, DecodeAll(tail, each.rest).value);
  }

  lemma {:induction false} FromSpanDecodesAlikeIff(before: Decoded<seq<Field>>, l: Layout, b: seq<byte>)
    requires l.Valid() && |b| >= UNIT * l.count && before.Decoded? && GetFromSpan(l, b, false).Decoded?
    ensures AndThen(before, GetFromSpan(l, b, true)) == AndThen(before, GetFromSpan(l, b, false)) <==>
            CanonicalInput(l.kinds[l.start..l.start + l.count], b)
  {
    DecodedSpanAndTailAgreeIff(before, l.kinds[l.start..l.start + l.count], l.kinds[l.start + l.count..], b);
  }

  /**
    When the codec reaches its span with enough input and the rest decodes, the two
    paths agree exactly on canonical booleans.
   */
  lemma DecodingPathsAgreeIffCanonical(l: Layout, b: seq<byte>)
    requires l.Valid() && GetMessage(l, b, false).Decoded?
    requires |DecodeAll(l.kinds[..l.start], b).rest| >= UNIT * l.count
    ensures GetMessage(l, b, true) == GetMessage(l, b, false) <==>
            CanonicalInput(l.kinds[l.start..l.start + l.count], DecodeAll(l.kinds[..l.start], b).rest)
  {
    var head := DecodeAll(l.kinds[..l.start], b);
    FromSpanDecodesAlikeIff(head, l, head.rest);
  }

  lemma SameEnds(a: seq<Field>, x: seq<Field>, y: seq<Field>, c: seq<Field>)
    requires |x| == |y|
    ensures a + (x + c) == a + (y + c) <==> x == y
  {
    assert (a + (x + c))[|a|..][..|x|] == x && (a + (y + c))[|a|..][..|y|] == y;
  }

  // ---------- A decoder that fails ----------

  /** How far a decoder got: the members it filled and what is left of its input. */
  datatype Got = Got(ok: bool, fields: seq<Field>, rest: seq<byte>)

  /** What a field that fails leaves: its length and its data are taken off the input before its padding is missed. */
  function LeftBehind(k: Kind, b: seq<byte>): seq<byte> {
    if |b| < UNIT then b
    else if Counted(k) then LeftOfCounted(k, GetUnit(b), b[UNIT..])
    else b[UNIT..]
  }

  function LeftOfCounted(k: Kind, w: nat, b: seq<byte>): seq<byte>
    requires Counted(k)
  {
    if w <= k.max && |b| >= w then b[w..] else b
  }

  /**
    Where a field that does not decode leaves the stream: before a length that is not
    there; behind the length of data that is too long or not all there; and behind the data
    when only the padding is missing.
   */
  lemma FailedFieldStops(k: Kind, b: seq<byte>, n: nat)
    requires Decode(k, b).Failed? && (|b| >= 4 ==> n == BigEndian(b[..4]))
    ensures LeftBehind(k, b) ==
            if |b| < 4 then b else if Counted(k) && n <= k.max && 4 + n <= |b| then b[4 + n..] else b[4..]
  {
    if |b| >= 4 {
      GetUnitIsBigEndian(b);
    }
  }

  function Fill(ks: seq<Kind>, b: seq<byte>): Got
    decreases ks
  {
    if ks == [] then Got(true, [], b)
    else
      match Decode(ks[0], b)
      case Failed => Got(false, [], LeftBehind(ks[0], b))
      case Decoded(f, rest) =>
        var others := Fill(ks[1..], rest);
        others.(fields := [f] + others.fields)
  }

  function FillSpan(ks: seq<Kind>, b: seq<byte>, granted: bool): Got {
    if granted && |b| >= UNIT * |ks| then Got(true, RawFields(ks, b), b[UNIT * |ks|..]) else Fill(ks, b)
  }

  /** One decoding and, if it succeeded, another. */
  function ThenFill(first: Got, second: Got): Got {
    if first.ok then second.(fields := first.fields + second.fields) else first
  }

  function FillFromSpan(l: Layout, b: seq<byte>, granted: bool): Got
    requires l.Valid()
  {
    var j := l.start + l.count;
    var span := FillSpan(l.kinds[l.start..j], b, granted);
    ThenFill(span, Fill(l.kinds[j..], span.rest))
  }

  function FillMessage(l: Layout, b: seq<byte>, granted: bool): Got
    requires l.Valid()
  {
    var head := Fill(l.kinds[..l.start], b);
    ThenFill(head, FillFromSpan(l, head.rest, granted))
  }

  /** The same decoding, with and without what a failure leaves. */
  predicate Agrees(g: Got, d: Decoded<seq<Field>>) {
    match d
    case Failed => !g.ok
    case Decoded(fs, rest) => g == Got(true, fs, rest)
  }

  lemma {:induction false} FillIsDecodeAll(ks: seq<Kind>, b: seq<byte>)
    ensures Agrees(Fill(ks, b), DecodeAll(ks, b))
    decreases ks
  {
    if ks == [] {
    } else {
      var first := Decode(ks[0], b);
      if first.Decoded? {
        FillIsDecodeAll(ks[1..], first.rest);
      }
    }
  }

  lemma FillFromSpanIsGet(l: Layout, b: seq<byte>, granted: bool)
    requires l.Valid()
    ensures Agrees(FillFromSpan(l, b, granted), GetFromSpan(l, b, granted))
  {
    var span, tail := l.kinds[l.start..l.start + l.count], l.kinds[l.start + l.count..];
    FillIsDecodeAll(span, b);
    FillIsDecodeAll(tail, FillSpan(span, b, granted).rest);
  }

  /** A decoder succeeds exactly when the message decodes, with its members and its rest. */
  lemma FillMessageIsGet(l: Layout, b: seq<byte>, granted: bool)
    requires l.Valid()
    ensures Agrees(FillMessage(l, b, granted), GetMessage(l, b, granted))
  {
    var head := l.kinds[..l.start];
    FillIsDecodeAll(head, b);
    FillFromSpanIsGet(l, Fill(head, b).rest, granted);
  }

  /**
    A decoder that fails has filled exactly the members before the first field that does
    not decode, and stopped in it.
   */
  lemma {:induction false} FillStopsAtFirstFailure(ks: seq<Kind>, b: seq<byte>)
    requires !Fill(ks, b).ok
    ensures var g := Fill(ks, b); var n := |g.fields|;
      && n < |ks|
      && var before := DecodeAll(ks[..n], b);
      && before.Decoded? && before.value == g.fields
      && Decode(ks[n], before.rest).Failed? && g.rest == LeftBehind(ks[n], before.rest)
    decreases ks
  {
    var first := Decode(ks[0], b);
    if first.Failed? {
      assert ks[..0] == [];
    } else {
      FillStopsAtFirstFailure(ks[1..], first.rest);
      var n := |Fill(ks[1..], first.rest).fields|;
      assert ks[..n + 1][1..] == ks[1..][..n] && ks[1..][n] == ks[n + 1];
    }
  }
}
