/**
  The inline paths without any assumption on the values: an inline span codes booleans
  as plain integers and is otherwise the field-by-field codec.  Hence what arrives when
  the two ends of a connection take different paths.
 */
module XdrPaths {
  import opened Common
  import opened Xdr
  import opened XdrStream

  /** IXDR_PUT_BOOL and IXDR_GET_BOOL are the integer macros. */
  function Loose(k: Kind): Kind { if k.Bool? then Int else k }

  function LooseAll(ks: seq<Kind>): (r: seq<Kind>)
    ensures |r| == |ks| && forall i | 0 <= i < |ks| :: r[i] == Loose(ks[i])
  {
    seq(|ks|, i requires 0 <= i < |ks| => Loose(ks[i]))
  }

  function SpanKinds(ks: seq<Kind>, granted: bool): (r: seq<Kind>)
    ensures |r| == |ks|
  {
    if granted then LooseAll(ks) else ks
  }

  /** The kinds from the inline span on. */
  function BackKinds(l: Layout, granted: bool): (ks: seq<Kind>)
    requires l.Valid()
    ensures |ks| == |l.kinds| - l.start
  {
    SpanKinds(l.kinds[l.start..l.start + l.count], granted) + l.kinds[l.start + l.count..]
  }

  /** The kinds a codec effectively uses: with inline space its span is loosened. */
  function PathKinds(l: Layout, granted: bool): (ks: seq<Kind>)
    requires l.Valid()
    ensures |ks| == |l.kinds|
  {
    l.kinds[..l.start] + BackKinds(l, granted)
  }

  lemma PathKindAt(l: Layout, granted: bool, i: nat)
    requires l.Valid() && i < |l.kinds|
    ensures PathKinds(l, granted)[i] ==
            if granted && l.start <= i < l.start + l.count then Loose(l.kinds[i]) else l.kinds[i]
  {}

  lemma UngrantedPath(l: Layout)
    requires l.Valid()
    ensures PathKinds(l, false) == l.kinds
  {}

  lemma LooseCons(ks: seq<Kind>)
    requires ks != []
    ensures LooseAll(ks)[0] == Loose(ks[0]) && LooseAll(ks)[1..] == LooseAll(ks[1..])
  {}

  // ---------- Decoding ----------

  lemma {:induction false} ScalarsNeedRoom(ks: seq<Kind>, b: seq<byte>)
    requires AllInlinable(ks) && |b| < UNIT * |ks|
    ensures DecodeAll(ks, b).Failed?
    decreases ks
  {
    if |b| < UNIT {
    } else {
      ScalarsNeedRoom(ks[1..], b[UNIT..]);
    }
  }

  lemma {:induction false} RawDecodesLoosely(ks: seq<Kind>, b: seq<byte>)
    requires AllInlinable(ks) && |b| >= UNIT * |ks|
    ensures DecodeAll(LooseAll(ks), b) == Decoded(RawFields(ks, b), b[UNIT * |ks|..])
    decreases ks
  {
    if ks == [] {
    } else {
      LooseCons(ks);
      RawDecodesLoosely(ks[1..], b[UNIT..]);
      assert b[UNIT..][UNIT * |ks[1..]|..] == b[UNIT * |ks|..];
    }
  }

  lemma SpanDecodesLoosely(ks: seq<Kind>, b: seq<byte>)
    requires AllInlinable(ks)
    ensures GetSpan(ks, b, true) == DecodeAll(LooseAll(ks), b)
  {
    if |b| >= UNIT * |ks| {
      RawDecodesLoosely(ks, b);
    } else {
      ScalarsNeedRoom(ks, b);
      ScalarsNeedRoom(LooseAll(ks), b);
    }
  }

  lemma SpanAndTailDecodesLoosely(span: seq<Kind>, tail: seq<Kind>, back: seq<Kind>, b: seq<byte>)
    requires AllInlinable(span) && back == LooseAll(span) + tail
    ensures GetSpanAndTail(span, tail, b, true) == DecodeAll(back, b)
  {
    SpanDecodesLoosely(span, b);
    DecodeAllSplits(back, LooseAll(span), tail, b);
  }

  /** From the span on: the loosened span and then the other fields. */
  lemma FromSpanDecodesLoosely(l: Layout, b: seq<byte>)
    requires l.Valid()
    ensures GetFromSpan(l, b, true) == DecodeAll(BackKinds(l, true), b)
  {
    SpanAndTailDecodesLoosely(l.kinds[l.start..l.start + l.count], l.kinds[l.start + l.count..], BackKinds(l, true), b);
  }

  lemma DecodesLoosely(l: Layout, b: seq<byte>)
    requires l.Valid()
    ensures GetMessage(l, b, true) == DecodeAll(PathKinds(l, true), b)
  {
    DecodeAllSplits(PathKinds(l, true), l.kinds[..l.start], BackKinds(l, true), b);
    var head := DecodeAll(l.kinds[..l.start], b);
    if head.Decoded? {
      FromSpanDecodesLoosely(l, head.rest);
    }
  }

  /** On every input, decoding is field-by-field decoding with the path's kinds. */
  lemma DecodesByPath(l: Layout, b: seq<byte>, granted: bool)
    requires l.Valid()
    ensures GetMessage(l, b, granted) == DecodeAll(PathKinds(l, granted), b)
  {
    if granted {
      DecodesLoosely(l, b);
    } else {
      DecodesFieldByField(l, b);
      UngrantedPath(l);
    }
  }

  lemma DecodesFieldByField(l: Layout, b: seq<byte>)
    requires l.Valid()
    ensures GetMessage(l, b, false) == DecodeAll(l.kinds, b)
  {
    DecodeAllSplits(l.kinds, l.kinds[..l.start], l.kinds[l.start..], b);
    var head := DecodeAll(l.kinds[..l.start], b);
    if head.Decoded? {
      DecodeAllFromSpan(l, head.rest);
    }
  }

  // ---------- Encoding ----------

  lemma LooseFits(ks: seq<Kind>, fs: seq<Field>)
    requires AllFit(ks, fs) && AllInlinable(ks)
    ensures AllFit(LooseAll(ks), fs) && AllInlinable(LooseAll(ks)) && AllEncodable(LooseAll(ks), fs)
  {
    forall i | 0 <= i < |ks| ensures Fits(LooseAll(ks)[i], fs[i]) && Encodable(LooseAll(ks)[i], fs[i]) {
      assert Fits(ks[i], fs[i]) && Inlinable(ks[i]);
    }
  }

  /** The encoding, if no counted field is too long. */
  function TryEncode(ks: seq<Kind>, fs: seq<Field>): Option<seq<byte>>
    requires AllFit(ks, fs)
  {
    if AllEncodable(ks, fs) then Some(EncodeAll(ks, fs)) else None
  }

  function Join(a: Option<seq<byte>>, b: Option<seq<byte>>): Option<seq<byte>> {
    if a.None? || b.None? then None else Some(a.value + b.value)
  }

  lemma {:induction false} EncodeAllJoins(
      ks: seq<Kind>, fs: seq<Field>, front: seq<Kind>, back: seq<Kind>, xs: seq<Field>, ys: seq<Field>)
    requires ks == front + back && fs == xs + ys && AllFit(front, xs) && AllFit(back, ys)
    ensures AllFit(ks, fs) && TryEncode(ks, fs) == Join(TryEncode(front, xs), TryEncode(back, ys))
    decreases front
  {
    if front == [] {
      assert ks == back && fs == ys && xs == [];
      if AllEncodable(back, ys) {
        assert [] + EncodeAll(back, ys) == EncodeAll(back, ys);
      }
    } else {
      assert ks[0] == front[0] && ks[1..] == front[1..] + back;
      assert fs[0] == xs[0] && fs[1..] == xs[1..] + ys;
      EncodeAllJoins(ks[1..], fs[1..], front[1..], back, xs[1..], ys);
      ConsFits(ks, fs);
      TryEncodeCons(ks, fs);
      TryEncodeCons(front, xs);
      JoinAssociates(TryField(ks[0], fs[0]), TryEncode(front[1..], xs[1..]), TryEncode(back, ys));
    }
  }

  function TryField(k: Kind, f: Field): Option<seq<byte>>
    requires Fits(k, f)
  {
    if Encodable(k, f) then Some(Encode(k, f)) else None
  }

  lemma TryEncodeCons(ks: seq<Kind>, fs: seq<Field>)
    requires ks != [] && AllFit(ks, fs)
    ensures TryEncode(ks, fs) == Join(TryField(ks[0], fs[0]), TryEncode(ks[1..], fs[1..]))
  {
    ConsEncodable(ks, fs);
  }

  lemma JoinAssociates(a: Option<seq<byte>>, b: Option<seq<byte>>, c: Option<seq<byte>>)
    ensures Join(a, Join(b, c)) == Join(Join(a, b), c)
  {
    if a.Some? && b.Some? && c.Some? {
      assert a.value + (b.value + c.value) == (a.value + b.value) + c.value;
    }
  }

  lemma ConsFits(ks: seq<Kind>, fs: seq<Field>)
    requires |ks| == |fs| > 0 && Fits(ks[0], fs[0]) && AllFit(ks[1..], fs[1..])
    ensures AllFit(ks, fs)
  {
    forall i | 0 <= i < |ks| ensures Fits(ks[i], fs[i]) {
      if i > 0 {
        assert Fits(ks[1..][i - 1], fs[1..][i - 1]);
      }
    }
  }

  /** A stream that appends some bytes if there are any and they fit, and fails otherwise. */
  predicate Writes(r: Put, out: seq<byte>, capacity: nat, bytes: Option<seq<byte>>) {
    && (r.ok <==> bytes.Some? && |out| + |bytes.value| <= capacity)
    && (r.ok ==> r.out == out + bytes.value)
  }

  lemma WritesInTurn(
      r: Put, s: Put, out: seq<byte>, capacity: nat, a: Option<seq<byte>>, b: Option<seq<byte>>)
    requires Writes(r, out, capacity, a)
    requires if r.ok then Writes(s, r.out, capacity, b) else !s.ok
    ensures Writes(s, out, capacity, Join(a, b))
  {
    if r.ok && s.ok {
      assert out + a.value + b.value == out + (a.value + b.value);
    }
  }

  /** One codec after another writes the joined encoding. */
  lemma WritesBoth(
      r: Put, s: Put, out: seq<byte>, capacity: nat, ks: seq<Kind>, fs: seq<Field>,
      front: seq<Kind>, xs: seq<Field>, back: seq<Kind>, ys: seq<Field>)
    requires ks == front + back && fs == xs + ys && AllFit(front, xs) && AllFit(back, ys)
    requires Writes(r, out, capacity, TryEncode(front, xs))
    requires if r.ok then Writes(s, r.out, capacity, TryEncode(back, ys)) else !s.ok
    ensures AllFit(ks, fs) && Writes(s, out, capacity, TryEncode(ks, fs))
  {
    EncodeAllJoins(ks, fs, front, back, xs, ys);
    WritesInTurn(r, s, out, capacity, TryEncode(front, xs), TryEncode(back, ys));
  }

  lemma FieldsWrite(out: seq<byte>, capacity: nat, ks: seq<Kind>, fs: seq<Field>)
    requires AllFit(ks, fs) && |out| <= capacity
    ensures Writes(PutFields(out, capacity, ks, fs), out, capacity, TryEncode(ks, fs))
  {
    PutFieldsIsEncodeAll(out, capacity, ks, fs);
  }

  lemma SpanWrites(out: seq<byte>, capacity: nat, ks: seq<Kind>, fs: seq<Field>, granted: bool)
    requires AllFit(ks, fs) && AllInlinable(ks) && |out| <= capacity
    ensures AllFit(SpanKinds(ks, granted), fs)
    ensures Writes(PutSpan(out, capacity, ks, fs, granted), out, capacity, TryEncode(SpanKinds(ks, granted), fs))
  {
    if !granted {
      FieldsWrite(out, capacity, ks, fs);
    } else {
      LooseFits(ks, fs);
      RawIsEncodedIffCanonical(LooseAll(ks), fs);
      ScalarUnits(LooseAll(ks), fs);
      EncodingSize(LooseAll(ks), fs);
      if |out| + UNIT * |ks| > capacity {
        RawIsEncodedIffCanonical(ks, fs);
        ScalarUnits(ks, fs);
        EncodingSize(ks, fs);
        FieldsWrite(out, capacity, ks, fs);
      }
    }
  }

  lemma SpanThenTailWrites(
      out: seq<byte>, capacity: nat, path: seq<Kind>, whole: seq<Field>,
      ks: seq<Kind>, gs: seq<Field>, tail: seq<Kind>, last: seq<Field>, granted: bool)
    requires AllFit(ks, gs) && AllInlinable(ks) && AllFit(tail, last) && |out| <= capacity
    requires path == SpanKinds(ks, granted) + tail && whole == gs + last
    ensures AllFit(path, whole)
    ensures Writes(PutSpanAndTail(out, capacity, ks, gs, tail, last, granted), out, capacity, TryEncode(path, whole))
  {
    var span := PutSpan(out, capacity, ks, gs, granted);
    SpanWrites(out, capacity, ks, gs, granted);
    if span.ok {
      FieldsWrite(span.out, capacity, tail, last);
    }
    WritesBoth(span, PutSpanAndTail(out, capacity, ks, gs, tail, last, granted), out, capacity,
               path, whole, SpanKinds(ks, granted), gs, tail, last);
  }

  lemma FromSpanWrites(out: seq<byte>, capacity: nat, l: Layout, fs: seq<Field>, granted: bool)
    requires l.Valid() && AllFit(l.kinds, fs) && |out| <= capacity
    ensures AllFit(BackKinds(l, granted), fs[l.start..])
    ensures Writes(PutFromSpan(out, capacity, l, fs, granted), out, capacity,
                   TryEncode(BackKinds(l, granted), fs[l.start..]))
  {
    var i, j := l.start, l.start + l.count;
    SliceFits(l.kinds, fs, i, j);
    TailFits(l.kinds, fs, j);
    CutTail(fs, i, j);
    SpanThenTailWrites(out, capacity, BackKinds(l, granted), fs[i..],
                       l.kinds[i..j], fs[i..j], l.kinds[j..], fs[j..], granted);
  }

  lemma MessageWrites(
      out: seq<byte>, capacity: nat, l: Layout, fs: seq<Field>, granted: bool,
      path: seq<Kind>, front: seq<Kind>, xs: seq<Field>, back: seq<Kind>, ys: seq<Field>)
    requires l.Valid() && AllFit(l.kinds, fs)
    requires path == front + back && fs == xs + ys && AllFit(front, xs) && AllFit(back, ys)
    requires front == l.kinds[..l.start] && xs == fs[..l.start] && |out| <= capacity
    requires var head := PutFields(out, capacity, front, xs);
      head.ok ==> Writes(PutFromSpan(head.out, capacity, l, fs, granted), head.out, capacity, TryEncode(back, ys))
    ensures AllFit(path, fs) && Writes(PutMessage(out, capacity, l, fs, granted), out, capacity, TryEncode(path, fs))
  {
    FieldsWrite(out, capacity, front, xs);
    WritesBoth(PutFields(out, capacity, front, xs), PutMessage(out, capacity, l, fs, granted), out, capacity,
               path, fs, front, xs, back, ys);
  }

  /** For every value, encoding is field-by-field encoding with the path's kinds. */
  lemma EncodesByPath(out: seq<byte>, capacity: nat, l: Layout, fs: seq<Field>, granted: bool)
    requires l.Valid() && AllFit(l.kinds, fs) && |out| <= capacity
    ensures AllFit(PathKinds(l, granted), fs)
    ensures Writes(PutMessage(out, capacity, l, fs, granted), out, capacity, TryEncode(PathKinds(l, granted), fs))
  {
    HeadFits(l.kinds, fs, l.start);
    CutHead(fs, l.start);
    var front, xs, ys := l.kinds[..l.start], fs[..l.start], fs[l.start..];
    var head := PutFields(out, capacity, front, xs);
    PutFieldsFits(out, capacity, front, xs);
    FromSpanWrites(if head.ok then head.out else out, capacity, l, fs, granted);
    MessageWrites(out, capacity, l, fs, granted, PathKinds(l, granted), front, xs, BackKinds(l, granted), ys);
  }

  lemma PutFieldsFits(out: seq<byte>, capacity: nat, ks: seq<Kind>, fs: seq<Field>)
    requires AllFit(ks, fs) && |out| <= capacity
    ensures var r := PutFields(out, capacity, ks, fs);
      r.ok ==> |r.out| <= capacity
  {
    PutFieldsIsEncodeAll(out, capacity, ks, fs);
  }

  // ---------- From one path to another ----------

  /** What a value has become when either end takes it for a boolean. */
  function Arrives(sent: Kind, got: Kind, f: Field): Field {
    if f.Word? && (sent.Bool? || got.Bool?) then Word(if f.value == 0 then 0 else 1) else f
  }

  function ArrivesAll(sent: seq<Kind>, got: seq<Kind>, fs: seq<Field>): (r: seq<Field>)
    requires |sent| == |got| == |fs|
    ensures |r| == |fs| && forall i | 0 <= i < |fs| :: r[i] == Arrives(sent[i], got[i], fs[i])
    decreases fs
  {
    if fs == [] then [] else [Arrives(sent[0], got[0], fs[0])] + ArrivesAll(sent[1..], got[1..], fs[1..])
  }

  /** Kinds that differ at most in taking an integer for a boolean. */
  predicate Alike(a: seq<Kind>, b: seq<Kind>) {
    |a| == |b| && forall i | 0 <= i < |a| :: Loose(a[i]) == Loose(b[i])
  }

  lemma PathsAreAlike(l: Layout, a: bool, b: bool)
    requires l.Valid()
    ensures Alike(PathKinds(l, a), PathKinds(l, b))
  {
    forall i | 0 <= i < |l.kinds| ensures Loose(PathKinds(l, a)[i]) == Loose(PathKinds(l, b)[i]) {
      PathKindAt(l, a, i);
      PathKindAt(l, b, i);
    }
  }

  /** A path takes fewer fields for booleans, never more. */
  lemma CanonicalOnAnyPath(l: Layout, fs: seq<Field>, granted: bool)
    requires l.Valid() && AllCanonical(l.kinds, fs)
    ensures AllCanonical(PathKinds(l, granted), fs)
  {
    forall i | 0 <= i < |fs| ensures Canonical(PathKinds(l, granted)[i], fs[i]) {
      PathKindAt(l, granted, i);
      assert Canonical(l.kinds[i], fs[i]);
    }
  }

  lemma FieldArrives(sent: Kind, got: Kind, f: Field, rest: seq<byte>)
    requires Loose(sent) == Loose(got) && Fits(sent, f) && Encodable(sent, f)
    ensures Decode(got, Encode(sent, f) + rest) == Decoded(Arrives(sent, got, f), rest)
  {
    if sent.Bool? || got.Bool? {
      var w := ToUnit(sent, f.value);
      UnitRoundTrip(w, rest);
      assert (PutUnit(w) + rest)[UNIT..] == rest;
      if f.value < 0 {
        assert f.value % WORDS == f.value + WORDS;
      }
    } else {
      FieldRoundTrip(sent, f, rest);
    }
  }

  /** Whatever path either end takes, every field arrives, booleans at least by their truth. */
  lemma {:induction false} FieldsArrive(sent: seq<Kind>, got: seq<Kind>, fs: seq<Field>, rest: seq<byte>)
    requires Alike(sent, got) && AllFit(sent, fs) && AllEncodable(sent, fs)
    ensures DecodeAll(got, EncodeAll(sent, fs) + rest) == Decoded(ArrivesAll(sent, got, fs), rest)
    decreases fs
  {
    if fs == [] {
      assert [] + rest == rest;
    } else {
      var head, tail := Encode(sent[0], fs[0]), EncodeAll(sent[1..], fs[1..]) + rest;
      EncodingSplits(sent, fs, rest, head, tail);
      FieldArrives(sent[0], got[0], fs[0], tail);
      FieldsArrive(sent[1..], got[1..], fs[1..], rest);
      DecodeCons(got, head + tail, Decoded(Arrives(sent[0], got[0], fs[0]), tail),
                 Decoded(ArrivesAll(sent[1..], got[1..], fs[1..]), rest));
    }
  }

  /** The same for an encoding that is all there is. */
  lemma FieldsArriveAlone(sent: seq<Kind>, got: seq<Kind>, fs: seq<Field>)
    requires Alike(sent, got) && AllFit(sent, fs) && AllEncodable(sent, fs)
    ensures DecodeAll(got, EncodeAll(sent, fs)) == Decoded(ArrivesAll(sent, got, fs), [])
  {
    assert EncodeAll(sent, fs) + [] == EncodeAll(sent, fs);
    FieldsArrive(sent, got, fs, []);
  }

  lemma {:induction false} CutFailsByPath(sent: seq<Kind>, got: seq<Kind>, fs: seq<Field>, p: nat, b: seq<byte>)
    requires Alike(sent, got) && AllFit(sent, fs) && AllEncodable(sent, fs)
    requires p < |EncodeAll(sent, fs)| && b == EncodeAll(sent, fs)[..p]
    ensures DecodeAll(got, b).Failed?
    decreases fs
  {
    var head, tail := Encode(sent[0], fs[0]), EncodeAll(sent[1..], fs[1..]);
    assert Loose(sent[0]) == Loose(got[0]);
    EncodingLength(sent, fs);
    if p < |head| {
      ShortPrefix(sent, fs, p, head, b);
      FieldNeedsAll(sent[0], fs[0], p);
      DecodeCons(got, b, Failed, Failed);
    } else {
      var more := tail[..p - |head|];
      LongPrefix(sent, fs, p, head, tail, more, b);
      FieldArrives(sent[0], got[0], fs[0], more);
      CutFailsByPath(sent[1..], got[1..], fs[1..], p - |head|, more);
      DecodeCons(got, b, Decoded(Arrives(sent[0], got[0], fs[0]), more), Failed);
    }
  }

  /** Whatever the paths, no proper prefix of an encoding decodes. */
  lemma PrefixFailsByPath(sent: seq<Kind>, got: seq<Kind>, fs: seq<Field>, p: nat)
    requires Alike(sent, got) && AllFit(sent, fs) && AllEncodable(sent, fs) && p < |EncodeAll(sent, fs)|
    ensures DecodeAll(got, EncodeAll(sent, fs)[..p]).Failed?
  {
    CutFailsByPath(sent, got, fs, p, EncodeAll(sent, fs)[..p]);
  }

  /** Nothing changes on the way exactly if every field that either end takes for a boolean is 0 or 1. */
  lemma ArrivesUnchangedIff(sent: seq<Kind>, got: seq<Kind>, fs: seq<Field>)
    requires |sent| == |got| == |fs|
    ensures ArrivesAll(sent, got, fs) == fs <==>
            forall i | 0 <= i < |fs| :: Canonical(sent[i], fs[i]) && Canonical(got[i], fs[i])
  {
    var r := ArrivesAll(sent, got, fs);
    forall i | 0 <= i < |fs|
      ensures r[i] == fs[i] <==> Canonical(sent[i], fs[i]) && Canonical(got[i], fs[i])
    {}
    if r == fs {
      forall i | 0 <= i < |fs| ensures Canonical(sent[i], fs[i]) && Canonical(got[i], fs[i]) {
        assert r[i] == fs[i];
      }
    }
  }

  /** Either all booleans of a layout lie outside its span, or none does. */
  ghost predicate BooleansOutside(l: Layout, outside: bool) {
    forall i | 0 <= i < |l.kinds| && l.kinds[i].Bool? :: outside <==> !(l.start <= i < l.start + l.count)
  }

  /** Coded inline at both ends, nothing changes exactly if the booleans are 0 or 1 or lie in the span. */
  lemma InlineAtBothEndsIff(l: Layout, fs: seq<Field>, outside: bool)
    requires l.Valid() && |fs| == |l.kinds| && BooleansOutside(l, outside)
    ensures var ks := PathKinds(l, true);
      ArrivesAll(ks, ks, fs) == fs <==> AllCanonical(l.kinds, fs) || !outside
  {
    var ks := PathKinds(l, true);
    ArrivesUnchangedIff(ks, ks, fs);
    forall i | 0 <= i < |fs| ensures Canonical(ks[i], fs[i]) <==> Canonical(l.kinds[i], fs[i]) || !outside {
      PathKindAt(l, true, i);
    }
  }

  /** If either end codes field by field, nothing changes exactly if the booleans are 0 or 1. */
  lemma MixedPathsNormalise(l: Layout, fs: seq<Field>, puts: bool, gets: bool)
    requires l.Valid() && |fs| == |l.kinds| && !(puts && gets)
    ensures ArrivesAll(PathKinds(l, puts), PathKinds(l, gets), fs) == fs <==> AllCanonical(l.kinds, fs)
  {
    var a, b := PathKinds(l, puts), PathKinds(l, gets);
    ArrivesUnchangedIff(a, b, fs);
    forall i | 0 <= i < |fs|
      ensures Canonical(a[i], fs[i]) && Canonical(b[i], fs[i]) <==> Canonical(l.kinds[i], fs[i])
    {
      PathKindAt(l, puts, i);
      PathKindAt(l, gets, i);
    }
  }
}
