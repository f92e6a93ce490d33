/**
  What a message has become when the other end has decoded it, for every value and
  whichever paths the codecs at the two ends take.
 */
module Delivery {
  import opened Common
  import opened Xdr
  import opened XdrStream
  import opened XdrPaths
  import opened Vxi11Messages

  /** A message written to an empty stream, and a message read from the start of one. */
  function Written(m: Message, room: nat, puts: bool): Put
    requires WellTyped(m)
  {
    PutMessage([], room, LayoutOf(TypeOf(m)), Members(m), puts)
  }

  function Read(t: MessageType, b: seq<byte>, gets: bool): Option<Message> {
    match GetMessage(LayoutOf(t), b, gets)
    case Failed => None
    case Decoded(fs, _) => Some(FromMembers(t, fs))
  }

  /** What becomes of a message on its way: a boolean that either end normalises arrives as 0 or 1. */
  function Delivered(m: Message, puts: bool, gets: bool): Message
    requires WellTyped(m)
  {
    var l := LayoutOf(TypeOf(m));
    FromMembers(TypeOf(m), ArrivesAll(PathKinds(l, puts), PathKinds(l, gets), Members(m)))
  }

  lemma PathKeepsBounds(l: Layout, fs: seq<Field>, granted: bool)
    requires l.Valid() && AllFit(l.kinds, fs) && AllFit(PathKinds(l, granted), fs)
    ensures AllEncodable(PathKinds(l, granted), fs) <==> AllEncodable(l.kinds, fs)
    ensures AllEncodable(l.kinds, fs) ==>
      |EncodeAll(PathKinds(l, granted), fs)| == |EncodeAll(l.kinds, fs)|
  {
    var ks := PathKinds(l, granted);
    forall i | 0 <= i < |ks| ensures Encodable(ks[i], fs[i]) <==> Encodable(l.kinds[i], fs[i]) {
      PathKindAt(l, granted, i);
    }
    if AllEncodable(ks, fs) {
      forall i | 0 <= i < |ks| ensures Encodable(l.kinds[i], fs[i]) { assert Encodable(ks[i], fs[i]); }
    }
    if AllEncodable(l.kinds, fs) {
      EncodingSize(ks, fs);
      EncodingSize(l.kinds, fs);
    }
  }

  lemma EncodingArrives(
      l: Layout, fs: seq<Field>, sent: seq<Kind>, got: seq<Kind>, puts: bool, gets: bool, out: seq<byte>)
    requires l.Valid() && sent == PathKinds(l, puts) && got == PathKinds(l, gets)
    requires AllFit(sent, fs) && AllEncodable(sent, fs) && out == EncodeAll(sent, fs)
    ensures GetMessage(l, out, gets) == Decoded(ArrivesAll(sent, got, fs), [])
  {
    DecodesByPath(l, out, gets);
    PathsAreAlike(l, puts, gets);
    FieldsArriveAlone(sent, got, fs);
  }

  lemma FieldsAreDelivered(l: Layout, fs: seq<Field>, room: nat, puts: bool, gets: bool)
    requires l.Valid() && AllFit(l.kinds, fs)
    ensures var put := PutMessage([], room, l, fs, puts);
      && (put.ok <==> AllEncodable(l.kinds, fs) && |EncodeAll(l.kinds, fs)| <= room)
      && (put.ok ==>
            GetMessage(l, put.out, gets) == Decoded(ArrivesAll(PathKinds(l, puts), PathKinds(l, gets), fs), []))
  {
    EncodesByPath([], room, l, fs, puts);
    PathKeepsBounds(l, fs, puts);
    var put := PutMessage([], room, l, fs, puts);
    if put.ok {
      assert put.out == EncodeAll(PathKinds(l, puts), fs);
      EncodingArrives(l, fs, PathKinds(l, puts), PathKinds(l, gets), puts, gets, put.out);
    }
  }

  /** A message is encoded exactly when it is within its bounds and has room, and then arrives as `Delivered`. */
  lemma MessageIsDelivered(m: Message, room: nat, puts: bool, gets: bool)
    requires WellTyped(m)
    ensures var put := Written(m, room, puts);
      && (put.ok <==> WithinBounds(m) && |Encoding(m)| <= room)
      && (put.ok ==> Read(TypeOf(m), put.out, gets) == Some(Delivered(m, puts, gets)))
  {
    FieldsAreDelivered(LayoutOf(TypeOf(m)), Members(m), room, puts, gets);
  }

  predicate Shaped(t: MessageType, fs: seq<Field>) {
    var ks := LayoutOf(t).kinds;
    |fs| == |ks| && forall i | 0 <= i < |ks| :: fs[i].Bytes? <==> Counted(ks[i])
  }

  lemma RefilledShort(t: MessageType, fs: seq<Field>)
    requires Shaped(t, fs) && |fs| <= 3
    ensures TypeOf(FromMembers(t, fs)) == t && Members(FromMembers(t, fs)) == fs
  {
    var ks := LayoutOf(t).kinds;
    assert forall i | 0 <= i < |ks| :: fs[i].Bytes? <==> Counted(ks[i]);
  }

  lemma RefilledFour(t: MessageType, fs: seq<Field>)
    requires Shaped(t, fs) && |fs| == 4
    ensures TypeOf(FromMembers(t, fs)) == t && Members(FromMembers(t, fs)) == fs
  {
    var ks := LayoutOf(t).kinds;
    assert forall i | 0 <= i < |ks| :: fs[i].Bytes? <==> Counted(ks[i]);
  }

  lemma RefilledFive(t: MessageType, fs: seq<Field>)
    requires Shaped(t, fs) && |fs| == 5
    ensures TypeOf(FromMembers(t, fs)) == t && Members(FromMembers(t, fs)) == fs
  {
    var ks := LayoutOf(t).kinds;
    assert forall i | 0 <= i < |ks| :: fs[i].Bytes? <==> Counted(ks[i]);
  }

  lemma RefilledLong(t: MessageType, fs: seq<Field>)
    requires Shaped(t, fs) && |fs| > 5
    ensures TypeOf(FromMembers(t, fs)) == t && Members(FromMembers(t, fs)) == fs
  {
    var ks := LayoutOf(t).kinds;
    assert forall i | 0 <= i < |ks| :: fs[i].Bytes? <==> Counted(ks[i]);
  }

  /** A struct has exactly the members it was filled with. */
  lemma RefilledMembers(t: MessageType, fs: seq<Field>)
    requires Shaped(t, fs)
    ensures TypeOf(FromMembers(t, fs)) == t && Members(FromMembers(t, fs)) == fs
  {
    if |fs| <= 3 {
      RefilledShort(t, fs);
    } else if |fs| == 4 {
      RefilledFour(t, fs);
    } else if |fs| == 5 {
      RefilledFive(t, fs);
    } else {
      RefilledLong(t, fs);
    }
  }

  /** On the way words stay words and buffers stay buffers. */
  lemma ArrivesShaped(ks: seq<Kind>, sent: seq<Kind>, got: seq<Kind>, fs: seq<Field>, r: seq<Field>)
    requires AllFit(ks, fs) && |sent| == |got| == |ks| && r == ArrivesAll(sent, got, fs)
    ensures |r| == |ks| && forall i | 0 <= i < |ks| :: r[i].Bytes? <==> Counted(ks[i])
  {
    forall i | 0 <= i < |ks| ensures r[i].Bytes? <==> Counted(ks[i]) {
      assert Fits(ks[i], fs[i]);
    }
  }

  lemma DeliveredMembers(m: Message, puts: bool, gets: bool)
    requires WellTyped(m)
    ensures var l := LayoutOf(TypeOf(m));
      && TypeOf(Delivered(m, puts, gets)) == TypeOf(m)
      && Members(Delivered(m, puts, gets)) == ArrivesAll(PathKinds(l, puts), PathKinds(l, gets), Members(m))
  {
    var t := TypeOf(m);
    var l, fs := LayoutOf(t), Members(m);
    var sent, got := PathKinds(l, puts), PathKinds(l, gets);
    var r := ArrivesAll(sent, got, fs);
    ArrivesShaped(l.kinds, sent, got, fs, r);
    RefilledMembers(t, r);
  }

  predicate SameTruth(k: Kind, x: Field, y: Field) {
    x == y || (k.Bool? && x.Word? && y.Word? && (x.value == 0 <==> y.value == 0))
  }

  lemma FieldKeepsTruth(l: Layout, puts: bool, gets: bool, f: Field, i: nat)
    requires l.Valid() && i < |l.kinds|
    ensures SameTruth(l.kinds[i], Arrives(PathKinds(l, puts)[i], PathKinds(l, gets)[i], f), f)
  {
    PathKindAt(l, puts, i);
    PathKindAt(l, gets, i);
  }

  /** Every member arrives; a boolean arrives at least with its truth value. */
  lemma DeliveredKeepsTruth(m: Message, puts: bool, gets: bool, i: nat)
    requires WellTyped(m) && i < |Members(m)|
    ensures var x := Delivered(m, puts, gets);
      && TypeOf(x) == TypeOf(m) && |Members(x)| == |Members(m)|
      && SameTruth(LayoutOf(TypeOf(m)).kinds[i], Members(x)[i], Members(m)[i])
  {
    DeliveredMembers(m, puts, gets);
    FieldKeepsTruth(LayoutOf(TypeOf(m)), puts, gets, Members(m)[i], i);
  }

  /** Only the SRQ request has a boolean outside an inline span. */
  lemma OnlySrqBooleanIsNeverInline(t: MessageType, i: nat)
    requires i < |LayoutOf(t).kinds| && LayoutOf(t).kinds[i].Bool?
    ensures var l := LayoutOf(t);
      t.EnableSrqParmsType? <==> !(l.start <= i < l.start + l.count)
  {}

  lemma SrqBooleansOutside(t: MessageType)
    ensures BooleansOutside(LayoutOf(t), t.EnableSrqParmsType?)
  {
    forall i | 0 <= i < |LayoutOf(t).kinds| && LayoutOf(t).kinds[i].Bool?
      ensures t.EnableSrqParmsType? <==> !(LayoutOf(t).start <= i < LayoutOf(t).start + LayoutOf(t).count)
    {
      OnlySrqBooleanIsNeverInline(t, i);
    }
  }

  lemma ArrivesExactlyIff(t: MessageType, fs: seq<Field>, puts: bool, gets: bool)
    requires |fs| == |LayoutOf(t).kinds|
    ensures var l := LayoutOf(t);
      ArrivesAll(PathKinds(l, puts), PathKinds(l, gets), fs) == fs <==>
      AllCanonical(l.kinds, fs) || (puts && gets && !t.EnableSrqParmsType?)
  {
    if puts && gets {
      SrqBooleansOutside(t);
      InlineAtBothEndsIff(LayoutOf(t), fs, t.EnableSrqParmsType?);
    } else {
      MixedPathsNormalise(LayoutOf(t), fs, puts, gets);
    }
  }

  /**
    A message arrives exactly as it was sent if and only if its booleans are 0 or 1, or
    both ends coded them inline, which the SRQ request never does.
   */
  lemma DeliveredExactlyIff(m: Message, puts: bool, gets: bool)
    requires WellTyped(m)
    ensures Delivered(m, puts, gets) == m <==> Plain(m) || (puts && gets && !m.EnableSrqParms?)
  {
    DeliveredIffArrives(m, puts, gets);
    ArrivesExactlyIff(TypeOf(m), Members(m), puts, gets);
    PlainIsCanonical(m);
    SrqHasItsType(m);
  }

  lemma PlainIsCanonical(m: Message)
    ensures Plain(m) <==> AllCanonical(LayoutOf(TypeOf(m)).kinds, Members(m))
  {}

  lemma SrqHasItsType(m: Message)
    ensures TypeOf(m).EnableSrqParmsType? <==> m.EnableSrqParms?
  {}

  lemma SameMembers(m: Message, n: Message)
    requires TypeOf(m) == TypeOf(n)
    ensures m == n <==> Members(m) == Members(n)
  {
    MembersRoundTrip(m);
    MembersRoundTrip(n);
  }

  lemma DeliveredIffArrives(m: Message, puts: bool, gets: bool)
    requires WellTyped(m)
    ensures var l := LayoutOf(TypeOf(m));
      Delivered(m, puts, gets) == m <==>
      ArrivesAll(PathKinds(l, puts), PathKinds(l, gets), Members(m)) == Members(m)
  {
    DeliveredMembers(m, puts, gets);
    SameMembers(Delivered(m, puts, gets), m);
  }

  /** A sendable message is read exactly, if it fits. */
  lemma SendableIsReadExactly(m: Message, room: nat, puts: bool, gets: bool)
    requires Sendable(m)
    ensures var put := Written(m, room, puts);
      && (put.ok <==> |Encoding(m)| <= room)
      && (put.ok ==> Read(TypeOf(m), put.out, gets) == Some(m))
  {
    MessageIsDelivered(m, room, puts, gets);
    DeliveredExactlyIff(m, puts, gets);
  }

  /** What was written, cut short anywhere, is not read as a message. */
  lemma TruncatedIsNotRead(m: Message, room: nat, puts: bool, gets: bool, n: nat)
    requires WellTyped(m) && Written(m, room, puts).ok && n < |Written(m, room, puts).out|
    ensures Read(TypeOf(m), Written(m, room, puts).out[..n], gets) == None
  {
    var l, fs := LayoutOf(TypeOf(m)), Members(m);
    TruncatedFieldsFail(l, fs, room, puts, gets, n);
  }

  lemma TruncatedFieldsFail(l: Layout, fs: seq<Field>, room: nat, puts: bool, gets: bool, n: nat)
    requires l.Valid() && AllFit(l.kinds, fs)
    requires PutMessage([], room, l, fs, puts).ok && n < |PutMessage([], room, l, fs, puts).out|
    ensures GetMessage(l, PutMessage([], room, l, fs, puts).out[..n], gets).Failed?
  {
    EncodesByPath([], room, l, fs, puts);
    var out := PutMessage([], room, l, fs, puts).out;
    assert out == EncodeAll(PathKinds(l, puts), fs);
    DecodesByPath(l, out[..n], gets);
    PathsAreAlike(l, puts, gets);
    PrefixFailsByPath(PathKinds(l, puts), PathKinds(l, gets), fs, n);
  }
}
