/**
  The messages of the VXI-11 core and abort channels, and the layout in which each
  generated codec codes its members.
 */
module Vxi11Messages {
  import opened Common
  import opened Xdr
  import opened XdrStream
  import opened XdrPaths

  const SRQ_HANDLE_MAX: nat := 40
  const UNBOUNDED: nat := 0xFFFF_FFFF

  datatype MessageType =
    | VoidType | LinkType | ErrorType | CreateLinkParmsType | CreateLinkRespType
    | WriteParmsType | WriteRespType | ReadParmsType | ReadRespType | ReadStbRespType
    | GenericParmsType | RemoteFuncType | EnableSrqParmsType | LockParmsType
    | DocmdParmsType | DocmdRespType

  /** Booleans are C integers here, so that values other than 0 and 1 can be spoken about. */
  datatype Message =
    | Void
    | Link(lid: int)
    | Error(error: int)
    | CreateLinkParms(clientId: int, lockDevice: int, lockTimeout: int, device: seq<byte>)
    | CreateLinkResp(error: int, lid: int, abortPort: int, maxRecvSize: int)
    | WriteParms(lid: int, ioTimeout: int, lockTimeout: int, flags: int, data: seq<byte>)
    | WriteResp(error: int, size: int)
    | ReadParms(lid: int, requestSize: int, ioTimeout: int, lockTimeout: int, flags: int, termChar: int)
    | ReadResp(error: int, reason: int, data: seq<byte>)
    | ReadStbResp(error: int, stb: int)
    | GenericParms(lid: int, flags: int, lockTimeout: int, ioTimeout: int)
    | RemoteFunc(hostAddr: int, hostPort: int, progNum: int, progVers: int, progFamily: int)
    | EnableSrqParms(lid: int, enable: int, handle: seq<byte>)
    | LockParms(lid: int, flags: int, lockTimeout: int)
    | DocmdParms(lid: int, flags: int, ioTimeout: int, lockTimeout: int, cmd: int, networkOrder: int,
                 datasize: int, dataIn: seq<byte>)
    | DocmdResp(error: int, dataOut: seq<byte>)

  function TypeOf(m: Message): MessageType {
    match m
    case Void => VoidType
    case Link(_) => LinkType
    case Error(_) => ErrorType
    case CreateLinkParms(_, _, _, _) => CreateLinkParmsType
    case CreateLinkResp(_, _, _, _) => CreateLinkRespType
    case WriteParms(_, _, _, _, _) => WriteParmsType
    case WriteResp(_, _) => WriteRespType
    case ReadParms(_, _, _, _, _, _) => ReadParmsType
    case ReadResp(_, _, _) => ReadRespType
    case ReadStbResp(_, _) => ReadStbRespType
    case GenericParms(_, _, _, _) => GenericParmsType
    case RemoteFunc(_, _, _, _, _) => RemoteFuncType
    case EnableSrqParms(_, _, _) => EnableSrqParmsType
    case LockParms(_, _, _) => LockParmsType
    case DocmdParms(_, _, _, _, _, _, _, _) => DocmdParmsType
    case DocmdResp(_, _) => DocmdRespType
  }

  /** The order in which a codec codes its members, and its inline span. */
  function LayoutOf(t: MessageType): (l: Layout)
    ensures l.Valid()
  {
    match t
    case VoidType => Layout([], 0, 0)
    case LinkType => Layout([Int], 0, 0)
    case ErrorType => Layout([Int], 0, 0)
    case CreateLinkParmsType => Layout([Int, Bool, UInt, Text(UNBOUNDED)], 0, 3)
    case CreateLinkRespType => Layout([Int, Int, UShort, UInt], 0, 0)
    case WriteParmsType => Layout([Int, UInt, UInt, Int, Opaque(UNBOUNDED)], 0, 0)
    case WriteRespType => Layout([Int, UInt], 0, 0)
    case ReadParmsType => Layout([Int, UInt, UInt, UInt, Int, Char], 1, 3)
    case ReadRespType => Layout([Int, Int, Opaque(UNBOUNDED)], 0, 0)
    case ReadStbRespType => Layout([Int, UChar], 0, 0)
    case GenericParmsType => Layout([Int, Int, UInt, UInt], 0, 0)
    case RemoteFuncType => Layout([UInt, UInt, UInt, UInt, Enum], 0, 4)
    case EnableSrqParmsType => Layout([Int, Bool, Opaque(SRQ_HANDLE_MAX)], 0, 0)
    case LockParmsType => Layout([Int, Int, UInt], 0, 0)
    case DocmdParmsType => Layout([Int, Int, UInt, UInt, Int, Bool, Int, Opaque(UNBOUNDED)], 2, 5)
    case DocmdRespType => Layout([Int, Opaque(UNBOUNDED)], 0, 0)
  }

  function Members(m: Message): seq<Field> {
    match m
    case Void => []
    case Link(lid) => [Word(lid)]
    case Error(error) => [Word(error)]
    case CreateLinkParms(a, b, c, d) => [Word(a), Word(b), Word(c), Bytes(d)]
    case CreateLinkResp(a, b, c, d) => [Word(a), Word(b), Word(c), Word(d)]
    case WriteParms(a, b, c, d, e) => [Word(a), Word(b), Word(c), Word(d), Bytes(e)]
    case WriteResp(a, b) => [Word(a), Word(b)]
    case ReadParms(a, b, c, d, e, f) => [Word(a), Word(b), Word(c), Word(d), Word(e), Word(f)]
    case ReadResp(a, b, c) => [Word(a), Word(b), Bytes(c)]
    case ReadStbResp(a, b) => [Word(a), Word(b)]
    case GenericParms(a, b, c, d) => [Word(a), Word(b), Word(c), Word(d)]
    case RemoteFunc(a, b, c, d, e) => [Word(a), Word(b), Word(c), Word(d), Word(e)]
    case EnableSrqParms(a, b, c) => [Word(a), Word(b), Bytes(c)]
    case LockParms(a, b, c) => [Word(a), Word(b), Word(c)]
    case DocmdParms(a, b, c, d, e, f, g, h) =>
      [Word(a), Word(b), Word(c), Word(d), Word(e), Word(f), Word(g), Bytes(h)]
    case DocmdResp(a, b) => [Word(a), Bytes(b)]
  }

  function WordAt(fs: seq<Field>, i: nat): int { if i < |fs| && fs[i].Word? then fs[i].value else 0 }
  function BytesAt(fs: seq<Field>, i: nat): seq<byte> { if i < |fs| && fs[i].Bytes? then fs[i].data else [] }

  /** The struct whose members were filled in this order. */
  function FromMembers(t: MessageType, fs: seq<Field>): Message {
    match t
    case VoidType => Void
    case LinkType => Link(WordAt(fs, 0))
    case ErrorType => Error(WordAt(fs, 0))
    case CreateLinkParmsType => CreateLinkParms(WordAt(fs, 0), WordAt(fs, 1), WordAt(fs, 2), BytesAt(fs, 3))
    case CreateLinkRespType => CreateLinkResp(WordAt(fs, 0), WordAt(fs, 1), WordAt(fs, 2), WordAt(fs, 3))
    case WriteParmsType =>
      WriteParms(WordAt(fs, 0), WordAt(fs, 1), WordAt(fs, 2), WordAt(fs, 3), BytesAt(fs, 4))
    case WriteRespType => WriteResp(WordAt(fs, 0), WordAt(fs, 1))
    case ReadParmsType =>
      ReadParms(WordAt(fs, 0), WordAt(fs, 1), WordAt(fs, 2), WordAt(fs, 3), WordAt(fs, 4), WordAt(fs, 5))
    case ReadRespType => ReadResp(WordAt(fs, 0), WordAt(fs, 1), BytesAt(fs, 2))
    case ReadStbRespType => ReadStbResp(WordAt(fs, 0), WordAt(fs, 1))
    case GenericParmsType => GenericParms(WordAt(fs, 0), WordAt(fs, 1), WordAt(fs, 2), WordAt(fs, 3))
    case RemoteFuncType =>
      RemoteFunc(WordAt(fs, 0), WordAt(fs, 1), WordAt(fs, 2), WordAt(fs, 3), WordAt(fs, 4))
    case EnableSrqParmsType => EnableSrqParms(WordAt(fs, 0), WordAt(fs, 1), BytesAt(fs, 2))
    case LockParmsType => LockParms(WordAt(fs, 0), WordAt(fs, 1), WordAt(fs, 2))
    case DocmdParmsType =>
      DocmdParms(WordAt(fs, 0), WordAt(fs, 1), WordAt(fs, 2), WordAt(fs, 3), WordAt(fs, 4), WordAt(fs, 5),
                 WordAt(fs, 6), BytesAt(fs, 7))
    case DocmdRespType => DocmdResp(WordAt(fs, 0), BytesAt(fs, 1))
  }

  /** Filling a struct from its own members gives it back. */
  lemma MembersRoundTrip(m: Message)
    ensures FromMembers(TypeOf(m), Members(m)) == m
  {}

  // ---------- Encoding and decoding a message ----------

  /** A value the C struct can hold. */
  predicate WellTyped(m: Message) { AllFit(LayoutOf(TypeOf(m)).kinds, Members(m)) }

  /** Its booleans are 0 or 1. */
  predicate Plain(m: Message) { AllCanonical(LayoutOf(TypeOf(m)).kinds, Members(m)) }

  /** Its counted members are within their declared maxima. */
  predicate WithinBounds(m: Message) { AllEncodable(LayoutOf(TypeOf(m)).kinds, Members(m)) }

  predicate Sendable(m: Message) { WellTyped(m) && Plain(m) && WithinBounds(m) }

  function Encoding(m: Message): seq<byte>
    requires WellTyped(m) && WithinBounds(m)
  {
    EncodeAll(LayoutOf(TypeOf(m)).kinds, Members(m))
  }

  function Decoding(t: MessageType, b: seq<byte>): Decoded<Message> {
    match DecodeAll(LayoutOf(t).kinds, b)
    case Failed => Failed
    case Decoded(fs, rest) => Decoded(FromMembers(t, fs), rest)
  }

  // ---------- The messages by their members' names ----------

  datatype Item = Item(kind: Kind, field: Field)

  function Signed(v: int): Item { Item(Int, Word(v)) }
  function Unsigned(v: int): Item { Item(UInt, Word(v)) }
  function Truth(v: int): Item { Item(Bool, Word(v)) }
  function Data(b: seq<byte>): Item { Item(Opaque(UNBOUNDED), Bytes(b)) }

  /** The members of each struct by name, with their C types, in the order src/vxi11core.h declares them. */
  function Items(m: Message): seq<Item> {
    match m
    case Void => []
    case Link(_) => [Signed(m.lid)]
    case Error(_) => [Signed(m.error)]
    case CreateLinkParms(_, _, _, _) =>
      [Signed(m.clientId), Truth(m.lockDevice), Unsigned(m.lockTimeout), Item(Text(UNBOUNDED), Bytes(m.device))]
    case CreateLinkResp(_, _, _, _) =>
      [Signed(m.error), Signed(m.lid), Item(UShort, Word(m.abortPort)), Unsigned(m.maxRecvSize)]
    case WriteParms(_, _, _, _, _) =>
      [Signed(m.lid), Unsigned(m.ioTimeout), Unsigned(m.lockTimeout), Signed(m.flags), Data(m.data)]
    case WriteResp(_, _) => [Signed(m.error), Unsigned(m.size)]
    case ReadParms(_, _, _, _, _, _) =>
      [Signed(m.lid), Unsigned(m.requestSize), Unsigned(m.ioTimeout), Unsigned(m.lockTimeout), Signed(m.flags),
       Item(Char, Word(m.termChar))]
    case ReadResp(_, _, _) => [Signed(m.error), Signed(m.reason), Data(m.data)]
    case ReadStbResp(_, _) => [Signed(m.error), Item(UChar, Word(m.stb))]
    case GenericParms(_, _, _, _) =>
      [Signed(m.lid), Signed(m.flags), Unsigned(m.lockTimeout), Unsigned(m.ioTimeout)]
    case RemoteFunc(_, _, _, _, _) =>
      [Unsigned(m.hostAddr), Unsigned(m.hostPort), Unsigned(m.progNum), Unsigned(m.progVers),
       Item(Enum, Word(m.progFamily))]
    case EnableSrqParms(_, _, _) => [Signed(m.lid), Truth(m.enable), Item(Opaque(40), Bytes(m.handle))]
    case LockParms(_, _, _) => [Signed(m.lid), Signed(m.flags), Unsigned(m.lockTimeout)]
    case DocmdParms(_, _, _, _, _, _, _, _) =>
      [Signed(m.lid), Signed(m.flags), Unsigned(m.ioTimeout), Unsigned(m.lockTimeout), Signed(m.cmd),
       Truth(m.networkOrder), Signed(m.datasize), Data(m.dataIn)]
    case DocmdResp(_, _) => [Signed(m.error), Data(m.dataOut)]
  }

  lemma ItemsAreMembers(m: Message, i: nat)
    ensures |Items(m)| == |Members(m)|
    ensures i < |Members(m)| ==> Items(m)[i] == Item(LayoutOf(TypeOf(m)).kinds[i], Members(m)[i])
  {}

  /**
    Every member of every message stands on the wire in the declared order: member i in
    the place behind the members before it, as RFC 4506 prescribes for its type.
   */
  lemma MembersStandInOrder(m: Message, i: nat, e: seq<byte>)
    requires WellTyped(m) && WithinBounds(m) && i < |Items(m)|
    requires OnTheWire(Items(m)[i].kind, Items(m)[i].field, e)
    ensures |Items(m)| == |Members(m)|
    ensures Holds(Encoding(m), Offset(Members(m), i), Offset(Members(m), i + 1), e)
  {
    ItemsAreMembers(m, i);
    EncodeIsOnTheWire(Items(m)[i].kind, Items(m)[i].field, e);
    FieldsInOrder(LayoutOf(TypeOf(m)).kinds, Members(m), i, e);
  }

  /** A message is well-typed if and only if the C type of each of its members can hold it. */
  lemma WellTypedByName(m: Message)
    ensures WellTyped(m) <==> forall i | 0 <= i < |Items(m)| :: Fits(Items(m)[i].kind, Items(m)[i].field)
  {
    forall i: nat | i < |Members(m)|
      ensures Items(m)[i] == Item(LayoutOf(TypeOf(m)).kinds[i], Members(m)[i]) && |Items(m)| == |Members(m)|
    {
      ItemsAreMembers(m, i);
    }
    ItemsAreMembers(m, 0);
    assert |LayoutOf(TypeOf(m)).kinds| == |Members(m)|;
  }

  /** Every message comes back from its encoding, whatever bytes follow, and they are left over. */
  lemma MessageRoundTrip(m: Message, rest: seq<byte>)
    requires Sendable(m)
    ensures Decoding(TypeOf(m), Encoding(m) + rest) == Decoded(m, rest)
  {
    RoundTrip(LayoutOf(TypeOf(m)).kinds, Members(m), rest);
    MembersRoundTrip(m);
  }

  /** Of two messages of one type, one encoding is a prefix of the other only if they are equal. */
  lemma MessagesPrefixFree(m: Message, n: Message)
    requires Sendable(m) && Sendable(n) && TypeOf(m) == TypeOf(n)
    ensures Encoding(m) <= Encoding(n) <==> m == n
  {
    PrefixFree(LayoutOf(TypeOf(m)).kinds, Members(m), Members(n));
    MembersRoundTrip(m);
    MembersRoundTrip(n);
  }

  /** An encoding cut short anywhere does not decode. */
  lemma TruncatedMessageFails(m: Message, p: nat)
    requires Sendable(m) && p < |Encoding(m)|
    ensures Decoding(TypeOf(m), Encoding(m)[..p]).Failed?
  {
    PrefixFails(LayoutOf(TypeOf(m)).kinds, Members(m), p);
  }

  /** The only message that may be refused for its size is an SRQ request with a handle over 40 bytes. */
  lemma OnlySrqHandleIsBounded(m: Message)
    requires WellTyped(m)
    ensures WithinBounds(m) <==> (m.EnableSrqParms? ==> |m.handle| <= SRQ_HANDLE_MAX)
  {
    var ks, fs := LayoutOf(TypeOf(m)).kinds, Members(m);
    if m.EnableSrqParms? {
      assert Encodable(ks[2], fs[2]) <==> |m.handle| <= SRQ_HANDLE_MAX;
    }
    forall i | 0 <= i < |ks| && (m.EnableSrqParms? ==> |m.handle| <= SRQ_HANDLE_MAX)
      ensures Encodable(ks[i], fs[i])
    {
      assert Fits(ks[i], fs[i]);
    }
  }

  /** An SRQ request decodes exactly if its handle is announced with at most 40 bytes and they are all there. */
  lemma SrqRequestDecodesIff(b: seq<byte>)
    ensures Decoding(EnableSrqParmsType, b).Decoded? <==>
            && |b| >= 3 * UNIT && GetUnit(b[2 * UNIT..]) <= SRQ_HANDLE_MAX
            && |b| >= 3 * UNIT + GetUnit(b[2 * UNIT..]) + Pad(GetUnit(b[2 * UNIT..]))
  {
    var ks := LayoutOf(EnableSrqParmsType).kinds;
    if |b| >= 2 * UNIT {
      assert ks[1..][1..] == ks[2..] && ks[2..][1..] == [] && ks[2..][0] == Opaque(SRQ_HANDLE_MAX);
      assert b[UNIT..][UNIT..] == b[2 * UNIT..];
      assert DecodeAll(ks[2..], b[2 * UNIT..]).Decoded? <==> Decode(ks[2], b[2 * UNIT..]).Decoded?;
      assert DecodeAll(ks[1..], b[UNIT..]).Decoded? <==> DecodeAll(ks[2..], b[2 * UNIT..]).Decoded?;
    }
  }

  // ---------- The inline paths ----------

  predicate InSpan(t: MessageType, i: nat) { LayoutOf(t).start <= i < LayoutOf(t).start + LayoutOf(t).count }

  /** Four codecs have an inline span; these are its members. */
  lemma SpansAsGenerated(t: MessageType, i: nat)
    ensures InSpan(t, i) <==>
      match t
      case CreateLinkParmsType => i < 3      // clientId, lockDevice, lock_timeout
      case ReadParmsType => 1 <= i < 4       // requestSize, io_timeout, lock_timeout
      case RemoteFuncType => i < 4           // hostAddr, hostPort, progNum, progVers
      case DocmdParmsType => 2 <= i < 7      // io_timeout, lock_timeout, cmd, network_order, datasize
      case _ => false
  {}

  lemma StreamEncodes(l: Layout, fs: seq<Field>, out: seq<byte>, capacity: nat, granted: bool)
    requires l.Valid() && AllFit(l.kinds, fs) && AllEncodable(l.kinds, fs) && AllCanonical(l.kinds, fs)
    requires |out| + |EncodeAll(l.kinds, fs)| <= capacity
    ensures PutMessage(out, capacity, l, fs, granted) == Put(true, out + EncodeAll(l.kinds, fs))
  {
    InlineEncodesTheSame(out, capacity, l, fs, granted);
    PutFieldsIsEncodeAll(out, capacity, l.kinds, fs);
  }

  lemma StreamDecodes(l: Layout, fs: seq<Field>, rest: seq<byte>, granted: bool)
    requires l.Valid() && AllFit(l.kinds, fs) && AllEncodable(l.kinds, fs) && AllCanonical(l.kinds, fs)
    ensures GetMessage(l, EncodeAll(l.kinds, fs) + rest, granted) == Decoded(fs, rest)
  {
    var path := PathKinds(l, granted);
    DecodesByPath(l, EncodeAll(l.kinds, fs) + rest, granted);
    PathsAreAlike(l, false, granted);
    UngrantedPath(l);
    FieldsArrive(l.kinds, path, fs, rest);
    CanonicalOnAnyPath(l, fs, granted);
    ArrivesUnchangedIff(l.kinds, path, fs);
  }

  /**
    End to end through the streams: whichever side is granted an inline buffer, an
    encoder with room writes the encoding, and a decoder reads the message back and
    stops exactly behind it.
   */
  lemma StreamRoundTrip(
      m: Message, out: seq<byte>, capacity: nat, rest: seq<byte>, encodeInline: bool, decodeInline: bool)
    requires Sendable(m) && |out| + |Encoding(m)| <= capacity
    ensures PutMessage(out, capacity, LayoutOf(TypeOf(m)), Members(m), encodeInline) == Put(true, out + Encoding(m))
    ensures GetMessage(LayoutOf(TypeOf(m)), Encoding(m) + rest, decodeInline) == Decoded(Members(m), rest)
  {
    StreamEncodes(LayoutOf(TypeOf(m)), Members(m), out, capacity, encodeInline);
    StreamDecodes(LayoutOf(TypeOf(m)), Members(m), rest, decodeInline);
  }

  /** With a lockDevice of 2 the two encoding paths of a link request differ. */
  lemma OddBooleanDiffers()
    ensures var m := CreateLinkParms(0, 2, 0, []);
      && WellTyped(m)
      && PutMessage([], 16, LayoutOf(TypeOf(m)), Members(m), true) !=
         PutMessage([], 16, LayoutOf(TypeOf(m)), Members(m), false)
  {
    var m := CreateLinkParms(0, 2, 0, []);
    var l, fs := LayoutOf(TypeOf(m)), Members(m);
    assert l.kinds[..0] == [] && fs[..0] == [];
    assert l.kinds[0..3][1] == Bool && fs[0..3][1] == Word(2);
    assert !Canonical(l.kinds[0..3][1], fs[0..3][1]);
    EncodingPathsAgreeIffCanonical([], 16, l, fs);
  }
}
