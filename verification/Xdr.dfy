/**
  External data representation, as the generated codecs use it (RFC 4506): every
  item is a whole number of four-byte units.  A message is a sequence of fields;
  each field has a kind that fixes its coding.
 */
module Xdr {
  import opened Common

  /** The primitives the codecs call: xdr_int, xdr_u_int, xdr_bool, xdr_enum, and so on. */
  datatype Kind =
    | Int | UInt | Bool | Enum | UShort | Char | UChar
    | Opaque(max: nat)  // xdr_bytes
    | Text(max: nat)    // xdr_string

  /** A C value: an integer, or the contents of a counted or NUL-terminated buffer. */
  datatype Field = Word(value: int) | Bytes(data: seq<byte>)

  const UNIT: nat := 4
  const WORDS := 0x1_0000_0000

  predicate Counted(k: Kind) { k.Opaque? || k.Text? }

  // ---------- Units ----------

  function PutUnit(w: nat): (b: seq<byte>)
    requires w < WORDS
    ensures |b| == UNIT
  {
    [w / 0x100_0000, w / 0x1_0000 % 0x100, w / 0x100 % 0x100, w % 0x100]
  }

  function GetUnit(b: seq<byte>): (w: nat)
    requires |b| >= UNIT
    ensures w < WORDS
  {
    (b[0] as int) * 0x100_0000 + (b[1] as int) * 0x1_0000 + (b[2] as int) * 0x100 + b[3] as int
  }

  lemma FourBytes(w: nat)
    ensures w / 0x100_0000 * 0x100_0000 + w / 0x1_0000 % 0x100 * 0x1_0000 + w / 0x100 % 0x100 * 0x100 + w % 0x100 == w
  {
    assert w / 0x1_0000 == w / 0x100 / 0x100;
    assert w / 0x100_0000 == w / 0x100 / 0x100 / 0x100;
  }

  lemma UnitRoundTrip(w: nat, rest: seq<byte>)
    requires w < WORDS
    ensures GetUnit(PutUnit(w) + rest) == w
  {
    FourBytes(w);
  }

  /** The number that bytes stand for, most significant first. */
  function BigEndian(b: seq<byte>): nat {
    if b == [] then 0 else 0x100 * BigEndian(b[..|b| - 1]) + b[|b| - 1] as int
  }

  lemma {:induction false} FourDigits(b: seq<byte>)
    requires |b| == UNIT
    ensures BigEndian(b) == b[0] as int * 0x100_0000 + b[1] as int * 0x1_0000 + b[2] as int * 0x100 + b[3] as int
  {
    assert b[..3][..2] == b[..2] && b[..2][..1] == b[..1] && b[..1][..0] == [];
    assert BigEndian(b[..1]) == b[0];
    assert BigEndian(b[..2]) == 0x100 * BigEndian(b[..1]) + b[1] as int;
    assert BigEndian(b[..3]) == 0x100 * BigEndian(b[..2]) + b[2] as int;
  }

  /** Four bytes are the unit of a word if and only if they are its digits, most significant first. */
  lemma UnitIsBigEndian(w: nat, b: seq<byte>)
    requires w < WORDS && |b| == UNIT
    ensures b == PutUnit(w) <==> BigEndian(b) == w
  {
    FourDigits(b);
    FourDigits(PutUnit(w));
    FourBytes(w);
    if BigEndian(b) == w {
      SameDigits(b, PutUnit(w));
    }
  }

  /** Bytes of the same length that stand for the same number are the same. */
  lemma {:induction false} SameDigits(a: seq<byte>, b: seq<byte>)
    requires |a| == |b| && BigEndian(a) == BigEndian(b)
    ensures a == b
  {
    if a != [] {
      var n := |a| - 1;
      SameDigits(a[..n], b[..n]);
      assert a == a[..n] + [a[n]] && b == b[..n] + [b[n]];
    }
  }

  /** A unit is read as the number its digits stand for. */
  lemma GetUnitIsBigEndian(b: seq<byte>)
    requires |b| >= UNIT
    ensures GetUnit(b) == BigEndian(b[..UNIT])
  {
    FourDigits(b[..UNIT]);
  }

  // ---------- Scalars ----------

  function Signed32(w: nat): int { if w < 0x8000_0000 then w else w - WORDS }
  function Signed8(w: nat): int { if w % 0x100 < 0x80 then w % 0x100 else w % 0x100 - 0x100 }

  /** The values a field of this kind can hold. */
  predicate InRange(k: Kind, v: int) {
    match k
    case Int | Enum | Bool => -0x8000_0000 <= v < 0x8000_0000
    case UInt => 0 <= v < WORDS
    case UShort => 0 <= v < 0x1_0000
    case Char => -0x80 <= v < 0x80
    case UChar => 0 <= v < 0x100
    case Opaque(_) | Text(_) => false
  }

  /** The unit xdr_int, xdr_bool and the others write; a boolean is normalised. */
  function ToUnit(k: Kind, v: int): (w: nat)
    ensures w < WORDS
  {
    if k.Bool? then (if v == 0 then 0 else 1) else v % WORDS
  }

  /** The value they read back; a short or a character keeps only its low bits. */
  function FromUnit(k: Kind, w: nat): int {
    match k
    case Int | Enum => Signed32(w)
    case Bool => if w == 0 then 0 else 1
    case UShort => w % 0x1_0000
    case Char => Signed8(w)
    case UChar => w % 0x100
    case UInt | Opaque(_) | Text(_) => w
  }

  lemma ScalarRoundTrip(k: Kind, v: int)
    requires InRange(k, v) && (k.Bool? ==> v == 0 || v == 1)
    ensures FromUnit(k, ToUnit(k, v)) == v
  {
    if v < 0 {
      assert v % WORDS == v + WORDS;
    }
  }

  lemma ScalarDecodesInRange(k: Kind, w: nat)
    requires w < WORDS && !Counted(k)
    ensures InRange(k, FromUnit(k, w)) && (k.Bool? ==> FromUnit(k, w) == 0 || FromUnit(k, w) == 1)
  {}

  // ---------- Counted fields ----------

  function Pad(n: nat): (p: nat)
    ensures p < UNIT && (n + p) % UNIT == 0
  {
    (UNIT - n % UNIT) % UNIT
  }

  function Zeros(n: nat): (z: seq<byte>)
    ensures |z| == n
  {
    seq(n, _ => 0)
  }

  /** A C string ends at its first NUL. */
  function UpToNul(s: seq<byte>): (r: seq<byte>)
    ensures |r| <= |s| && r <= s && 0 !in r
    ensures |r| < |s| ==> s[|r|] == 0
    ensures 0 !in s ==> r == s
  {
    if s == [] || s[0] == 0 then [] else [s[0]] + UpToNul(s[1..])
  }

  // ---------- Fields ----------

  /** A value the C program can hold in a field of this kind. */
  predicate Fits(k: Kind, f: Field) {
    if Counted(k) then f.Bytes? && |f.data| < WORDS && (k.Text? ==> 0 !in f.data)
    else f.Word? && InRange(k, f.value)
  }

  predicate Canonical(k: Kind, f: Field) {
    k.Bool? && f.Word? ==> f.value == 0 || f.value == 1
  }

  /** Encoding refuses only a counted field longer than its declared maximum. */
  predicate Encodable(k: Kind, f: Field) {
    Counted(k) && f.Bytes? ==> |f.data| <= k.max
  }

  function Encode(k: Kind, f: Field): (b: seq<byte>)
    requires Fits(k, f) && Encodable(k, f)
  {
    if Counted(k) then PutUnit(|f.data|) + f.data + Zeros(Pad(|f.data|)) else PutUnit(ToUnit(k, f.value))
  }

  /** How many units a field takes: one, and for a counted field one more per started four bytes. */
  function Units(f: Field): nat {
    if f.Bytes? then 1 + (|f.data| + UNIT - 1) / UNIT else 1
  }

  datatype Decoded<T> = Failed | Decoded(value: T, rest: seq<byte>)

  function Decode(k: Kind, b: seq<byte>): (r: Decoded<Field>)
    ensures r.Decoded? ==> |r.rest| < |b|
  {
    if |b| < UNIT then Failed
    else
      var w := GetUnit(b);
      if Counted(k) then DecodeCounted(k, w, b[UNIT..]) else Decoded(Word(FromUnit(k, w)), b[UNIT..])
  }

  /** The data of a counted field of length w, with its padding. */
  function DecodeCounted(k: Kind, w: nat, b: seq<byte>): (r: Decoded<Field>)
    requires Counted(k)
    ensures r.Decoded? ==> |r.rest| <= |b|
  {
    if w > k.max || |b| < w + Pad(w) then Failed
    else Decoded(Bytes(if k.Text? then UpToNul(b[..w]) else b[..w]), b[w + Pad(w)..])
  }

  lemma FieldSize(k: Kind, f: Field)
    requires Fits(k, f) && Encodable(k, f)
    ensures |Encode(k, f)| == UNIT * Units(f)
  {}

  /** Decoding an encoded field gives it back and leaves what follows, whatever it is. */
  lemma FieldRoundTrip(k: Kind, f: Field, rest: seq<byte>)
    requires Fits(k, f) && Encodable(k, f) && Canonical(k, f)
    ensures Decode(k, Encode(k, f) + rest) == Decoded(f, rest)
  {
    var b := Encode(k, f) + rest;
    if Counted(k) {
      var n := |f.data|;
      UnitRoundTrip(n, f.data + Zeros(Pad(n)) + rest);
      var body := f.data + Zeros(Pad(n)) + rest;
      assert b == PutUnit(n) + body;
      assert b[UNIT..] == body;
      assert body[..n] == f.data && body[n + Pad(n)..] == rest;
    } else {
      UnitRoundTrip(ToUnit(k, f.value), rest);
      ScalarRoundTrip(k, f.value);
      assert b[UNIT..] == rest;
    }
  }

  /** No proper prefix of an encoded field decodes. */
  lemma FieldNeedsAll(k: Kind, f: Field, p: nat)
    requires Fits(k, f) && Encodable(k, f) && p < |Encode(k, f)|
    ensures Decode(k, Encode(k, f)[..p]).Failed?
  {
    var b := Encode(k, f);
    if Counted(k) && p >= UNIT {
      var n := |f.data|;
      UnitRoundTrip(n, (f.data + Zeros(Pad(n)))[..p - UNIT]);
      assert b == PutUnit(n) + (f.data + Zeros(Pad(n)));
      var body := (f.data + Zeros(Pad(n)))[..p - UNIT];
      assert b[..p] == PutUnit(n) + body;
      assert b[..p][UNIT..] == body;
    }
  }

  /** A decoded field is a canonical value that fits and can be encoded again. */
  lemma DecodedFieldFits(k: Kind, b: seq<byte>)
    ensures var r := Decode(k, b);
      r.Decoded? ==> Fits(k, r.value) && Encodable(k, r.value) && Canonical(k, r.value)
  {
    if |b| >= UNIT && !Counted(k) {
      ScalarDecodesInRange(k, GetUnit(b));
    }
  }

  // ---------- What stands on the wire ----------

  /**
    The bytes section 4 of RFC 4506 prescribes for a field.  A scalar is four bytes, most
    significant first, in two's complement, and a boolean is 0 or 1.  A counted field is its
    length, its bytes, and zeros up to the next multiple of four.
   */
  predicate OnTheWire(k: Kind, f: Field, b: seq<byte>) {
    if Counted(k) then f.Bytes? && BlockOnTheWire(f.data, b)
    else f.Word? && |b| == 4 && BigEndian(b) == TwosComplement(k, f.value)
  }

  predicate BlockOnTheWire(data: seq<byte>, b: seq<byte>) {
    && |b| % 4 == 0 && 4 + |data| <= |b| < 8 + |data|
    && BigEndian(b[..4]) == |data| && b[4..4 + |data|] == data
    && forall i | 4 + |data| <= i < |b| :: b[i] == 0
  }

  function TwosComplement(k: Kind, v: int): int {
    if k.Bool? then (if v == 0 then 0 else 1) else if v < 0 then 0x1_0000_0000 + v else v
  }

  lemma ToUnitIsTwosComplement(k: Kind, v: int)
    requires InRange(k, v)
    ensures ToUnit(k, v) == TwosComplement(k, v)
  {
    if v < 0 {
      assert v % WORDS == v + WORDS;
    }
  }

  /** A block put together from its parts. */
  lemma BlockIsOnTheWire(head: seq<byte>, data: seq<byte>, pad: seq<byte>)
    requires |data| < WORDS && head == PutUnit(|data|) && pad == Zeros(Pad(|data|))
    ensures BlockOnTheWire(data, head + data + pad)
  {
    var b := head + data + pad;
    UnitIsBigEndian(|data|, head);
    assert b[..4] == head && b[4..4 + |data|] == data;
  }

  /** And taken apart. */
  lemma BlockHasParts(head: seq<byte>, data: seq<byte>, pad: seq<byte>, b: seq<byte>)
    requires |data| < WORDS && head == PutUnit(|data|) && pad == Zeros(Pad(|data|))
    requires BlockOnTheWire(data, b)
    ensures b == head + data + pad
  {
    UnitIsBigEndian(|data|, b[..4]);
    SamePadding(|b|, 4 + |data| + |pad|, |data|);
    assert b[4 + |data|..] == pad;
    assert b == b[..4] + b[4..4 + |data|] + b[4 + |data|..];
  }

  lemma CountedIsOnTheWire(k: Kind, f: Field, b: seq<byte>)
    requires Counted(k) && Fits(k, f) && Encodable(k, f)
    ensures OnTheWire(k, f, b) <==> b == Encode(k, f)
  {
    var head, pad := PutUnit(|f.data|), Zeros(Pad(|f.data|));
    BlockIsOnTheWire(head, f.data, pad);
    if BlockOnTheWire(f.data, b) {
      BlockHasParts(head, f.data, pad, b);
    }
  }

  lemma SamePadding(a: nat, b: nat, n: nat)
    requires a % 4 == 0 && b % 4 == 0 && 4 + n <= a < 8 + n && 4 + n <= b < 8 + n
    ensures a == b
  {}

  /** A field is encoded as what is prescribed for it, and as nothing else. */
  lemma EncodeIsOnTheWire(k: Kind, f: Field, b: seq<byte>)
    requires Fits(k, f) && Encodable(k, f)
    ensures OnTheWire(k, f, b) <==> b == Encode(k, f)
  {
    if Counted(k) {
      CountedIsOnTheWire(k, f, b);
    } else {
      ToUnitIsTwosComplement(k, f.value);
      var w := ToUnit(k, f.value);
      assert Encode(k, f) == PutUnit(w);
      if |b| == UNIT {
        UnitIsBigEndian(w, b);
      }
    }
  }

  /** The value a scalar keeps of a word: as many low bits as it has, and of a boolean whether there are any. */
  predicate ReadsAs(k: Kind, w: nat, v: int) {
    && InRange(k, v)
    && match k
       case Int | Enum | UInt => v % 0x1_0000_0000 == w % 0x1_0000_0000
       case UShort => v % 0x1_0000 == w % 0x1_0000
       case Char | UChar => v % 0x100 == w % 0x100
       case Bool => v == if w == 0 then 0 else 1
       case Opaque(_) | Text(_) => false
  }

  /** A scalar decodes from any four bytes, to what it keeps of them. */
  lemma ScalarReadsTheWire(k: Kind, b: seq<byte>)
    requires !Counted(k)
    ensures var r := Decode(k, b);
      && (r.Decoded? <==> |b| >= 4)
      && (r.Decoded? ==> r.value.Word? && ReadsAs(k, BigEndian(b[..4]), r.value.value) && r.rest == b[4..])
  {
    if |b| >= 4 {
      GetUnitIsBigEndian(b);
      KeepsLowBits(k, GetUnit(b));
    }
  }

  lemma KeepsLowBits(k: Kind, w: nat)
    requires !Counted(k) && w < WORDS
    ensures ReadsAs(k, w, FromUnit(k, w))
  {}

  /**
    A counted field decodes if and only if its length is within the maximum and its bytes
    and padding are there, whatever the padding holds; a text then ends at its first NUL.
   */
  lemma CountedReadsTheWire(k: Kind, b: seq<byte>, n: nat)
    requires Counted(k) && (|b| >= 4 ==> n == BigEndian(b[..4]))
    ensures var r := Decode(k, b);
      && (r.Decoded? <==> |b| >= 4 && n <= k.max && |b| >= 4 + (n + 3) / 4 * 4)
      && (r.Decoded? ==>
            && r.rest == b[4 + (n + 3) / 4 * 4..]
            && r.value.Bytes?
            && (k.Opaque? ==> r.value.data == b[4..4 + n])
            && (k.Text? ==> && r.value.data <= b[4..4 + n] && 0 !in r.value.data
                            && (|r.value.data| < n ==> b[4 + |r.value.data|] == 0)))
  {
    assert n + Pad(n) == (n + 3) / 4 * 4;
    if |b| >= 4 {
      GetUnitIsBigEndian(b);
      if n <= k.max && |b| >= 4 + (n + 3) / 4 * 4 {
        assert b[4..][..n] == b[4..4 + n] && b[4..][n + Pad(n)..] == b[4 + n + Pad(n)..];
      }
    }
  }

  // ---------- Sequences of fields ----------

  predicate AllFit(ks: seq<Kind>, fs: seq<Field>) {
    |ks| == |fs| && forall i | 0 <= i < |ks| :: Fits(ks[i], fs[i])
  }

  predicate AllCanonical(ks: seq<Kind>, fs: seq<Field>) {
    |ks| == |fs| && forall i | 0 <= i < |ks| :: Canonical(ks[i], fs[i])
  }

  predicate AllEncodable(ks: seq<Kind>, fs: seq<Field>) {
    |ks| == |fs| && forall i | 0 <= i < |ks| :: Encodable(ks[i], fs[i])
  }

  function EncodeAll(ks: seq<Kind>, fs: seq<Field>): seq<byte>
    requires AllFit(ks, fs) && AllEncodable(ks, fs)
    decreases ks
  {
    if ks == [] then [] else Encode(ks[0], fs[0]) + EncodeAll(ks[1..], fs[1..])
  }

  function DecodeAll(ks: seq<Kind>, b: seq<byte>): (r: Decoded<seq<Field>>)
    ensures r.Decoded? ==> |r.value| == |ks|
    decreases ks
  {
    if ks == [] then Decoded([], b)
    else
      var first := Decode(ks[0], b);
      if first.Failed? then Failed
      else
        var others := DecodeAll(ks[1..], first.rest);
        if others.Failed? then Failed else Decoded([first.value] + others.value, others.rest)
  }

  function UnitsAll(fs: seq<Field>): nat {
    if fs == [] then 0 else Units(fs[0]) + UnitsAll(fs[1..])
  }

  /** An encoding is exactly as many four-byte units long as its fields take. */
  lemma {:induction false} EncodingSize(ks: seq<Kind>, fs: seq<Field>)
    requires AllFit(ks, fs) && AllEncodable(ks, fs)
    ensures |EncodeAll(ks, fs)| == UNIT * UnitsAll(fs)
    decreases ks
  {
    if ks == [] {
    } else {
      FieldSize(ks[0], fs[0]);
      EncodingSize(ks[1..], fs[1..]);
    }
  }

  /** Where field i starts: behind all units of the fields before it. */
  function Offset(fs: seq<Field>, i: nat): nat
    requires i <= |fs|
    decreases i
  {
    if i == 0 then 0 else UNIT * Units(fs[0]) + Offset(fs[1..], i - 1)
  }

  /** The bytes from one offset to another are this. */
  predicate Holds(b: seq<byte>, from: nat, to: nat, e: seq<byte>) {
    from <= to <= |b| && b[from..to] == e
  }

  lemma HoldsFurtherOn(head: seq<byte>, tail: seq<byte>, from: nat, to: nat, e: seq<byte>)
    requires Holds(tail, from, to, e)
    ensures Holds(head + tail, |head| + from, |head| + to, e)
  {}

  lemma HoldsFirst(head: seq<byte>, tail: seq<byte>)
    ensures Holds(head + tail, 0, |head|, head)
  {}

  /** Each field of an encoding stands in its place, in order. */
  lemma {:induction false} FieldsInOrder(ks: seq<Kind>, fs: seq<Field>, i: nat, e: seq<byte>)
    requires AllFit(ks, fs) && AllEncodable(ks, fs) && i < |ks| && e == Encode(ks[i], fs[i])
    ensures Holds(EncodeAll(ks, fs), Offset(fs, i), Offset(fs, i + 1), e)
    decreases i
  {
    if i == 0 {
      FirstInOrder(ks, fs, e, EncodeAll(ks[1..], fs[1..]));
    } else {
      FieldsInOrder(ks[1..], fs[1..], i - 1, e);
      OtherInOrder(ks, fs, i, e);
    }
  }

  lemma FirstInOrder(ks: seq<Kind>, fs: seq<Field>, e: seq<byte>, tail: seq<byte>)
    requires ks != [] && AllFit(ks, fs) && AllEncodable(ks, fs)
    requires e == Encode(ks[0], fs[0]) && tail == EncodeAll(ks[1..], fs[1..])
    ensures Holds(EncodeAll(ks, fs), Offset(fs, 0), Offset(fs, 1), e)
  {
    FieldSize(ks[0], fs[0]);
    HoldsFirst(e, tail);
    assert Offset(fs, 1) == |e|;
  }

  lemma OtherInOrder(ks: seq<Kind>, fs: seq<Field>, i: nat, e: seq<byte>)
    requires 0 < i < |ks| && AllFit(ks, fs) && AllEncodable(ks, fs)
    requires Holds(EncodeAll(ks[1..], fs[1..]), Offset(fs[1..], i - 1), Offset(fs[1..], i), e)
    ensures Holds(EncodeAll(ks, fs), Offset(fs, i), Offset(fs, i + 1), e)
  {
    var head, tail := Encode(ks[0], fs[0]), EncodeAll(ks[1..], fs[1..]);
    FieldSize(ks[0], fs[0]);
    HoldsFurtherOn(head, tail, Offset(fs[1..], i - 1), Offset(fs[1..], i), e);
  }

  /** The first field of an encoding is its head; `tail` is what follows. */
  lemma EncodingSplits(ks: seq<Kind>, fs: seq<Field>, rest: seq<byte>, head: seq<byte>, tail: seq<byte>)
    requires ks != [] && AllFit(ks, fs) && AllEncodable(ks, fs)
    requires head == Encode(ks[0], fs[0]) && tail == EncodeAll(ks[1..], fs[1..]) + rest
    ensures EncodeAll(ks, fs) + rest == head + tail
  {}

  /** Decoding one field and then the others. */
  lemma DecodeCons(ks: seq<Kind>, b: seq<byte>, first: Decoded<Field>, others: Decoded<seq<Field>>)
    requires ks != [] && first == Decode(ks[0], b)
    requires first.Decoded? ==> others == DecodeAll(ks[1..], first.rest)
    ensures DecodeAll(ks, b) ==
            if first.Failed? || others.Failed? then Failed else Decoded([first.value] + others.value, others.rest)
  {}

  /** Decoding inverts encoding for every layout, value and continuation. */
  lemma {:induction false} RoundTrip(ks: seq<Kind>, fs: seq<Field>, rest: seq<byte>)
    requires AllFit(ks, fs) && AllEncodable(ks, fs) && AllCanonical(ks, fs)
    ensures DecodeAll(ks, EncodeAll(ks, fs) + rest) == Decoded(fs, rest)
    decreases ks
  {
    if ks == [] {
      assert [] + rest == rest;
    } else {
      var head, tail := Encode(ks[0], fs[0]), EncodeAll(ks[1..], fs[1..]) + rest;
      EncodingSplits(ks, fs, rest, head, tail);
      FieldRoundTrip(ks[0], fs[0], tail);
      RoundTrip(ks[1..], fs[1..], rest);
      DecodeCons(ks, head + tail, Decoded(fs[0], tail), Decoded(fs[1..], rest));
      assert [fs[0]] + fs[1..] == fs;
    }
  }

  /** A prefix that ends in the first field, and one that does not. */
  lemma ShortPrefix(ks: seq<Kind>, fs: seq<Field>, p: nat, head: seq<byte>, b: seq<byte>)
    requires ks != [] && AllFit(ks, fs) && AllEncodable(ks, fs) && p <= |EncodeAll(ks, fs)|
    requires b == EncodeAll(ks, fs)[..p] && head == Encode(ks[0], fs[0]) && p < |head|
    ensures b == head[..p]
  {}

  lemma LongPrefix(
      ks: seq<Kind>, fs: seq<Field>, p: nat, head: seq<byte>, tail: seq<byte>, more: seq<byte>, b: seq<byte>)
    requires ks != [] && AllFit(ks, fs) && AllEncodable(ks, fs) && p <= |EncodeAll(ks, fs)|
    requires b == EncodeAll(ks, fs)[..p] && head == Encode(ks[0], fs[0]) && |head| <= p
    requires tail == EncodeAll(ks[1..], fs[1..]) && p - |head| <= |tail| && more == tail[..p - |head|]
    ensures b == head + more
  {}

  /** Encodings are as long as their parts. */
  lemma EncodingLength(ks: seq<Kind>, fs: seq<Field>)
    requires ks != [] && AllFit(ks, fs) && AllEncodable(ks, fs)
    ensures |EncodeAll(ks, fs)| == |Encode(ks[0], fs[0])| + |EncodeAll(ks[1..], fs[1..])|
  {}

  lemma {:induction false} CutEncodingFails(ks: seq<Kind>, fs: seq<Field>, p: nat, b: seq<byte>)
    requires AllFit(ks, fs) && AllEncodable(ks, fs) && AllCanonical(ks, fs)
    requires p < |EncodeAll(ks, fs)| && b == EncodeAll(ks, fs)[..p]
    ensures DecodeAll(ks, b).Failed?
    decreases ks
  {
    var head, tail := Encode(ks[0], fs[0]), EncodeAll(ks[1..], fs[1..]);
    EncodingLength(ks, fs);
    if p < |head| {
      ShortPrefix(ks, fs, p, head, b);
      FieldNeedsAll(ks[0], fs[0], p);
      DecodeCons(ks, b, Failed, Failed);
    } else {
      var more := tail[..p - |head|];
      LongPrefix(ks, fs, p, head, tail, more, b);
      FieldRoundTrip(ks[0], fs[0], more);
      CutEncodingFails(ks[1..], fs[1..], p - |head|, more);
      DecodeCons(ks, b, Decoded(fs[0], more), Failed);
    }
  }

  /** No proper prefix of an encoding decodes. */
  lemma PrefixFails(ks: seq<Kind>, fs: seq<Field>, p: nat)
    requires AllFit(ks, fs) && AllEncodable(ks, fs) && AllCanonical(ks, fs)
    requires p < |EncodeAll(ks, fs)|
    ensures DecodeAll(ks, EncodeAll(ks, fs)[..p]).Failed?
  {
    CutEncodingFails(ks, fs, p, EncodeAll(ks, fs)[..p]);
  }

  /** Encodings are prefix-free, hence injective: one is a prefix of another only for equal values. */
  lemma {:induction false} PrefixFree(ks: seq<Kind>, fs: seq<Field>, gs: seq<Field>)
    requires AllFit(ks, fs) && AllEncodable(ks, fs) && AllCanonical(ks, fs)
    requires AllFit(ks, gs) && AllEncodable(ks, gs) && AllCanonical(ks, gs)
    ensures EncodeAll(ks, fs) <= EncodeAll(ks, gs) <==> fs == gs
  {
    var a, b := EncodeAll(ks, fs), EncodeAll(ks, gs);
    if a <= b {
      assert b == a + b[|a|..] && b == b + [];
      OneDecoding(ks, fs, b[|a|..], gs, [], b);
    }
  }

  lemma OneDecoding(
      ks: seq<Kind>, fs: seq<Field>, rest: seq<byte>, gs: seq<Field>, more: seq<byte>, b: seq<byte>)
    requires AllFit(ks, fs) && AllEncodable(ks, fs) && AllCanonical(ks, fs) && b == EncodeAll(ks, fs) + rest
    requires AllFit(ks, gs) && AllEncodable(ks, gs) && AllCanonical(ks, gs) && b == EncodeAll(ks, gs) + more
    ensures fs == gs && rest == more
  {
    RoundTrip(ks, fs, rest);
    RoundTrip(ks, gs, more);
  }

  /** Whatever bytes arrive, a decoded sequence is canonical and can be encoded again. */
  lemma {:induction false} DecodedIsCanonical(ks: seq<Kind>, b: seq<byte>)
    ensures var r := DecodeAll(ks, b);
      r.Decoded? ==> AllFit(ks, r.value) && AllEncodable(ks, r.value) && AllCanonical(ks, r.value)
    decreases ks
  {
    if ks == [] {
    } else {
      DecodedFieldFits(ks[0], b);
      var first := Decode(ks[0], b);
      if first.Decoded? {
        DecodedIsCanonical(ks[1..], first.rest);
      }
    }
  }
}
