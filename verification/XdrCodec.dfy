/**
  The codecs as they run: an encoder that appends to a bounded buffer and a decoder
  that advances through one, both coding a layout's fields in order, through the
  inline buffer when the stream grants it.
 */
module XdrCodec {
  import opened Common
  import opened Xdr
  import opened XdrStream

  lemma StoreOverReserved(out: seq<byte>, b: seq<byte>)
    ensures Store(out + Zeros(|b|), |out|, b) == out + b
  {}

  lemma StoreNothing(out: seq<byte>, at: int)
    ensures Store(out, at, []) == out
  {}

  lemma Shift(done: seq<Field>, f: Field, more: seq<Field>)
    ensures done + ([f] + more) == done + [f] + more
  {}

  lemma Behind(input: seq<byte>, pos: nat, n: nat)
    requires pos + n <= |input|
    ensures input[pos..][..n] == input[pos..pos + n] && input[pos..][n..] == input[pos + n..]
  {}

  class Encoder {
    var out: seq<byte>
    const capacity: nat

    constructor (capacity: nat)
      ensures out == [] && this.capacity == capacity
    {
      this.capacity := capacity;
      out := [];
    }

    method PutBytes(b: seq<byte>) returns (ok: bool)
      modifies this
      ensures Put(ok, out) == PutBlock(old(out), capacity, b)
    {
      if |out| + |b| > capacity {
        return false;
      }
      out := out + b;
      return true;
    }

    /** xdr_int, xdr_bool, xdr_bytes and the other primitives. */
    method PutOne(k: Kind, f: Field) returns (ok: bool)
      requires Fits(k, f)
      modifies this
      ensures Put(ok, out) == PutField(old(out), capacity, k, f)
      ensures ok <==> Encodable(k, f) && |old(out)| + UNIT * Units(f) <= capacity
      ensures old(out) <= out && (ok ==> OnTheWire(k, f, out[|old(out)|..]))
    {
      PutFieldIsOnTheWire(out, capacity, k, f);
      if !Counted(k) {
        ok := PutBytes(PutUnit(ToUnit(k, f.value)));
        return ok;
      }
      ok := PutBytes(PutUnit(|f.data|));
      if !ok {
        return false;
      }
      if |f.data| > k.max {
        return false;
      }
      ok := PutBytes(f.data + Zeros(Pad(|f.data|)));
    }

    /** Fields one after the other; the first that fails ends the codec. */
    method PutEach(ks: seq<Kind>, fs: seq<Field>) returns (ok: bool)
      requires AllFit(ks, fs)
      modifies this
      ensures Put(ok, out) == PutFields(old(out), capacity, ks, fs)
    {
      var i := 0;
      ghost var whole := PutFields(out, capacity, ks, fs);
      assert ks[0..] == ks && fs[0..] == fs;
      while i < |ks|
        invariant 0 <= i <= |ks| && AllFit(ks[i..], fs[i..])
        invariant whole == PutFields(out, capacity, ks[i..], fs[i..])
      {
        assert ks[i..][0] == ks[i] && ks[i..][1..] == ks[i + 1..];
        assert fs[i..][0] == fs[i] && fs[i..][1..] == fs[i + 1..];
        ok := PutOne(ks[i], fs[i]);
        if !ok {
          return false;
        }
        i := i + 1;
      }
      return true;
    }

    /** XDR_INLINE: a place to write n bytes, or nothing. */
    method Reserve(n: nat, granted: bool) returns (at: Option<nat>)
      modifies this
      ensures if granted && |old(out)| + n <= capacity
              then at == Some(|old(out)|) && out == old(out) + Zeros(n)
              else at == None && out == old(out)
    {
      if !granted || |out| + n > capacity {
        return None;
      }
      at := Some(|out|);
      out := out + Zeros(n);
    }

    /** The span: IXDR_PUT_* through the cursor, or the fields one by one. */
    method PutInlineSpan(ks: seq<Kind>, fs: seq<Field>, granted: bool) returns (ok: bool)
      requires AllFit(ks, fs) && AllInlinable(ks)
      modifies this
      ensures Put(ok, out) == PutSpan(old(out), capacity, ks, fs, granted)
    {
      var at := Reserve(UNIT * |ks|, granted);
      if at.None? {
        ok := PutEach(ks, fs);
        return ok;
      }
      var cursor, i := at.value, 0;
      ghost var whole := old(out) + RawUnits(fs);
      StoreOverReserved(old(out), RawUnits(fs));
      assert fs[0..] == fs;
      while i < |fs|
        invariant 0 <= i <= |fs|
        invariant Store(out, cursor, RawUnits(fs[i..])) == whole
      {
        var w := RawUnit(fs[i].value);
        assert fs[i..][0] == fs[i] && fs[i..][1..] == fs[i + 1..];
        StoreTwice(out, cursor, PutUnit(w), RawUnits(fs[i + 1..]));
        out := Store(out, cursor, PutUnit(w));
        cursor := cursor + UNIT;
        i := i + 1;
      }
      StoreNothing(out, cursor);
      return true;
    }

    /** A whole xdr_* routine in XDR_ENCODE mode. */
    method PutAll(l: Layout, fs: seq<Field>, granted: bool) returns (ok: bool)
      requires l.Valid() && AllFit(l.kinds, fs)
      modifies this
      ensures Put(ok, out) == PutMessage(old(out), capacity, l, fs, granted)
    {
      var i, j := l.start, l.start + l.count;
      ok := PutEach(l.kinds[..i], fs[..i]);
      if !ok {
        return false;
      }
      ok := PutInlineSpan(l.kinds[i..j], fs[i..j], granted);
      if !ok {
        return false;
      }
      ok := PutEach(l.kinds[j..], fs[j..]);
    }
  }

  class Decoder {
    const input: seq<byte>
    var pos: nat
    var objp: seq<Field>  // the members filled so far

    ghost predicate Valid() reads this { pos <= |input| }

    ghost function Rest(): seq<byte>
      requires Valid()
      reads this
    {
      input[pos..]
    }

    constructor (input: seq<byte>)
      ensures Valid() && this.input == input && Rest() == input && objp == []
    {
      this.input := input;
      pos, objp := 0, [];
    }

    /** XDR_GETLONG. */
    method GetLong() returns (w: Option<nat>)
      requires Valid()
      modifies this`pos
      ensures Valid()
      ensures var b := old(Rest());
        if |b| < UNIT then w == None && Rest() == b else w == Some(GetUnit(b)) && Rest() == b[UNIT..]
    {
      if |input| - pos < UNIT {
        return None;
      }
      w := Some(GetUnit(input[pos..]));
      Behind(input, pos, UNIT);
      pos := pos + UNIT;
    }

    /** XDR_GETBYTES. */
    method GetBytes(n: nat) returns (data: Option<seq<byte>>)
      requires Valid()
      modifies this`pos
      ensures Valid()
      ensures var b := old(Rest());
        if |b| < n then data == None && Rest() == b else data == Some(b[..n]) && Rest() == b[n..]
    {
      if |input| - pos < n {
        return None;
      }
      data := Some(input[pos..pos + n]);
      Behind(input, pos, n);
      pos := pos + n;
    }

    /** The data of xdr_bytes and xdr_string, behind their length. */
    method GetCounted(k: Kind, w: nat) returns (f: Option<Field>)
      requires Valid() && Counted(k)
      modifies this`pos
      ensures Valid()
      ensures match DecodeCounted(k, w, old(Rest()))
              case Failed => f == None && Rest() == LeftOfCounted(k, w, old(Rest()))
              case Decoded(v, rest) => f == Some(v) && Rest() == rest
    {
      if w > k.max {
        return None;
      }
      var data := GetBytes(w);
      if data.None? {
        return None;
      }
      var padding := GetBytes(Pad(w));
      if padding.None? {
        return None;
      }
      Behind(old(Rest()), w, Pad(w));
      return Some(Bytes(if k.Text? then UpToNul(data.value) else data.value));
    }

    /** xdr_int, xdr_bool, xdr_bytes and the other primitives. */
    method GetOne(k: Kind) returns (f: Option<Field>)
      requires Valid()
      modifies this`pos
      ensures Valid()
      ensures match Decode(k, old(Rest()))
              case Failed => f == None && Rest() == LeftBehind(k, old(Rest()))
              case Decoded(v, rest) => f == Some(v) && Rest() == rest
    {
      var w := GetLong();
      if w.None? {
        return None;
      }
      if Counted(k) {
        f := GetCounted(k, w.value);
      } else {
        f := Some(Word(FromUnit(k, w.value)));
      }
    }

    /** Fills one member after the other; the first field that fails ends the codec. */
    method GetEach(ks: seq<Kind>) returns (ok: bool)
      requires Valid()
      modifies this
      ensures Valid()
      ensures var g := Fill(ks, old(Rest()));
        ok == g.ok && objp == old(objp) + g.fields && Rest() == g.rest
    {
      var i := 0;
      ghost var whole := Fill(ks, Rest());
      assert ks[0..] == ks;
      while i < |ks|
        invariant Valid() && 0 <= i <= |ks|
        invariant var g := Fill(ks[i..], Rest());
          whole.ok == g.ok && old(objp) + whole.fields == objp + g.fields && whole.rest == g.rest
      {
        assert ks[i..][0] == ks[i] && ks[i..][1..] == ks[i + 1..];
        var f := GetOne(ks[i]);
        if f.None? {
          return false;
        }
        Shift(objp, f.value, Fill(ks[i + 1..], Rest()).fields);
        objp := objp + [f.value];
        i := i + 1;
      }
      return true;
    }

    /** The span: IXDR_GET_* through the cursor when the stream grants it, or the fields one by one. */
    method GetInlineSpan(ks: seq<Kind>, granted: bool) returns (ok: bool)
      requires Valid() && AllInlinable(ks)
      modifies this
      ensures Valid()
      ensures var g := FillSpan(ks, old(Rest()), granted);
        ok == g.ok && objp == old(objp) + g.fields && Rest() == g.rest
    {
      if !granted || pos + UNIT * |ks| > |input| {
        ok := GetEach(ks);
        return ok;
      }
      ghost var whole := RawFields(ks, Rest());
      var cursor, i := pos, 0;
      pos := pos + UNIT * |ks|;
      assert ks[0..] == ks;
      while i < |ks|
        invariant 0 <= i <= |ks| && cursor == old(pos) + UNIT * i && pos == old(pos) + UNIT * |ks| <= |input|
        invariant old(objp) + whole == objp + RawFields(ks[i..], input[cursor..])
      {
        assert ks[i..][0] == ks[i] && ks[i..][1..] == ks[i + 1..];
        Behind(input, cursor, UNIT);
        var f := Word(RawValue(ks[i], GetUnit(input[cursor..])));
        Shift(objp, f, RawFields(ks[i + 1..], input[cursor + UNIT..]));
        objp := objp + [f];
        cursor := cursor + UNIT;
        i := i + 1;
      }
      Behind(input, old(pos), UNIT * |ks|);
      return true;
    }

    /** A codec from its span on. */
    method GetSpanAndTail(l: Layout, granted: bool) returns (ok: bool)
      requires Valid() && l.Valid()
      modifies this
      ensures Valid()
      ensures var g := FillFromSpan(l, old(Rest()), granted);
        ok == g.ok && objp == old(objp) + g.fields && Rest() == g.rest
    {
      var i, j := l.start, l.start + l.count;
      ghost var span := FillSpan(l.kinds[i..j], Rest(), granted);
      ok := GetInlineSpan(l.kinds[i..j], granted);
      if !ok {
        return false;
      }
      ghost var tail := Fill(l.kinds[j..], Rest());
      ok := GetEach(l.kinds[j..]);
      Associate(old(objp), span.fields, tail.fields);
    }

    /** A whole xdr_* routine in XDR_DECODE mode. */
    method GetAll(l: Layout, granted: bool) returns (ok: bool)
      requires Valid() && l.Valid()
      modifies this
      ensures Valid()
      ensures var g := FillMessage(l, old(Rest()), granted);
        ok == g.ok && objp == old(objp) + g.fields && Rest() == g.rest
    {
      ghost var head := Fill(l.kinds[..l.start], Rest());
      ok := GetEach(l.kinds[..l.start]);
      if !ok {
        return false;
      }
      ghost var others := FillFromSpan(l, Rest(), granted);
      ok := GetSpanAndTail(l, granted);
      Associate(old(objp), head.fields, others.fields);
    }
  }
}
