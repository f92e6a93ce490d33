/** Types shared by the modules of the project. */
module Common {
  type byte = x: int | 0 <= x < 256

  datatype Option<+T> = None | Some(value: T)

  /** A buffer after data was stored at an offset; what falls outside the buffer is not shown. */
  function Store(buf: seq<byte>, offset: int, data: seq<byte>): (r: seq<byte>)
    ensures |r| == |buf|
  {
    seq(|buf|, i requires 0 <= i < |buf| => if offset <= i < offset + |data| then data[i - offset] else buf[i])
  }

  /** Two stores in a row are one store of the concatenation. */
  lemma StoreTwice(buf: seq<byte>, offset: int, a: seq<byte>, b: seq<byte>)
    ensures Store(Store(buf, offset, a), offset + |a|, b) == Store(buf, offset, a + b)
  {}

  lemma StoreAtStart(buf: seq<byte>, a: seq<byte>)
    requires |a| <= |buf|
    ensures Store(buf, 0, a) == a + buf[|a|..]
  {}

  lemma Associate<T>(a: seq<T>, b: seq<T>, c: seq<T>)
    ensures (a + b) + c == a + (b + c)
  {}

  lemma CutTail<T>(s: seq<T>, i: nat, j: nat)
    requires i <= j <= |s|
    ensures s[i..] == s[i..j] + s[j..]
  {}

  lemma CutHead<T>(s: seq<T>, i: nat)
    requires i <= |s|
    ensures s == s[..i] + s[i..]
  {}
}
