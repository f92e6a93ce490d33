/**
  `vxi11_receive`: the client side of device_read (section B.6.4 of VXI-11
  Revision 1.0).  The device answers each read with a piece of its message and a
  reason; the loop reads on while the reason is zero.
 */
module Vxi11Receive {
  import opened Common

  const REASON_REQCNT := 1      // requestSize bytes were transferred
  const RECEIVE_TERM_CHAR_BIT := 2
  const RECEIVE_END_BIT := 4

  /** One answer to device_read_1. */
  datatype Reply = RpcFailure | Reply(error: int, reason: int, data: seq<byte>)

  /** `Pending` means that the call is still waiting for a reply. */
  datatype Outcome =
    | Pending(buf: seq<byte>)
    | Failed(buf: seq<byte>)
    | Received(count: int, buf: seq<byte>)

  /** Conversion to a 32-bit `int`, by wrap-around. */
  function ToInt32(x: int): int {
    var u := x % 0x1_0000_0000;
    if u < 0x8000_0000 then u else u - 0x1_0000_0000
  }

  /** Bit test on a two's complement integer; `bit` is a power of two. */
  predicate HasBit(x: int, bit: int)
    requires bit > 0
  {
    x / bit % 2 == 1
  }

  /** The loop's two exits: END or CHR leave by `break`, any other reason fails the loop test. */
  predicate Stops(reason: int) {
    HasBit(reason, RECEIVE_END_BIT) || HasBit(reason, RECEIVE_TERM_CHAR_BIT) || reason != 0
  }

  /** The running total, a C `int`; it is also the offset. */
  function Advance(total: int, data: seq<byte>): int {
    if |data| > 0 then ToInt32(total + |data|) else total
  }

  /** What the call does with a stream of replies, given the bytes received so far. */
  function Receive(buf: seq<byte>, length: int, total: int, replies: seq<Reply>): (o: Outcome)
    ensures |o.buf| == |buf|
    decreases replies
  {
    if replies == [] then Pending(buf)
    else match replies[0]
         case RpcFailure => Failed(buf)
         case Reply(error, reason, data) =>
           var buf' := Store(buf, total, data);
           var total' := Advance(total, data);
           if error != 0 then Failed(buf')
           else if |data| > 0 && total' > length then Failed(buf')
           else if Stops(reason) then Received(total', buf')
           else Receive(buf', length, total', replies[1..])
  }

  datatype Result = Blocked | Returned(code: int)

  /** Where the RPC layer puts the data of a reply: straight into the caller's buffer. */
  method Deposit(message: array<byte>, offset: int, data: seq<byte>)
    modifies message
    ensures message[..] == Store(old(message[..]), offset, data)
  {
    var k := 0;
    while k < |data|
      invariant 0 <= k <= |data|
      invariant message[..] == Store(old(message[..]), offset, data[..k])
    {
      if 0 <= offset + k < message.Length {
        message[offset + k] := data[k];
      }
      k := k + 1;
    }
    assert data[..k] == data;
  }

  /**
    The call waits as long as every reply asks for more.  The first one that does not ends
    it: with the number of bytes in all replies, as an `int`, if it is acceptable, and with
    -1 if not.
   */
  method Vxi11Receive(message: array<byte>, length: int, replies: seq<Reply>) returns (result: Result)
    modifies message
    ensures match Receive(old(message[..]), length, 0, replies)
            case Pending(buf) => message[..] == buf && result == Blocked
            case Failed(buf) => message[..] == buf && result == Returned(-1)
            case Received(n, buf) => message[..] == buf && result == Returned(n)
    ensures result == Blocked <==> AllContinue(length, 0, replies)
    ensures result == Blocked ==> message[..] == Deposited(old(message[..]), 0, replies)
    ensures forall k :: StopsBadlyAt(length, replies, k) ==> result == Returned(-1)
    ensures forall k :: StopsWellAt(length, replies, k) ==> result == Returned(ToInt32(|Data(replies[..k + 1])|))
    ensures forall k :: FirstStop(length, 0, replies, k) ==>
              message[..] == Deposited(old(message[..]), 0, replies[..k + 1])
  {
    ClosedForm(message[..], length, replies);
    var responseLength := 0;
    var offset := 0;
    ghost var whole := Receive(message[..], length, 0, replies);
    var k := 0;
    while true
      invariant 0 <= k <= |replies|
      invariant offset == responseLength
      invariant Receive(message[..], length, offset, replies[k..]) == whole
      decreases |replies| - k
    {
      if k == |replies| {
        return Blocked;
      }
      var reply := replies[k];
      assert replies[k..][0] == reply && replies[k..][1..] == replies[k + 1..];
      k := k + 1;
      if reply.RpcFailure? {
        return Returned(-1);
      }
      Deposit(message, offset, reply.data);
      if reply.error != 0 {
        return Returned(-1);
      }
      if |reply.data| > 0 {
        responseLength := ToInt32(responseLength + |reply.data|);
        if responseLength > length {
          return Returned(-1);
        }
        offset := ToInt32(offset + |reply.data|);
      }
      if HasBit(reply.reason, RECEIVE_END_BIT) || HasBit(reply.reason, RECEIVE_TERM_CHAR_BIT) {
        return Returned(responseLength);
      }
      if reply.reason != 0 {
        return Returned(responseLength);
      }
    }
  }

  // ---------- Arbitrary reply streams ----------

  function DataOf(r: Reply): seq<byte> { if r.Reply? then r.data else [] }

  function Data(replies: seq<Reply>): seq<byte> {
    if replies == [] then []
    else DataOf(replies[0]) + Data(replies[1..])
  }

  /** An overrun is reported exactly when the total still fits an `int`. */
  lemma OverrunSeenIffNoWrap(length: int, total: int, data: seq<byte>)
    requires 0 <= total <= length < 0x8000_0000 && 0 < |data| < 0x1_0000_0000
    requires total + |data| > length
    ensures Advance(total, data) > length <==> total + |data| < 0x8000_0000
  {}

  lemma FitsInt32(x: int)
    requires -0x8000_0000 <= x < 0x8000_0000
    ensures ToInt32(x) == x
  {}

  lemma WrapOnce(a: int, b: int)
    ensures ToInt32(ToInt32(a) + b) == ToInt32(a + b)
  {}

  /** The running total is the wrapped number of bytes received. */
  lemma TotalWraps(received: int, data: seq<byte>)
    ensures Advance(ToInt32(received), data) == ToInt32(received + |data|)
  {
    WrapOnce(received, |data|);
  }

  /** The reply is well-formed, carries no device error, and leaves a total the code does not call too big. */
  predicate Accepts(length: int, before: int, r: Reply) {
    r.Reply? && r.error == 0 && (r.data == [] || ToInt32(before + |r.data|) <= length)
  }

  predicate Continues(length: int, before: int, r: Reply) {
    Accepts(length, before, r) && r.reason == 0
  }

  /**
    As long as the number of bytes fits an `int`, a reply is refused for its size
    exactly if it does not fit the buffer.
   */
  lemma AcceptsIffFits(length: int, before: int, r: Reply)
    requires r.Reply? && 0 <= before && before + |r.data| < 0x8000_0000
    ensures Accepts(length, before, r) <==> r.error == 0 && (r.data == [] || before + |r.data| <= length)
  {}

  /** All replies ask the loop to go on. */
  predicate AllContinue(length: int, total: int, replies: seq<Reply>)
    decreases replies
  {
    replies == [] ||
    (Continues(length, total, replies[0]) && AllContinue(length, total + |replies[0].data|, replies[1..]))
  }

  /** The k replies before reply k ask the loop to go on, and reply k does not. */
  predicate FirstStop(length: int, total: int, replies: seq<Reply>, k: nat)
    decreases k
  {
    && k < |replies|
    && if k == 0 then !Continues(length, total, replies[0])
       else Continues(length, total, replies[0]) && FirstStop(length, total + |replies[0].data|, replies[1..], k - 1)
  }

  /** The buffer after the data of some replies was deposited, each at the wrapped total before it. */
  function Deposited(buf: seq<byte>, total: int, replies: seq<Reply>): (r: seq<byte>)
    ensures |r| == |buf|
    decreases replies
  {
    if replies == [] then buf
    else Deposited(Store(buf, ToInt32(total), DataOf(replies[0])), total + |DataOf(replies[0])|, replies[1..])
  }

  /** As long as the total fits an `int`, the pieces follow each other. */
  lemma {:induction false} DepositedInOrder(buf: seq<byte>, total: int, replies: seq<Reply>)
    requires 0 <= total && total + |Data(replies)| < 0x8000_0000
    ensures Deposited(buf, total, replies) == Store(buf, total, Data(replies))
    decreases replies
  {
    if replies == [] {
      assert Store(buf, total, []) == buf;
    } else {
      var data, rest := DataOf(replies[0]), replies[1..];
      FitsInt32(total);
      assert |Data(replies)| == |data| + |Data(rest)|;
      DepositedInOrder(Store(buf, total, data), total + |data|, rest);
      StoreTwice(buf, total, data, Data(rest));
    }
  }

  /** One accepted reply that asks for more: the loop goes round. */
  lemma {:induction false} GoesRound(buf: seq<byte>, length: int, total: int, replies: seq<Reply>)
    requires replies != [] && Continues(length, total, replies[0])
    ensures var data := replies[0].data;
      Receive(buf, length, ToInt32(total), replies) ==
      Receive(Store(buf, ToInt32(total), data), length, ToInt32(total + |data|), replies[1..])
  {
    TotalWraps(total, replies[0].data);
  }

  /** One reply that ends the loop. */
  lemma {:induction false} Ends(buf: seq<byte>, length: int, total: int, replies: seq<Reply>)
    requires replies != [] && !Continues(length, total, replies[0])
    ensures var buf' := Store(buf, ToInt32(total), DataOf(replies[0]));
      Receive(buf, length, ToInt32(total), replies) ==
      if Accepts(length, total, replies[0]) then Received(ToInt32(total + |DataOf(replies[0])|), buf') else Failed(buf')
  {
    TotalWraps(total, DataOf(replies[0]));
    assert Store(buf, ToInt32(total), []) == buf;
  }

  /** The verdict on a stream whose reply k is the first that does not ask for more. */
  ghost predicate Verdict(buf: seq<byte>, length: int, total: int, replies: seq<Reply>, k: nat, o: Outcome)
    requires k < |replies|
  {
    var buf' := Deposited(buf, total, replies[..k + 1]);
    o == if Accepts(length, total + |Data(replies[..k])|, replies[k])
         then Received(ToInt32(total + |Data(replies[..k + 1])|), buf')
         else Failed(buf')
  }

  lemma {:induction false} DepositedPrefix(buf: seq<byte>, total: int, replies: seq<Reply>, i: nat)
    requires 0 < i <= |replies|
    ensures var data := DataOf(replies[0]);
      Deposited(buf, total, replies[..i]) ==
      Deposited(Store(buf, ToInt32(total), data), total + |data|, replies[1..][..i - 1])
  {
    assert replies[..i][1..] == replies[1..][..i - 1];
  }

  lemma VerdictOneLater(buf: seq<byte>, length: int, total: int, replies: seq<Reply>, k: nat, o: Outcome)
    requires 0 < k < |replies| && replies[0].Reply?
    requires var data := replies[0].data;
      Verdict(Store(buf, ToInt32(total), data), length, total + |data|, replies[1..], k - 1, o)
    ensures Verdict(buf, length, total, replies, k, o)
  {
    DataPrefix(replies, k);
    DataPrefix(replies, k + 1);
    DepositedPrefix(buf, total, replies, k + 1);
  }

  lemma StopsAtOnce(buf: seq<byte>, length: int, total: int, replies: seq<Reply>)
    requires replies != [] && !Continues(length, total, replies[0])
    ensures Verdict(buf, length, total, replies, 0, Receive(buf, length, ToInt32(total), replies))
  {
    assert replies[..0] == [];
    Ends(buf, length, total, replies);
    DataPrefix(replies, 1);
    DepositedPrefix(buf, total, replies, 1);
    assert replies[1..][..0] == [];
  }

  /**
    The loop in closed form, for every reply stream and every length.  If reply k is the
    first that does not ask for more, the call stops there.  It returns the number of
    bytes in all replies so far, as an `int`, if that reply is acceptable, and fails if
    it is an RPC failure, a device error or an overrun that the code sees; either way the
    buffer holds exactly what was deposited.
   */
  lemma {:induction false} StopsAtFirst(buf: seq<byte>, length: int, total: int, replies: seq<Reply>, k: nat)
    requires FirstStop(length, total, replies, k)
    ensures Verdict(buf, length, total, replies, k, Receive(buf, length, ToInt32(total), replies))
    decreases k
  {
    if k == 0 {
      StopsAtOnce(buf, length, total, replies);
    } else {
      var buf', total', rest := Store(buf, ToInt32(total), replies[0].data), total + |replies[0].data|, replies[1..];
      StopsAtFirst(buf', length, total', rest, k - 1);
      GoesRound(buf, length, total, replies);
      VerdictOneLater(buf, length, total, replies, k, Receive(buf', length, ToInt32(total'), rest));
    }
  }

  /** While every reply asks for more the call waits, holding exactly what was deposited. */
  lemma {:induction false} WaitsWhileAllContinue(buf: seq<byte>, length: int, total: int, replies: seq<Reply>)
    requires AllContinue(length, total, replies)
    ensures Receive(buf, length, ToInt32(total), replies) == Pending(Deposited(buf, total, replies))
    decreases replies
  {
    if replies == [] {
    } else {
      var data := replies[0].data;
      GoesRound(buf, length, total, replies);
      WaitsWhileAllContinue(Store(buf, ToInt32(total), data), length, total + |data|, replies[1..]);
    }
  }

  lemma {:induction false} SomeStop(length: int, total: int, replies: seq<Reply>) returns (k: nat)
    requires !AllContinue(length, total, replies)
    ensures FirstStop(length, total, replies, k)
    decreases replies
  {
    if Continues(length, total, replies[0]) {
      k := SomeStop(length, total + |replies[0].data|, replies[1..]);
      k := k + 1;
    } else {
      k := 0;
    }
  }

  ghost predicate StopsBadlyAt(length: int, replies: seq<Reply>, k: nat) {
    FirstStop(length, 0, replies, k) && !Accepts(length, |Data(replies[..k])|, replies[k])
  }

  ghost predicate StopsWellAt(length: int, replies: seq<Reply>, k: nat) {
    FirstStop(length, 0, replies, k) && Accepts(length, |Data(replies[..k])|, replies[k])
  }

  /** The whole call in closed form: every stream either waits or has a first stop. */
  lemma ClosedForm(buf: seq<byte>, length: int, replies: seq<Reply>)
    ensures var o := Receive(buf, length, 0, replies);
      && (o.Pending? <==> AllContinue(length, 0, replies))
      && (o.Pending? ==> o.buf == Deposited(buf, 0, replies))
      && (forall k :: StopsBadlyAt(length, replies, k) ==> o.Failed?)
      && (forall k :: StopsWellAt(length, replies, k) ==>
            o.Received? && o.count == ToInt32(|Data(replies[..k + 1])|))
      && (forall k :: FirstStop(length, 0, replies, k) ==> o.buf == Deposited(buf, 0, replies[..k + 1]))
  {
    forall k: nat | FirstStop(length, 0, replies, k)
      ensures Verdict(buf, length, 0, replies, k, Receive(buf, length, 0, replies))
    {
      StopsAtFirst(buf, length, 0, replies, k);
    }
    if AllContinue(length, 0, replies) {
      WaitsWhileAllContinue(buf, length, 0, replies);
    } else {
      var k := SomeStop(length, 0, replies);
      assert FirstStop(length, 0, replies, k);
    }
  }

  /** The call fails if and only if, after replies that all ask for more, one is not acceptable. */
  lemma FailsIffBadReply(buf: seq<byte>, length: int, replies: seq<Reply>)
    ensures Receive(buf, length, 0, replies).Failed? <==> exists k :: StopsBadlyAt(length, replies, k)
  {
    if k :| StopsBadlyAt(length, replies, k) {
      StopsAtFirst(buf, length, 0, replies, k);
    } else if AllContinue(length, 0, replies) {
      WaitsWhileAllContinue(buf, length, 0, replies);
    } else {
      var k := SomeStop(length, 0, replies);
      assert !StopsBadlyAt(length, replies, k);
      StopsAtFirst(buf, length, 0, replies, k);
    }
  }

  /** Each reply carries at most the bytes asked for: what the buffer has left. */
  predicate WithinRequest(length: int, replies: seq<Reply>) {
    forall k | 0 <= k < |replies| && replies[k].Reply? :: |Data(replies[..k])| + |replies[k].data| <= length
  }

  ghost predicate RefusedAt(length: int, replies: seq<Reply>, k: nat) {
    FirstStop(length, 0, replies, k) && (replies[k].RpcFailure? || replies[k].error != 0)
  }

  /** A device that never sends more than it is asked for cannot make the buffer too small. */
  lemma {:induction false} NoOverrunWithinRequest(buf: seq<byte>, length: int, replies: seq<Reply>)
    requires 0 <= length < 0x8000_0000 && WithinRequest(length, replies)
    ensures Receive(buf, length, 0, replies).Failed? <==> exists k :: RefusedAt(length, replies, k)
  {
    FailsIffBadReply(buf, length, replies);
    if k :| StopsBadlyAt(length, replies, k) {
      assert RefusedAt(length, replies, k);
    }
    if k :| RefusedAt(length, replies, k) {
      assert StopsBadlyAt(length, replies, k);
    }
  }

  lemma DataPrefix(replies: seq<Reply>, i: nat)
    requires 0 < i <= |replies|
    ensures Data(replies[..i]) == DataOf(replies[0]) + Data(replies[1..][..i - 1])
  {
    assert replies[..i][1..] == replies[1..][..i - 1];
  }

  // ---------- Conforming devices ----------

  /**
    The replies a device with the bytes `rest` still to send may give to one call:
    each carries the next bytes, at most as many as requested; REQCNT is set exactly
    when all requested bytes were sent, END only when nothing is left, and CHR never,
    because the client does not ask for a termination character.  END may be
    delayed, and empty replies may be given at any time.
   */
  predicate Conforms(rest: seq<byte>, request: int, replies: seq<Reply>)
    decreases replies
  {
    replies == [] ||
    (var r := replies[0];
     && r.Reply? && r.error == 0
     && |r.data| <= request && r.data <= rest
     && (r.reason == 0 || r.reason == 1 || r.reason == 4 || r.reason == 5)
     && (HasBit(r.reason, REASON_REQCNT) <==> |r.data| == request)
     && (HasBit(r.reason, RECEIVE_END_BIT) ==> r.data == rest)
     && if r.reason == 0 then Conforms(rest[|r.data|..], request - |r.data|, replies[1..]) else replies[1..] == [])
  }

  function Min(a: int, b: int): int { if a < b then a else b }

  function Empties(replies: seq<Reply>): nat {
    if replies == [] then 0
    else (if replies[0].Reply? && replies[0].data == [] then 1 else 0) + Empties(replies[1..])
  }

  ghost predicate Fills(buf: seq<byte>, length: int, total: int, rest: seq<byte>, o: Outcome)
    requires total <= length
  {
    var n := Min(|rest|, length - total);
    !o.Failed? && (o.Received? ==> o == Received(total + n, Store(buf, total, rest[..n])))
  }

  lemma FillsOneLater(buf: seq<byte>, length: int, total: int, rest: seq<byte>, data: seq<byte>, o: Outcome)
    requires total + |data| <= length && data <= rest
    requires Fills(Store(buf, total, data), length, total + |data|, rest[|data|..], o)
    ensures Fills(buf, length, total, rest, o)
  {
    var left := rest[|data|..];
    var n := Min(|left|, length - total - |data|);
    assert rest[..|data| + n] == data + left[..n];
    StoreTwice(buf, total, data, left[..n]);
  }

  lemma {:induction false} ConformingFills(
      buf: seq<byte>, length: int, total: int, rest: seq<byte>, replies: seq<Reply>)
    requires 0 <= total <= length < 0x8000_0000 && Conforms(rest, length - total, replies)
    ensures Fills(buf, length, total, rest, Receive(buf, length, total, replies))
    decreases replies
  {
    if replies == [] {
    } else {
      var r := replies[0];
      FitsInt32(total);
      FitsInt32(total + |r.data|);
      if r.reason == 0 {
        GoesRound(buf, length, total, replies);
        ConformingFills(Store(buf, total, r.data), length, total + |r.data|, rest[|r.data|..], replies[1..]);
        FillsOneLater(buf, length, total, rest, r.data, Receive(buf, length, total, replies));
      } else {
        Ends(buf, length, total, replies);
        assert r.data == rest[..Min(|rest|, length - total)];
      }
    }
  }

  lemma {:induction false} ConformingEnds(
      buf: seq<byte>, length: int, total: int, rest: seq<byte>, replies: seq<Reply>)
    requires 0 <= total <= length < 0x8000_0000 && Conforms(rest, length - total, replies)
    requires Receive(buf, length, total, replies).Pending?
    ensures |replies| <= |rest| + Empties(replies)
    decreases replies
  {
    if replies == [] {
    } else {
      var r := replies[0];
      FitsInt32(total);
      FitsInt32(total + |r.data|);
      if r.reason == 0 {
        GoesRound(buf, length, total, replies);
        ConformingEnds(Store(buf, total, r.data), length, total + |r.data|, rest[|r.data|..], replies[1..]);
      } else {
        Ends(buf, length, total, replies);
      }
    }
  }

  /**
    However a conforming device splits its message, the call never fails; when it
    returns, the count is the smaller of the message size and the buffer size and the
    buffer holds exactly that much of the message, the rest of it untouched; and it
    can still be waiting only if it has had no more replies than bytes and empty replies.
   */
  lemma {:induction false} ReceiveFromConforming(buf: seq<byte>, length: int, msg: seq<byte>, replies: seq<Reply>)
    requires 0 <= length < 0x8000_0000 && length <= |buf| && Conforms(msg, length, replies)
    ensures var o := Receive(buf, length, 0, replies);
            var n := Min(|msg|, length);
      && !o.Failed?
      && (o.Received? ==> o == Received(n, msg[..n] + buf[n..]))
      && (o.Pending? ==> |replies| <= |msg| + Empties(replies))
  {
    ConformingFills(buf, length, 0, msg, replies);
    if Receive(buf, length, 0, replies).Pending? {
      ConformingEnds(buf, length, 0, msg, replies);
    }
    StoreAtStart(buf, msg[..Min(|msg|, length)]);
  }

  /** The result does not depend on how the message was split into replies. */
  lemma {:induction false} ChunkingDoesNotMatter(
      buf: seq<byte>, length: int, msg: seq<byte>, one: seq<Reply>, other: seq<Reply>)
    requires 0 <= length < 0x8000_0000
    requires Conforms(msg, length, one) && Conforms(msg, length, other)
    requires Receive(buf, length, 0, one).Received? && Receive(buf, length, 0, other).Received?
    ensures Receive(buf, length, 0, one) == Receive(buf, length, 0, other)
  {
    ConformingFills(buf, length, 0, msg, one);
    ConformingFills(buf, length, 0, msg, other);
  }

  // ---------- Repeated calls against one message ----------

  datatype Call = Call(buf: seq<byte>, length: int, replies: seq<Reply>)

  /** A call that has returned, with a device that had `rest` left to send. */
  predicate Completed(rest: seq<byte>, c: Call) {
    && 0 < c.length < 0x8000_0000 && c.length <= |c.buf|
    && Conforms(rest, c.length, c.replies)
    && Receive(c.buf, c.length, 0, c.replies).Received?
  }

  /** What the caller finds in its buffer after a call. */
  function Piece(c: Call): seq<byte> {
    match Receive(c.buf, c.length, 0, c.replies)
    case Received(n, buf) => if 0 <= n <= |buf| then buf[..n] else []
    case _ => []
  }

  /** What the device still has after a call: the bytes its replies did not carry. */
  function Left(rest: seq<byte>, c: Call): seq<byte> {
    if |Data(c.replies)| <= |rest| then rest[|Data(c.replies)|..] else []
  }

  predicate AllCompleted(rest: seq<byte>, cs: seq<Call>)
    decreases cs
  {
    cs == [] || (Completed(rest, cs[0]) && AllCompleted(Left(rest, cs[0]), cs[1..]))
  }

  function Pieces(cs: seq<Call>): seq<byte> {
    if cs == [] then [] else Piece(cs[0]) + Pieces(cs[1..])
  }

  function LeftAfter(rest: seq<byte>, cs: seq<Call>): seq<byte>
    decreases cs
  {
    if cs == [] then rest else LeftAfter(Left(rest, cs[0]), cs[1..])
  }

  function TotalLength(cs: seq<Call>): int {
    if cs == [] then 0 else cs[0].length + TotalLength(cs[1..])
  }

  /** When a call returns, the device has sent exactly the bytes the call reports. */
  lemma {:induction false} SentIsReceived(
      buf: seq<byte>, length: int, total: int, rest: seq<byte>, replies: seq<Reply>)
    requires 0 <= total <= length < 0x8000_0000 && Conforms(rest, length - total, replies)
    requires Receive(buf, length, total, replies).Received?
    ensures Data(replies) == rest[..Min(|rest|, length - total)]
    decreases replies
  {
    var r := replies[0];
    assert Advance(total, r.data) == total + |r.data|;
    if r.reason == 0 {
      var left := rest[|r.data|..];
      SentIsReceived(Store(buf, total, r.data), length, total + |r.data|, left, replies[1..]);
      assert rest[..|r.data| + Min(|left|, length - total - |r.data|)] ==
             r.data + left[..Min(|left|, length - total - |r.data|)];
    } else {
      assert Data(replies) == r.data + Data([]);
    }
  }

  lemma OnePiece(rest: seq<byte>, c: Call)
    requires Completed(rest, c)
    ensures rest == Piece(c) + Left(rest, c) && |Piece(c)| == Min(|rest|, c.length)
  {
    ReceiveFromConforming(c.buf, c.length, rest, c.replies);
    SentIsReceived(c.buf, c.length, 0, rest, c.replies);
    assert Piece(c) == rest[..Min(|rest|, c.length)];
  }

  /**
    Calls with any positive buffer sizes return pieces that put together are the
    message: nothing is lost or repeated, and once the buffers cover the message
    nothing is left.
   */
  lemma {:induction false} PiecesMakeTheMessage(msg: seq<byte>, cs: seq<Call>)
    requires AllCompleted(msg, cs)
    ensures msg == Pieces(cs) + LeftAfter(msg, cs)
    ensures TotalLength(cs) >= |msg| ==> Pieces(cs) == msg
    decreases cs
  {
    if cs == [] {
    } else {
      OnePiece(msg, cs[0]);
      PiecesMakeTheMessage(Left(msg, cs[0]), cs[1..]);
    }
  }
}
