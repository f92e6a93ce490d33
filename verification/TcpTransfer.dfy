/**
  The transfer loops of the raw TCP backend.  `send` and `recv` move as many bytes
  as they like; the loops call them until the message is out, or until nothing more
  comes in.  As written they offset the buffer by the last count, not by the
  running total; the model keeps both forms side by side.
 */
module TcpTransfer {
  import opened Common

  /** What `select` reports before the loop starts. */
  datatype Select = SelectError | SelectTimeout | Ready

  /** How the loops address the buffer: by the last count, as written, or by the running total. */
  datatype Addressing = LastCount | RunningTotal

  /** `Undefined`: a call was given a negative size and left the caller's memory. */
  datatype Result = Blocked | Returned(code: int) | Undefined

  function Offset(how: Addressing, last: nat, total: nat): nat {
    if how.LastCount? then last else total
  }

  function Sum(counts: seq<nat>): nat {
    if counts == [] then 0 else counts[0] + Sum(counts[1..])
  }

  predicate AllPositive(counts: seq<nat>) {
    forall i | 0 <= i < |counts| :: counts[i] > 0
  }

  // ---------- Offsets ----------

  /**
    Where calls that move `counts` bytes address the buffer, after `total` bytes the
    last `last` of which in one call.
   */
  function Offsets(how: Addressing, last: nat, total: nat, counts: seq<nat>): seq<nat>
    decreases counts
  {
    if counts == [] then [] else [Offset(how, last, total)] + Offsets(how, counts[0], total + counts[0], counts[1..])
  }

  lemma {:induction false} OffsetsOfThree(how: Addressing, counts: seq<nat>)
    requires |counts| >= 3
    ensures |Offsets(how, 0, 0, counts)| >= 3
    ensures Offsets(how, 0, 0, counts)[2] == Offset(how, counts[1], counts[0] + counts[1])
  {
    var rest := counts[2..];
    assert counts[1..][1..] == rest;
    var third := Offsets(how, counts[1], counts[0] + counts[1], rest);
    var second := Offsets(how, counts[0], counts[0], counts[1..]);
    assert second[1..] == third;
    assert Offsets(how, 0, 0, counts)[1..] == second;
  }

  /** When every call moves something, both forms use the same offsets exactly up to two calls. */
  lemma {:induction false} SameOffsetsIffTwo(counts: seq<nat>)
    requires AllPositive(counts)
    ensures Offsets(LastCount, 0, 0, counts) == Offsets(RunningTotal, 0, 0, counts) <==> |counts| <= 2
  {
    if |counts| > 2 {
      OffsetsOfThree(LastCount, counts);
      OffsetsOfThree(RunningTotal, counts);
    } else if counts != [] {
      var n, rest := counts[0], counts[1..];
      if rest != [] {
        assert rest[1..] == [];
      }
      assert Offsets(LastCount, n, n, rest) == Offsets(RunningTotal, n, n, rest);
    }
  }

  // ---------- tcp_send ----------

  /**
    `send` returns a negative error or moves at most the bytes it was given; a negative
    number of bytes left is a huge size to it, and the loop ends with that call.
   */
  predicate SendObeys(remaining: int, rets: seq<int>)
    decreases rets
  {
    rets == [] || rets[0] < 0
    || ((remaining >= 0 ==> rets[0] <= remaining)
        && (remaining - rets[0] > 0 ==> SendObeys(remaining - rets[0], rets[1..])))
  }

  /** The counts the loop's calls of `send` move before it ends. */
  function SendCounts(remaining: int, rets: seq<int>): seq<nat>
    requires SendObeys(remaining, rets)
    decreases rets
  {
    if rets == [] || rets[0] < 0 then []
    else [rets[0]] + (if remaining - rets[0] > 0 then SendCounts(remaining - rets[0], rets[1..]) else [])
  }

  datatype End = Waiting | Failed | Done

  function SendEnd(remaining: int, rets: seq<int>): End
    requires SendObeys(remaining, rets)
    decreases rets
  {
    if rets == [] then Waiting
    else if rets[0] < 0 then Failed
    else if remaining - rets[0] > 0 then SendEnd(remaining - rets[0], rets[1..])
    else Done
  }

  /** The n bytes at an offset, if they are there. */
  function Slice(s: seq<byte>, at: nat, n: nat): (r: seq<byte>)
    ensures |r| <= n
  {
    if at + n <= |s| then s[at..at + n] else []
  }

  /** What is on the wire after the calls, given what was there before. */
  function Wire(how: Addressing, message: seq<byte>, sent: seq<byte>, last: nat, total: nat, counts: seq<nat>)
    : seq<byte>
    decreases counts
  {
    if counts == [] then sent
    else Wire(how, message, sent + Slice(message, Offset(how, last, total), counts[0]),
              counts[0], total + counts[0], counts[1..])
  }

  function SendWire(how: Addressing, message: seq<byte>, counts: seq<nat>): seq<byte> {
    Wire(how, message, [], 0, 0, counts)
  }

  /** One call seen from the specification: `after` is what is on the wire behind it. */
  lemma WireFirst(
      how: Addressing, message: seq<byte>, sent: seq<byte>, after: seq<byte>, last: nat, total: nat, counts: seq<nat>)
    requires counts != [] && Offset(how, last, total) + counts[0] <= |message|
    requires var at := Offset(how, last, total);
      after == sent + message[at..at + counts[0]]
    ensures Wire(how, message, sent, last, total, counts) ==
            Wire(how, message, after, counts[0], total + counts[0], counts[1..])
  {}

  /** The loop as a recursion: what it returns and what is on the wire then. */
  function SendLoop(message: seq<byte>, sent: seq<byte>, last: nat, total: nat, remaining: int, rets: seq<int>)
    : (Result, seq<byte>)
    decreases rets
  {
    if rets == [] then (Blocked, sent)
    else if rets[0] < 0 then (Returned(-1), sent)
    else if last + rets[0] > |message| then (Undefined, sent)
    else
      var after := sent + message[last..last + rets[0]];
      if remaining - rets[0] > 0
      then SendLoop(message, after, rets[0], total + rets[0], remaining - rets[0], rets[1..])
      else (Returned(total + rets[0]), after)
  }

  /** One successful call of `send`: what is left to count. */
  lemma CountsSplit(remaining: int, rets: seq<int>, counts: seq<nat>) returns (rest: seq<nat>)
    requires rets != [] && rets[0] >= 0 && SendObeys(remaining, rets) && counts == SendCounts(remaining, rets)
    ensures rest == if remaining - rets[0] > 0 then SendCounts(remaining - rets[0], rets[1..]) else []
    ensures counts != [] && counts[0] == rets[0] && counts[1..] == rest && Sum(counts) == rets[0] + Sum(rest)
  {
    rest := if remaining - rets[0] > 0 then SendCounts(remaining - rets[0], rets[1..]) else [];
    assert counts == [rets[0]] + rest;
  }

  /** And what is on the wire behind it. */
  lemma WireSplit(
      message: seq<byte>, sent: seq<byte>, last: nat, total: nat, counts: seq<nat>, rest: seq<nat>)
    returns (after: seq<byte>)
    requires counts != [] && counts[1..] == rest && last + counts[0] <= |message|
    ensures after == sent + message[last..last + counts[0]]
    ensures Wire(LastCount, message, sent, last, total, counts) ==
            Wire(LastCount, message, after, counts[0], total + counts[0], rest)
  {
    after := sent + message[last..last + counts[0]];
    WireFirst(LastCount, message, sent, after, last, total, counts);
  }

  /** With a length that is not negative the loop does what its counts say. */
  lemma {:induction false} SendLoopCounts(
      message: seq<byte>, sent: seq<byte>, last: nat, total: nat, remaining: nat, rets: seq<int>, counts: seq<nat>)
    requires SendObeys(remaining, rets) && counts == SendCounts(remaining, rets)
    requires last <= total && total + remaining <= |message|
    ensures SendLoop(message, sent, last, total, remaining, rets) ==
            (SendResult(true, SendEnd(remaining, rets), total + Sum(counts)),
             Wire(LastCount, message, sent, last, total, counts))
    decreases rets
  {
    if rets == [] || rets[0] < 0 {
    } else {
      var rest := CountsSplit(remaining, rets, counts);
      var after := WireSplit(message, sent, last, total, counts, rest);
      if remaining - rets[0] > 0 {
        SendLoopCounts(message, after, rets[0], total + rets[0], remaining - rets[0], rets[1..], rest);
      }
    }
  }

  /** With a negative one there is one call, which counts if it stays inside the message. */
  lemma SendLoopHuge(message: seq<byte>, length: int, rets: seq<int>, counts: seq<nat>)
    requires length < 0 && SendObeys(length, rets) && counts == SendCounts(length, rets)
    ensures var r := SendLoop(message, [], 0, 0, length, rets);
      && r.0 == SendResult(ReadsInside(message, length, rets), SendEnd(length, rets), Sum(counts))
      && (ReadsInside(message, length, rets) ==> r.1 == SendWire(LastCount, message, counts))
  {
    if rets != [] && 0 <= rets[0] <= |message| {
      var rest := CountsSplit(length, rets, counts);
      var _ := WireSplit(message, [], 0, 0, counts, rest);
    }
  }

  /** The calls read inside the message: implied for a length that is not negative. */
  predicate ReadsInside(message: seq<byte>, length: int, rets: seq<int>) {
    length < 0 && rets != [] ==> rets[0] <= |message|
  }

  /** What tcp_send returns once `select` has reported the socket writable. */
  function SendResult(inside: bool, end: End, sum: nat): Result {
    if !inside then Undefined
    else match end
         case Waiting => Blocked
         case Failed => Returned(-1)
         case Done => Returned(sum)
  }

  function Total(rets: seq<int>): int { if rets == [] then 0 else rets[0] + Total(rets[1..]) }

  /** Call i has not failed, and what has been sent then falls short of the length. */
  predicate FallsShort(length: int, rets: seq<int>, i: nat)
    requires i < |rets|
  {
    rets[i] >= 0 && Total(rets[..i + 1]) < length
  }

  /** No call has failed, and none has brought what was sent up to the length. */
  predicate Going(length: int, rets: seq<int>) {
    forall i: nat | i < |rets| :: FallsShort(length, rets, i)
  }

  /** Call k is the first to fail. */
  predicate FailsAt(length: int, rets: seq<int>, k: nat) {
    k < |rets| && Going(length, rets[..k]) && rets[k] < 0
  }

  /** Call k is the first to bring what was sent up to the length. */
  predicate DoneAt(length: int, rets: seq<int>, k: nat) {
    k < |rets| && Going(length, rets[..k]) && rets[k] >= 0 && Total(rets[..k + 1]) >= length
  }

  lemma TotalPrefix(rets: seq<int>, i: nat)
    requires 0 < i <= |rets|
    ensures Total(rets[..i]) == rets[0] + Total(rets[1..][..i - 1])
  {
    assert rets[..i][1..] == rets[1..][..i - 1];
  }

  lemma FallsShortLater(length: int, rets: seq<int>, i: nat)
    requires 0 < i < |rets|
    ensures FallsShort(length, rets, i) <==> FallsShort(length - rets[0], rets[1..], i - 1)
  {
    TotalPrefix(rets, i + 1);
  }

  lemma GoesOn(length: int, rets: seq<int>)
    requires rets != [] && Going(length, rets)
    ensures rets[0] >= 0 && length - rets[0] > 0 && Going(length - rets[0], rets[1..])
  {
    assert FallsShort(length, rets, 0);
    TotalPrefix(rets, 1);
    assert rets[1..][..0] == [];
    var left, rest := length - rets[0], rets[1..];
    forall i: nat | i < |rest| ensures FallsShort(left, rest, i) {
      FallsShortLater(length, rets, i + 1);
    }
  }

  lemma WentOn(length: int, rets: seq<int>)
    requires rets != [] && rets[0] >= 0 && length - rets[0] > 0 && Going(length - rets[0], rets[1..])
    ensures Going(length, rets)
  {
    TotalPrefix(rets, 1);
    assert rets[1..][..0] == [];
    forall i: nat | i < |rets| ensures FallsShort(length, rets, i) {
      if i > 0 {
        FallsShortLater(length, rets, i);
      }
    }
  }

  lemma {:induction false} WaitingIffGoing(length: int, rets: seq<int>)
    requires SendObeys(length, rets)
    ensures SendEnd(length, rets).Waiting? <==> Going(length, rets)
    decreases rets
  {
    if rets != [] {
      if rets[0] >= 0 && length - rets[0] > 0 {
        WaitingIffGoing(length - rets[0], rets[1..]);
        if Going(length - rets[0], rets[1..]) {
          WentOn(length, rets);
        }
      }
      if Going(length, rets) {
        GoesOn(length, rets);
      }
    }
  }

  lemma {:induction false} EndsAtFirst(length: int, rets: seq<int>, k: nat)
    requires SendObeys(length, rets) && k < |rets| && Going(length, rets[..k])
    requires rets[k] < 0 || Total(rets[..k + 1]) >= length
    ensures SendEnd(length, rets) == if rets[k] < 0 then Failed else Done
    ensures rets[k] >= 0 ==> Sum(SendCounts(length, rets)) == Total(rets[..k + 1])
    decreases k
  {
    TotalPrefix(rets, k + 1);
    if rets[0] >= 0 {
      var _ := CountsSplit(length, rets, SendCounts(length, rets));
    }
    if k == 0 {
      assert rets[1..][..0] == [];
    } else {
      GoesOn(length, rets[..k]);
      assert rets[..k][1..] == rets[1..][..k - 1];
      EndsAtFirst(length - rets[0], rets[1..], k - 1);
    }
  }

  /** What the loop returns, said of the calls alone. */
  lemma SendReturns(length: int, rets: seq<int>)
    requires SendObeys(length, rets)
    ensures var r := SendResult(true, SendEnd(length, rets), Sum(SendCounts(length, rets)));
      && (r == Blocked <==> Going(length, rets))
      && (forall k :: FailsAt(length, rets, k) ==> r == Returned(-1))
      && (forall k :: DoneAt(length, rets, k) ==> r == Returned(if length >= 0 then length else rets[0]))
  {
    WaitingIffGoing(length, rets);
    forall k: nat | FailsAt(length, rets, k) || DoneAt(length, rets, k)
      ensures SendEnd(length, rets) == if rets[k] < 0 then Failed else Done
      ensures rets[k] >= 0 ==> Sum(SendCounts(length, rets)) == Total(rets[..k + 1])
    {
      EndsAtFirst(length, rets, k);
    }
    if length >= 0 {
      SendCountsUp(length, rets);
    } else {
      forall k: nat | DoneAt(length, rets, k) ensures Total(rets[..k + 1]) == rets[0] {
        NegativeEndsAtOnce(length, rets, k);
      }
    }
  }

  lemma GoingNeedsLength(length: int, rets: seq<int>, k: nat)
    requires DoneAt(length, rets, k)
    ensures k > 0 ==> length > 0
  {
    if k > 0 {
      GoesOn(length, rets[..k]);
    }
  }

  lemma NegativeEndsAtOnce(length: int, rets: seq<int>, k: nat)
    requires length < 0 && DoneAt(length, rets, k)
    ensures Total(rets[..k + 1]) == rets[0]
  {
    GoingNeedsLength(length, rets, k);
    TotalPrefix(rets, 1);
    assert rets[1..][..0] == [];
  }

  /**
    As long as the calls stay inside the message, the call waits while every `send` so far
    has sent something short of the length, returns -1 at the first that fails and the
    length at the first that completes it.
   */
  method TcpSend(ready: Select, message: seq<byte>, length: int, rets: seq<int>)
    returns (result: Result, wire: seq<byte>)
    requires SendObeys(length, rets) && length <= |message|
    ensures ready.Ready? && ReadsInside(message, length, rets) ==>
      wire == SendWire(LastCount, message, SendCounts(length, rets))
    ensures ready.Ready? ==>
      result == SendResult(ReadsInside(message, length, rets), SendEnd(length, rets), Sum(SendCounts(length, rets)))
    ensures ready.Ready? && ReadsInside(message, length, rets) ==>
      && (result == Blocked <==> Going(length, rets))
      && (forall k :: FailsAt(length, rets, k) ==> result == Returned(-1))
      && (forall k :: DoneAt(length, rets, k) ==> result == Returned(if length >= 0 then length else rets[0]))
    ensures ready.Ready? && !ReadsInside(message, length, rets) ==> result == Undefined
    ensures !ready.Ready? ==> result == Returned(-1) && wire == []
  {
    SendReturns(length, rets);
    if ready.SelectError? {
      return Returned(-1), [];
    } else if ready.Ready? {
      result, wire := SendUntilDone(message, length, rets);
    } else {
      return Returned(-1), [];
    }
  }

  /** The do-while loop. */
  method SendUntilDone(message: seq<byte>, length: int, rets: seq<int>) returns (result: Result, wire: seq<byte>)
    requires SendObeys(length, rets) && length <= |message|
    ensures ReadsInside(message, length, rets) ==> wire == SendWire(LastCount, message, SendCounts(length, rets))
    ensures result ==
            SendResult(ReadsInside(message, length, rets), SendEnd(length, rets), Sum(SendCounts(length, rets)))
  {
    if length < 0 {
      SendLoopHuge(message, length, rets, SendCounts(length, rets));
    } else {
      SendLoopCounts(message, [], 0, 0, length, rets, SendCounts(length, rets));
    }
    var remaining, n, bytesSent, pending := length, 0, 0, rets;
    wire := [];
    ghost var whole := SendLoop(message, [], 0, 0, length, rets);
    while true
      invariant 0 <= n && 0 <= bytesSent
      invariant SendLoop(message, wire, n, bytesSent, remaining, pending) == whole
      decreases |pending|
    {
      if pending == [] {
        return Blocked, wire;
      }
      if pending[0] < 0 {
        return Returned(-1), wire;
      }
      if n + pending[0] > |message| {
        return Undefined, wire;
      }
      wire := wire + message[n..n + pending[0]];
      n := pending[0];
      remaining := remaining - n;
      bytesSent := bytesSent + n;
      pending := pending[1..];
      if !(remaining > 0) {
        return Returned(bytesSent), wire;
      }
    }
  }

  /** When the loop is done it has sent exactly the length asked for, and never more. */
  lemma {:induction false} SendCountsUp(remaining: nat, rets: seq<int>)
    requires SendObeys(remaining, rets)
    ensures Sum(SendCounts(remaining, rets)) <= remaining
    ensures SendEnd(remaining, rets).Done? ==> Sum(SendCounts(remaining, rets)) == remaining
    decreases rets
  {
    if rets == [] || rets[0] < 0 {
    } else {
      var rest := if remaining - rets[0] > 0 then SendCounts(remaining - rets[0], rets[1..]) else [];
      assert SendCounts(remaining, rets)[1..] == rest;
      if remaining - rets[0] > 0 {
        SendCountsUp(remaining - rets[0], rets[1..]);
      }
    }
  }

  /** If every call sends something, the loop is over after as many calls as there are bytes. */
  lemma {:induction false} SendTerminates(remaining: nat, rets: seq<int>)
    requires SendObeys(remaining, rets) && SendEnd(remaining, rets).Waiting?
    requires forall i | 0 <= i < |rets| :: rets[i] != 0
    ensures rets == [] || |rets| < remaining
    decreases rets
  {
    if rets == [] {
    } else {
      SendTerminates(remaining - rets[0], rets[1..]);
    }
  }

  /** Neither form ever reads outside the bytes the caller asked to send. */
  lemma {:induction false} SendReadsInside(how: Addressing, last: nat, total: nat, counts: seq<nat>, i: nat)
    requires last <= total && i < |counts|
    ensures |Offsets(how, last, total, counts)| == |counts|
    ensures Offsets(how, last, total, counts)[i] + counts[i] <= total + Sum(counts)
    decreases counts
  {
    var rest := Offsets(how, counts[0], total + counts[0], counts[1..]);
    assert Offsets(how, last, total, counts)[1..] == rest;
    if i > 0 {
      SendReadsInside(how, counts[0], total + counts[0], counts[1..], i - 1);
    } else if |counts| > 1 {
      SendReadsInside(how, counts[0], total + counts[0], counts[1..], 0);
    }
  }

  lemma Glue(sent: seq<byte>, message: seq<byte>, i: nat, j: nat, k: nat)
    requires i <= j <= k <= |message|
    ensures (sent + message[i..j]) + message[j..k] == sent + message[i..k]
  {}

  /** With the running total, the message's bytes follow each other on the wire. */
  lemma {:induction false} RunningTotalSendsMessage(
      message: seq<byte>, sent: seq<byte>, last: nat, total: nat, counts: seq<nat>)
    requires total + Sum(counts) <= |message|
    ensures Wire(RunningTotal, message, sent, last, total, counts) == sent + message[total..total + Sum(counts)]
    decreases counts
  {
    if counts == [] {
    } else {
      var n := counts[0];
      var part, rest := message[total..total + n], counts[1..];
      assert Slice(message, total, n) == part && Sum(counts) == n + Sum(rest);
      RunningTotalSendsMessage(message, sent + part, n, total + n, rest);
      Glue(sent, message, total, total + n, total + n + Sum(rest));
    }
  }

  /** Up to two calls, the loop as written sends what the running total would. */
  lemma TwoCallsSendTheSame(message: seq<byte>, counts: seq<nat>)
    requires |counts| <= 2
    ensures SendWire(LastCount, message, counts) == SendWire(RunningTotal, message, counts)
  {
    if counts != [] {
      var n, rest := counts[0], counts[1..];
      if rest != [] {
        assert rest[1..] == [];
      }
      var sent := [] + Slice(message, 0, n);
      assert Wire(LastCount, message, sent, n, n, rest) == Wire(RunningTotal, message, sent, n, n, rest);
    }
  }

  /** `send` may take a whole message at once and `recv` give one; then it arrives. */
  lemma {:induction false} OneCallIsEnough(message: seq<byte>, buf: seq<byte>)
    requires message != [] && |buf| == |message|
    ensures SendObeys(|message|, [|message|]) && SendEnd(|message|, [|message|]).Done?
    ensures SendWire(LastCount, message, SendCounts(|message|, [|message|])) == message
    ensures RecvObeys(|message|, [|message|, 0])
    ensures Filled(LastCount, buf, message, 0, 0, RecvCounts([|message|, 0])) == message
  {
    var n := |message|;
    assert SendCounts(n, [n]) == [n] && [n][1..] == [];
    SendInTwoCalls(message, [n]);
    assert [n, 0][1..] == [0] && RecvCounts([0]) == [];
    assert RecvCounts([n, 0]) == [n];
    ReceiveInTwoSegments(buf, message, n, [n, 0]);
  }

  /** What has been sent stays sent. */
  lemma {:induction false} WireKeeps(
      how: Addressing, message: seq<byte>, sent: seq<byte>, last: nat, total: nat, counts: seq<nat>, i: nat)
    requires i < |sent|
    ensures i < |Wire(how, message, sent, last, total, counts)|
    ensures Wire(how, message, sent, last, total, counts)[i] == sent[i]
    decreases counts
  {
    if counts == [] {
    } else {
      WireKeeps(how, message, sent + Slice(message, Offset(how, last, total), counts[0]),
                counts[0], total + counts[0], counts[1..], i);
    }
  }

  lemma {:induction false} SumOfThree(counts: seq<nat>)
    requires |counts| >= 3
    ensures Sum(counts) == counts[0] + counts[1] + counts[2] + Sum(counts[3..])
  {
    assert counts[1..][1..] == counts[2..] && counts[2..][1..] == counts[3..];
    assert Sum(counts[2..]) == counts[2] + Sum(counts[3..]);
    assert Sum(counts[1..]) == counts[1] + Sum(counts[2..]);
  }

  lemma WireOfThree(
      message: seq<byte>, one: seq<byte>, two: seq<byte>, three: seq<byte>, counts: seq<nat>)
    requires |counts| >= 3 && Sum(counts) <= |message|
    requires counts[0] + counts[1] + counts[2] <= |message|
    requires one == [] + message[0..counts[0]]
    requires two == one + message[counts[0]..counts[0] + counts[1]]
    requires three == two + message[counts[1]..counts[1] + counts[2]]
    ensures SendWire(LastCount, message, counts) ==
            Wire(LastCount, message, three, counts[2], counts[0] + counts[1] + counts[2], counts[3..])
  {
    var a, b, c := counts[0], counts[1], counts[2];
    assert counts[1..][1..] == counts[2..] && counts[2..][1..] == counts[3..];
    WireFirst(LastCount, message, [], one, 0, 0, counts);
    WireFirst(LastCount, message, one, two, a, a, counts[1..]);
    WireFirst(LastCount, message, two, three, b, a + b, counts[2..]);
  }

  lemma ThirdPart(x: seq<byte>, y: seq<byte>, z: seq<byte>, one: seq<byte>, two: seq<byte>, three: seq<byte>)
    requires z != [] && one == [] + x && two == one + y && three == two + z
    ensures |three| > |x| + |y| && three[|x| + |y|] == z[0]
  {}

  /** The third call starts at the second count, wherever it should have started. */
  lemma {:induction false} ThirdCallStartsAtSecondCount(message: seq<byte>, counts: seq<nat>)
    requires |counts| >= 3 && Sum(counts) <= |message| && counts[2] > 0
    ensures var a, b := counts[0], counts[1];
      b < |message| && a + b < |SendWire(LastCount, message, counts)|
      && SendWire(LastCount, message, counts)[a + b] == message[b]
  {
    var a, b, c := counts[0], counts[1], counts[2];
    SumOfThree(counts);
    var x, y, z := message[0..a], message[a..a + b], message[b..b + c];
    var one := [] + x;
    var two := one + y;
    var three := two + z;
    WireOfThree(message, one, two, three, counts);
    ThirdPart(x, y, z, one, two, three);
    WireKeeps(LastCount, message, three, c, a + b + c, counts[3..], a + b);
  }

  ghost predicate SendsEveryMessage(counts: seq<nat>) {
    forall message: seq<byte> | |message| == Sum(counts) :: SendWire(LastCount, message, counts) == message
  }

  /** A message the third call garbles: its bytes are all 0 but for one where that call should start. */
  lemma ThirdCallGarbles(counts: seq<nat>)
    requires AllPositive(counts) && |counts| > 2
    ensures !SendsEveryMessage(counts)
  {
    var a, b := counts[0], counts[1];
    var message: seq<byte> := seq(Sum(counts), k => if k == a + b then 1 else 0);
    SumOfThree(counts);
    ThirdCallStartsAtSecondCount(message, counts);
    assert message[b] == 0 && message[a + b] == 1;
  }

  /**
    The loop as written transmits every message faithfully if and only if it takes
    at most two calls, when every call sends something.
   */
  lemma SendIsFaithfulIffTwoCalls(counts: seq<nat>)
    requires AllPositive(counts)
    ensures SendsEveryMessage(counts) <==> |counts| <= 2
  {
    if |counts| <= 2 {
      forall message: seq<byte> | |message| == Sum(counts) ensures SendWire(LastCount, message, counts) == message {
        TwoCallsSendTheSame(message, counts);
        RunningTotalSendsMessage(message, [], 0, 0, counts);
      }
    } else {
      ThirdCallGarbles(counts);
    }
  }

  /** A whole message that `send` takes in one or two parts arrives intact. */
  lemma {:induction false} SendInTwoCalls(message: seq<byte>, rets: seq<int>)
    requires SendObeys(|message|, rets) && SendEnd(|message|, rets).Done?
    requires |SendCounts(|message|, rets)| <= 2
    ensures SendWire(LastCount, message, SendCounts(|message|, rets)) == message
  {
    SendCountsUp(|message|, rets);
    TwoCallsSendTheSame(message, SendCounts(|message|, rets));
    RunningTotalSendsMessage(message, [], 0, 0, SendCounts(|message|, rets));
  }

  // ---------- tcp_receive_ ----------

  /**
    `recv` returns an error, 0 at the end or when no room is left, or moves at most the
    room left; a negative room is a huge size to it.
   */
  predicate RecvObeys(remaining: int, rets: seq<int>)
    decreases rets
  {
    rets == [] || rets[0] <= 0
    || ((remaining >= 0 ==> rets[0] <= remaining) && RecvObeys(remaining - rets[0], rets[1..]))
  }

  function RecvCounts(rets: seq<int>): seq<nat> {
    if rets == [] || rets[0] <= 0 then [] else [rets[0]] + RecvCounts(rets[1..])
  }

  /** No call has ended the loop. */
  predicate RecvWaits(rets: seq<int>) {
    rets == [] || (rets[0] > 0 && RecvWaits(rets[1..]))
  }

  /** With a negative room nothing but luck keeps the calls inside the buffer. */
  predicate WritesInside(size: nat, last: nat, counts: seq<nat>)
    decreases counts
  {
    counts == [] || (last + counts[0] <= size && WritesInside(size, counts[0], counts[1..]))
  }

  /** The buffer after calls that took `counts` bytes off the stream, `total` of which were taken before. */
  function Filled(how: Addressing, buf: seq<byte>, stream: seq<byte>, last: nat, total: nat, counts: seq<nat>)
    : (r: seq<byte>)
    ensures |r| == |buf|
    decreases counts
  {
    if counts == [] then buf
    else Filled(how, Store(buf, Offset(how, last, total), Slice(stream, total, counts[0])), stream,
                counts[0], total + counts[0], counts[1..])
  }

  /** What is left to come after one successful call. */
  lemma {:induction false} RecvLeft(size: nat, last: nat, rets: seq<int>, r: nat)
    requires rets != [] && 0 < r == rets[0]
    ensures Sum(RecvCounts(rets)) == r + Sum(RecvCounts(rets[1..]))
    ensures WritesInside(size, last, RecvCounts(rets)) <==>
            last + r <= size && WritesInside(size, r, RecvCounts(rets[1..]))
  {
    var rest := RecvCounts(rets[1..]);
    assert RecvCounts(rets) == [r] + rest && RecvCounts(rets)[1..] == rest;
  }

  /** Call k is the first that brings nothing. */
  predicate StopsAt(rets: seq<int>, k: nat) {
    k < |rets| && rets[k] <= 0 && forall i | 0 <= i < k :: rets[i] > 0
  }

  lemma {:induction false} WaitsWhilePositive(rets: seq<int>)
    ensures RecvWaits(rets) <==> forall i | 0 <= i < |rets| :: rets[i] > 0
    decreases rets
  {
    if rets != [] {
      WaitsWhilePositive(rets[1..]);
      assert forall i | 0 < i < |rets| :: rets[i] == rets[1..][i - 1];
      assert forall i | 0 <= i < |rets[1..]| :: rets[1..][i] == rets[i + 1];
    }
  }

  lemma {:induction false} SumsUpToStop(rets: seq<int>, k: nat)
    requires StopsAt(rets, k)
    ensures Sum(RecvCounts(rets)) == Total(rets[..k])
    decreases k
  {
    if k > 0 {
      assert forall i | 0 <= i < k - 1 :: rets[1..][i] == rets[i + 1];
      SumsUpToStop(rets[1..], k - 1);
      TotalPrefix(rets, k);
      RecvLeft(0, 0, rets, rets[0]);
    }
  }

  /** What the loop returns, said of the calls alone. */
  lemma RecvReturns(rets: seq<int>)
    ensures RecvWaits(rets) <==> forall i | 0 <= i < |rets| :: rets[i] > 0
    ensures forall k: nat :: StopsAt(rets, k) ==> !RecvWaits(rets) && Sum(RecvCounts(rets)) == Total(rets[..k])
  {
    WaitsWhilePositive(rets);
    forall k: nat | StopsAt(rets, k) ensures !RecvWaits(rets) && Sum(RecvCounts(rets)) == Total(rets[..k]) {
      SumsUpToStop(rets, k);
    }
  }

  /**
    As long as the calls stay inside the buffer, the call waits while every `recv` so far
    has brought something, and returns what they brought at the first that has not.
   */
  method TcpReceive(ready: Select, message: array<byte>, length: int, stream: seq<byte>, rets: seq<int>)
    returns (result: Result)
    requires length <= message.Length && RecvObeys(length, rets)
    requires Sum(RecvCounts(rets)) <= |stream|
    modifies message
    ensures ready.Ready? && WritesInside(message.Length, 0, RecvCounts(rets)) ==>
      && message[..] == Filled(LastCount, old(message[..]), stream, 0, 0, RecvCounts(rets))
      && result == if RecvWaits(rets) then Blocked else Returned(Sum(RecvCounts(rets)))
    ensures ready.Ready? && WritesInside(message.Length, 0, RecvCounts(rets)) ==>
      && (result == Blocked <==> forall i | 0 <= i < |rets| :: rets[i] > 0)
      && (forall k: nat :: StopsAt(rets, k) ==> result == Returned(Total(rets[..k])))
    ensures ready.Ready? && !WritesInside(message.Length, 0, RecvCounts(rets)) ==> result == Undefined && length < 0
    ensures !ready.Ready? ==> result == Returned(-1) && message[..] == old(message[..])
  {
    if ready.SelectError? || ready.SelectTimeout? {
      return Returned(-1);
    }
    RecvReturns(rets);
    if length >= 0 {
      StaysInside(message.Length, length, 0, 0, rets);
    }
    result := ReceiveUntilDone(message, length, stream, rets);
  }

  /** The loop as a recursion: what it returns and what is in the buffer then. */
  function RecvLoop(buf: seq<byte>, stream: seq<byte>, last: nat, total: nat, rets: seq<int>): (Result, seq<byte>)
    decreases rets
  {
    if rets == [] then (Blocked, buf)
    else if rets[0] <= 0 then (Returned(total), buf)
    else if last + rets[0] > |buf| then (Undefined, buf)
    else RecvLoop(Store(buf, last, Slice(stream, total, rets[0])), stream, rets[0], total + rets[0], rets[1..])
  }

  /** The loop does what its counts say, as long as they stay inside the buffer. */
  lemma {:induction false} RecvLoopCounts(
      buf: seq<byte>, stream: seq<byte>, last: nat, total: nat, rets: seq<int>, counts: seq<nat>)
    requires counts == RecvCounts(rets)
    ensures var r := RecvLoop(buf, stream, last, total, rets);
      if WritesInside(|buf|, last, counts)
      then r == (if RecvWaits(rets) then Blocked else Returned(total + Sum(counts)),
                 Filled(LastCount, buf, stream, last, total, counts))
      else r.0 == Undefined
    decreases rets
  {
    if rets == [] || rets[0] <= 0 {
    } else {
      var r: nat, rest := rets[0], RecvCounts(rets[1..]);
      RecvLeft(|buf|, last, rets, r);
      assert counts == [r] + rest && counts[1..] == rest;
      if last + r <= |buf| {
        RecvLoopCounts(Store(buf, last, Slice(stream, total, r)), stream, r, total + r, rets[1..], rest);
      }
    }
  }

  /** The do-while loop. */
  method ReceiveUntilDone(message: array<byte>, length: int, stream: seq<byte>, rets: seq<int>)
    returns (result: Result)
    requires length <= message.Length && RecvObeys(length, rets)
    requires Sum(RecvCounts(rets)) <= |stream|
    modifies message
    ensures WritesInside(message.Length, 0, RecvCounts(rets)) ==>
      && message[..] == Filled(LastCount, old(message[..]), stream, 0, 0, RecvCounts(rets))
      && result == if RecvWaits(rets) then Blocked else Returned(Sum(RecvCounts(rets)))
    ensures !WritesInside(message.Length, 0, RecvCounts(rets)) ==> result == Undefined
  {
    RecvLoopCounts(message[..], stream, 0, 0, rets, RecvCounts(rets));
    var remaining, n, bytesReceived, pending := length, 0, 0, rets;
    ghost var whole := RecvLoop(message[..], stream, 0, 0, rets);
    while true
      invariant 0 <= n && 0 <= bytesReceived
      invariant whole == RecvLoop(message[..], stream, n, bytesReceived, pending)
      decreases |pending|
    {
      if pending == [] {
        return Blocked;
      }
      if pending[0] <= 0 {
        // n < 0 leaves by break; n == 0 adds nothing and fails the loop test
        return Returned(bytesReceived);
      }
      if n + pending[0] > message.Length {
        return Undefined;
      }
      CopyIn(message, n, Slice(stream, bytesReceived, pending[0]));
      n := pending[0];
      remaining := remaining - n;
      bytesReceived := bytesReceived + n;
      pending := pending[1..];
    }
  }

  /** A room that is not negative keeps every call inside the buffer. */
  lemma {:induction false} StaysInside(size: nat, remaining: nat, last: nat, total: nat, rets: seq<int>)
    requires RecvObeys(remaining, rets) && last <= total && total + remaining <= size
    ensures WritesInside(size, last, RecvCounts(rets))
    decreases rets
  {
    if rets == [] || rets[0] <= 0 {
    } else {
      var rest := RecvCounts(rets[1..]);
      assert RecvCounts(rets) == [rets[0]] + rest && RecvCounts(rets)[1..] == rest;
      StaysInside(size, remaining - rets[0], rets[0], total + rets[0], rets[1..]);
    }
  }

  /** What `recv` does to the buffer it is given. */
  method CopyIn(message: array<byte>, at: nat, data: seq<byte>)
    requires at + |data| <= message.Length
    modifies message
    ensures message[..] == Store(old(message[..]), at, data)
  {
    forall i | 0 <= i < |data| {
      message[at + i] := data[i];
    }
  }

  /** The bytes taken off the stream are at most the room there was; only a stream of data keeps the loop going. */
  lemma {:induction false} RecvCountsUp(remaining: nat, rets: seq<int>)
    requires RecvObeys(remaining, rets)
    ensures Sum(RecvCounts(rets)) <= remaining && AllPositive(RecvCounts(rets))
    ensures RecvWaits(rets) ==> |rets| <= remaining
    decreases rets
  {
    if rets == [] || rets[0] <= 0 {
    } else {
      RecvCountsUp(remaining - rets[0], rets[1..]);
      assert RecvCounts(rets)[1..] == RecvCounts(rets[1..]);
    }
  }

  /** One call seen from the specification: `after` is the buffer behind it. */
  lemma FilledFirst(
      how: Addressing, buf: seq<byte>, after: seq<byte>, stream: seq<byte>, last: nat, total: nat, counts: seq<nat>)
    requires counts != [] && total + counts[0] <= |stream|
    requires after == Store(buf, Offset(how, last, total), stream[total..total + counts[0]])
    ensures Filled(how, buf, stream, last, total, counts) ==
            Filled(how, after, stream, counts[0], total + counts[0], counts[1..])
  {}

  /** The buffer after one call, and where one of its bytes comes from. */
  lemma StoreSliceAt(buf: seq<byte>, stream: seq<byte>, i: nat, j: nat, at: nat) returns (after: seq<byte>)
    requires i <= j <= |stream| && at < |buf|
    ensures after == Store(buf, i, stream[i..j]) && |after| == |buf|
    ensures after[at] == if i <= at < j then stream[at] else buf[at]
  {
    after := Store(buf, i, stream[i..j]);
  }

  /** One byte of the buffer, with the running total. */
  lemma {:induction false} RunningTotalAt(
      buf: seq<byte>, stream: seq<byte>, last: nat, total: nat, counts: seq<nat>, end: nat, at: nat)
    requires end == total + Sum(counts) && end <= |stream| && at < |buf|
    ensures Filled(RunningTotal, buf, stream, last, total, counts)[at] ==
            if total <= at < end then stream[at] else buf[at]
    decreases counts
  {
    if counts == [] {
    } else {
      var n, rest := counts[0], counts[1..];
      assert Sum(counts) == n + Sum(rest);
      var after := StoreSliceAt(buf, stream, total, total + n, at);
      RunningTotalAt(after, stream, n, total + n, rest, end, at);
      FilledFirst(RunningTotal, buf, after, stream, last, total, counts);
    }
  }

  /** With the running total, the stream's bytes follow what is already in the buffer, in order. */
  lemma {:induction false} RunningTotalFillsBuffer(
      buf: seq<byte>, stream: seq<byte>, last: nat, total: nat, counts: seq<nat>)
    requires total + Sum(counts) <= |stream|
    ensures Filled(RunningTotal, buf, stream, last, total, counts) ==
            Store(buf, total, stream[total..total + Sum(counts)])
  {
    var end := total + Sum(counts);
    forall at | 0 <= at < |buf|
      ensures Filled(RunningTotal, buf, stream, last, total, counts)[at] == Store(buf, total, stream[total..end])[at]
    {
      RunningTotalAt(buf, stream, last, total, counts, end, at);
      var _ := StoreSliceAt(buf, stream, total, end, at);
    }
  }

  /** Up to two segments, the loop as written leaves the buffer the running total would. */
  lemma TwoSegmentsFillTheSame(buf: seq<byte>, stream: seq<byte>, counts: seq<nat>)
    requires |counts| <= 2
    ensures Filled(LastCount, buf, stream, 0, 0, counts) == Filled(RunningTotal, buf, stream, 0, 0, counts)
  {
    if counts != [] {
      var n, rest := counts[0], counts[1..];
      var buf' := Store(buf, 0, Slice(stream, 0, n));
      if rest != [] {
        assert rest[1..] == [];
      }
      assert Filled(LastCount, buf', stream, n, n, rest) == Filled(RunningTotal, buf', stream, n, n, rest);
    }
  }

  /** No call writes the stream's byte m to the place `at`. */
  predicate Misses(last: nat, total: nat, counts: seq<nat>, m: nat, at: nat)
    decreases counts
  {
    counts == [] ||
    ((total <= m < total + counts[0] ==> last + (m - total) != at)
     && Misses(counts[0], total + counts[0], counts[1..], m, at))
  }

  lemma {:induction false} PastIsMissed(last: nat, total: nat, counts: seq<nat>, m: nat, at: nat)
    requires m < total
    ensures Misses(last, total, counts, m, at)
    decreases counts
  {
    if counts == [] {
    } else {
      PastIsMissed(counts[0], total + counts[0], counts[1..], m, at);
    }
  }

  /** A stream that is 0 but for byte m. */
  ghost predicate Marked(stream: seq<byte>, m: nat) {
    forall k | 0 <= k < |stream| :: stream[k] == if k == m then 1 else 0
  }

  /** Whatever is written to the place `at` is a 0. */
  predicate WritesZero(stream: seq<byte>, last: nat, total: nat, counts: seq<nat>, at: nat)
    decreases counts
  {
    counts == [] ||
    (total + counts[0] <= |stream|
     && (last <= at < last + counts[0] ==> stream[total + (at - last)] == 0)
     && WritesZero(stream, counts[0], total + counts[0], counts[1..], at))
  }

  lemma {:induction false} MissedIsZero(stream: seq<byte>, last: nat, total: nat, counts: seq<nat>, m: nat, at: nat)
    requires total + Sum(counts) <= |stream| && Marked(stream, m) && Misses(last, total, counts, m, at)
    ensures WritesZero(stream, last, total, counts, at)
    decreases counts
  {
    if counts == [] {
    } else {
      MissedIsZero(stream, counts[0], total + counts[0], counts[1..], m, at);
    }
  }

  lemma {:induction false} ZeroStaysZero(
      buf: seq<byte>, stream: seq<byte>, last: nat, total: nat, counts: seq<nat>, at: nat)
    requires at < |buf| && buf[at] == 0 && WritesZero(stream, last, total, counts, at)
    ensures Filled(LastCount, buf, stream, last, total, counts)[at] == 0
    decreases counts
  {
    if counts == [] {
    } else {
      var n := counts[0];
      var after := StoreZero(buf, stream, last, total, n, at);
      ZeroStaysZero(after, stream, n, total + n, counts[1..], at);
      FilledFirst(LastCount, buf, after, stream, last, total, counts);
    }
  }

  lemma StoreZero(buf: seq<byte>, stream: seq<byte>, last: nat, total: nat, n: nat, at: nat) returns (after: seq<byte>)
    requires at < |buf| && buf[at] == 0 && total + n <= |stream|
    requires last <= at < last + n ==> stream[total + (at - last)] == 0
    ensures after == Store(buf, last, stream[total..total + n]) && |after| == |buf| && after[at] == 0
  {
    after := Store(buf, last, stream[total..total + n]);
  }

  /** The first byte of the third segment is never written where it belongs. */
  lemma {:induction false} ThirdSegmentMisses(counts: seq<nat>)
    requires AllPositive(counts) && |counts| > 2
    ensures Misses(0, 0, counts, counts[0] + counts[1], counts[0] + counts[1])
  {
    var a, b, c := counts[0], counts[1], counts[2];
    assert counts[1..][1..] == counts[2..] && counts[2..][1..] == counts[3..];
    PastIsMissed(c, a + b + c, counts[3..], a + b, a + b);
    assert Misses(b, a + b, counts[2..], a + b, a + b);
    assert Misses(a, a, counts[1..], a + b, a + b);
  }

  ghost predicate FillsEveryBuffer(counts: seq<nat>) {
    forall buf: seq<byte>, stream: seq<byte> | |buf| == Sum(counts) == |stream| ::
      Filled(LastCount, buf, stream, 0, 0, counts) == stream
  }

  lemma ThirdSegmentMisplaced(counts: seq<nat>)
    requires AllPositive(counts) && |counts| > 2
    ensures !FillsEveryBuffer(counts)
  {
    var m := counts[0] + counts[1];
    var stream: seq<byte> := seq(Sum(counts), k => if k == m then 1 else 0);
    var zeros: seq<byte> := seq(Sum(counts), _ => 0);
    SumOfThree(counts);
    ThirdSegmentMisses(counts);
    MissedIsZero(stream, 0, 0, counts, m, m);
    ZeroStaysZero(zeros, stream, 0, 0, counts, m);
    assert stream[m] == 1;
  }

  /**
    The loop as written puts every incoming stream in order into the buffer if and
    only if at most two nonempty segments arrive.
   */
  lemma ReceiveIsFaithfulIffTwoSegments(counts: seq<nat>)
    requires AllPositive(counts)
    ensures FillsEveryBuffer(counts) <==> |counts| <= 2
  {
    if |counts| <= 2 {
      forall buf: seq<byte>, stream: seq<byte> | |buf| == Sum(counts) == |stream|
        ensures Filled(LastCount, buf, stream, 0, 0, counts) == stream
      {
        TwoSegmentsFillTheSame(buf, stream, counts);
        RunningTotalFillsBuffer(buf, stream, 0, 0, counts);
        StoreAtStart(buf, stream);
      }
    } else {
      ThirdSegmentMisplaced(counts);
    }
  }

  /**
    For a whole call with at most two segments: the count returned is the number of
    bytes taken off the stream, and the buffer holds exactly those, untouched behind them.
   */
  lemma ReceiveInTwoSegments(buf: seq<byte>, stream: seq<byte>, length: nat, rets: seq<int>)
    requires length <= |buf| && RecvObeys(length, rets) && Sum(RecvCounts(rets)) <= |stream|
    requires |RecvCounts(rets)| <= 2
    ensures var n := Sum(RecvCounts(rets));
      n <= length && Filled(LastCount, buf, stream, 0, 0, RecvCounts(rets)) == stream[..n] + buf[n..]
  {
    RecvCountsUp(length, rets);
    TwoSegmentsFillTheSame(buf, stream, RecvCounts(rets));
    RunningTotalFillsBuffer(buf, stream, 0, 0, RecvCounts(rets));
    StoreAtStart(buf, stream[..Sum(RecvCounts(rets))]);
  }
}
