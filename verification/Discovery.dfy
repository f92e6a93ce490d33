/**
  Discovery by broadcast: each response is followed by a lookup that opens a link,
  asks for the identification and closes the link; the device callback is told of
  every lookup that succeeded.
 */
module Discovery {
  import opened Common
  import opened Xdr

  const ID_LENGTH_MAX: nat := 65536
  const NEWLINE: byte := 10
  const RETURN: byte := 13

  /** What vxi11_connect, vxi11_send, vxi11_receive and the HTTP fallback give for one address. */
  datatype Probe = Probe(connect: int, send: int, receive: int, reply: seq<byte>, http: Option<seq<byte>>) {
    predicate Valid() {
      && (receive >= 0 ==> receive == |reply| <= ID_LENGTH_MAX)
      && (http.Some? ==> |http.value| < ID_LENGTH_MAX && 0 !in http.value)
    }
  }

  /** What recvfrom gives, and the lookup that follows. */
  datatype Response = Response(count: int, address: string, probe: Probe)

  /** Links are numbered by the response they belong to. */
  datatype Event = Opened(link: nat) | Closed(link: nat) | Notified(address: string, id: seq<byte>)

  // ---------- The identification ----------

  /** A reply without its line end: at most one newline, then at most one carriage return. */
  function Strip(reply: seq<byte>): (r: seq<byte>)
    ensures r <= reply
  {
    var s := if reply != [] && reply[|reply| - 1] == NEWLINE then reply[..|reply| - 1] else reply;
    if s != [] && s[|s| - 1] == RETURN then s[..|s| - 1] else s
  }

  lemma DropLast(text: seq<byte>, c: byte)
    ensures (text + [c])[|text|] == c && (text + [c])[..|text|] == text
  {}

  /** Stripping removes every usual line end and nothing of the text before it. */
  lemma StripRemovesLineEnd(text: seq<byte>)
    requires text != [] ==> text[|text| - 1] !in {NEWLINE, RETURN}
    ensures Strip(text) == text && Strip(text + [NEWLINE]) == text
    ensures Strip(text + [RETURN]) == text && Strip(text + [RETURN] + [NEWLINE]) == text
  {
    DropLast(text, NEWLINE);
    DropLast(text, RETURN);
    DropLast(text + [RETURN], NEWLINE);
  }

  predicate EndsIn(s: seq<byte>, c: byte) { s != [] && s[|s| - 1] == c }

  /** The reply is this text and its line end: newline, carriage return, both in this order, or none. */
  predicate IsTextOf(text: seq<byte>, reply: seq<byte>) {
    || reply == text + [RETURN] + [NEWLINE]
    || reply == text + [RETURN]
    || (reply == text + [NEWLINE] && !EndsIn(text, RETURN))
    || (reply == text && !EndsIn(text, NEWLINE) && !EndsIn(text, RETURN))
  }

  /** Two sequences with one more element each. */
  lemma SameAppended(s: seq<byte>, c: byte, t: seq<byte>, d: byte)
    ensures s + [c] == t + [d] <==> s == t && c == d
  {
    DropLast(s, c);
    DropLast(t, d);
  }

  lemma StripReturnIff(s: seq<byte>, text: seq<byte>)
    ensures (if EndsIn(s, RETURN) then s[..|s| - 1] else s) == text <==>
            s == text + [RETURN] || (s == text && !EndsIn(text, RETURN))
  {
    DropLast(text, RETURN);
    if EndsIn(s, RETURN) {
      assert s == s[..|s| - 1] + [RETURN];
    }
  }

  /** Every reply has exactly one text, and it is what stripping leaves. */
  lemma StripIsText(text: seq<byte>, reply: seq<byte>)
    ensures Strip(reply) == text <==> IsTextOf(text, reply)
  {
    if EndsIn(reply, NEWLINE) {
      var s := reply[..|reply| - 1];
      assert reply == s + [NEWLINE];
      SameAppended(s, NEWLINE, text + [RETURN], NEWLINE);
      SameAppended(s, NEWLINE, text, RETURN);
      SameAppended(s, NEWLINE, text, NEWLINE);
      StripReturnIff(s, text);
    } else {
      DropLast(text, NEWLINE);
      DropLast(text + [RETURN], NEWLINE);
      StripReturnIff(reply, text);
    }
  }

  /**
    The identification a lookup gives, said of what the address answered: the text of its
    reply, up to the first NUL, or what HTTP gave when the reply was empty.
   */
  ghost predicate Identifies(p: Probe, id: seq<byte>) {
    && p.connect >= 0 && p.send >= 0 && p.receive >= 0
    && if p.receive > 0 then exists text | IsTextOf(text, p.reply) :: id == UpToNul(text)
       else p.http == Some(id)
  }

  /** The identification a lookup leaves in `id`, or nothing when it fails. */
  function Found(p: Probe): Option<seq<byte>> {
    if p.connect < 0 || p.send < 0 || p.receive < 0 then None
    else if p.receive > 0 then Some(UpToNul(Strip(p.reply)))
    else p.http
  }

  /** What a lookup finds is the identification, and it finds one whenever there is one. */
  lemma FoundIff(p: Probe, id: seq<byte>)
    ensures Found(p) == Some(id) <==> Identifies(p, id)
  {
    StripIsText(Strip(p.reply), p.reply);
    forall text | IsTextOf(text, p.reply) ensures text == Strip(p.reply) {
      StripIsText(text, p.reply);
    }
  }

  /** A usual reply, with whatever line end, is identified by its text and by nothing else. */
  lemma UsualReplyIsIdentified(p: Probe, text: seq<byte>, id: seq<byte>)
    requires text != [] && 0 !in text && text[|text| - 1] !in {NEWLINE, RETURN}
    requires p.reply in {text, text + [NEWLINE], text + [RETURN], text + [RETURN] + [NEWLINE]}
    requires p.connect >= 0 && p.send >= 0 && p.receive > 0
    ensures Identifies(p, id) <==> id == text
  {
    StripRemovesLineEnd(text);
    FoundIff(p, id);
  }

  /** A lookup fails exactly if a call failed, or the reply was empty and HTTP gave nothing. */
  predicate Fails(p: Probe) {
    p.connect < 0 || p.send < 0 || p.receive < 0 || (p.receive == 0 && p.http.None?)
  }

  lemma {:induction false} StringEndsAtNul(s: seq<byte>, rest: seq<byte>)
    ensures UpToNul(s + [0] + rest) == UpToNul(s)
  {
    if s == [] {
      assert (s + [0] + rest)[0] == 0;
    } else {
      assert (s + [0] + rest)[1..] == s[1..] + [0] + rest;
      StringEndsAtNul(s[1..], rest);
    }
  }

  /** The string in a buffer that starts with s and was terminated behind it, if there was room. */
  lemma {:induction false} TerminatedString(buf: seq<byte>, s: seq<byte>)
    requires s <= buf && (|s| < |buf| ==> buf[|s|] == 0)
    ensures UpToNul(buf) == UpToNul(s)
  {
    if |s| < |buf| {
      assert buf == s + [0] + buf[|s| + 1..];
      StringEndsAtNul(s, buf[|s| + 1..]);
    } else {
      assert buf == s;
    }
  }

  // ---------- What a run leaves in the log ----------

  function LookupLog(link: nat, p: Probe): seq<Event> {
    if p.connect < 0 then [] else [Opened(link), Closed(link)]
  }

  function ResponseLog(link: nat, r: Response, callback: bool): seq<Event> {
    LookupLog(link, r.probe) +
    match Found(r.probe)
    case Some(id) => if callback then [Notified(r.address, id)] else []
    case None => []
  }

  /** The log of the responses from number k on. */
  function RunLog(rs: seq<Response>, k: nat, callback: bool): seq<Event>
    requires k <= |rs|
    decreases |rs| - k
  {
    if k == |rs| || rs[k].count <= 0 then []
    else ResponseLog(k, rs[k], callback) + RunLog(rs, k + 1, callback)
  }

  class Finder {
    var log: seq<Event>
    var id: seq<byte>       // char id[ID_LENGTH_MAX]
    const before: byte      // the byte in memory just before id

    ghost predicate Valid() reads this { |id| == ID_LENGTH_MAX }

    constructor (id: seq<byte>, before: byte)
      requires |id| == ID_LENGTH_MAX
      ensures Valid() && log == []
    {
      this.id, this.before, log := id, before, [];
    }

    /**
      Terminates the reply and strips its line end in place.  The code stays inside the
      buffer exactly if the reply leaves room for the terminator and is not a lone newline.
     */
    method Terminate(reply: seq<byte>) returns (inside: bool)
      requires Valid() && 0 < |reply| <= ID_LENGTH_MAX && reply <= id
      modifies this`id
      ensures Valid() && UpToNul(id) == UpToNul(Strip(reply))
      ensures inside <==> |reply| < ID_LENGTH_MAX && reply != [NEWLINE]
    {
      var length := |reply|;
      id := Store(id, length, [0]);
      inside := length < |id|;
      if id[length - 1] == NEWLINE {
        length := length - 1;
        id := Store(id, length, [0]);
      }
      assert reply[..length] <= id && (length < |id| ==> id[length] == 0);
      inside := inside && length > 0;
      var last := if length > 0 then id[length - 1] else before;
      if last == RETURN {
        length := length - 1;
        id := Store(id, length, [0]);
      }
      assert Strip(reply) == if length < 0 then [] else reply[..length];
      TerminatedString(id, Strip(reply));
    }

    method GetDeviceId(link: nat, p: Probe) returns (status: int)
      requires Valid() && p.Valid()
      modifies this
      ensures Valid() && log == old(log) + LookupLog(link, p)
      ensures status == (if Fails(p) then -1 else 0)
      ensures status == 0 ==> Identifies(p, UpToNul(id))
      ensures Found(p) == if status == 0 then Some(UpToNul(id)) else None
    {
      StripIsText(Strip(p.reply), p.reply);
      if p.connect < 0 {
        assert log + [] == log;
        return -1;
      }
      log := log + [Opened(link)];
      if p.send < 0 {
        log := log + [Closed(link)];
        return -1;
      }
      if p.receive < 0 {
        log := log + [Closed(link)];
        return -1;
      }
      id := Store(id, 0, p.reply);
      log := log + [Closed(link)];
      if p.receive > 0 {
        var _ := Terminate(p.reply);
        return 0;
      }
      if p.http.None? {
        return -1;
      }
      id := Store(id, 0, p.http.value + [0]);
      TerminatedString(id, p.http.value);
      return 0;
    }

    /** One response: the lookup, and the callback if it returned 0. */
    method Identify(k: nat, r: Response, callback: bool)
      requires Valid() && r.probe.Valid()
      modifies this
      ensures Valid() && log == old(log) + ResponseLog(k, r, callback)
    {
      var status := GetDeviceId(k, r.probe);
      if status == 0 && callback {
        log := log + [Notified(r.address, UpToNul(id))];
        Associate(old(log), LookupLog(k, r.probe), [Notified(r.address, UpToNul(id))]);
      } else {
        Associate(old(log), LookupLog(k, r.probe), []);
        assert log + [] == log;
      }
    }

    method DiscoverDevices(rs: seq<Response>, callback: bool)
      requires Valid() && forall k | 0 <= k < |rs| :: rs[k].probe.Valid()
      modifies this
      ensures Valid() && log == old(log) + RunLog(rs, 0, callback)
    {
      var count, k := 1, 0;
      ghost var whole := old(log) + RunLog(rs, 0, callback);
      while count > 0
        invariant Valid() && 0 <= k
        invariant if count > 0 then k <= |rs| && log + RunLog(rs, k, callback) == whole else log == whole
        decreases |rs| - k + (if count > 0 then 1 else 0)
      {
        // Behind the last response recvfrom runs into its timeout.
        count := if k < |rs| then rs[k].count else -1;
        if count > 0 {
          Associate(log, ResponseLog(k, rs[k], callback), RunLog(rs, k + 1, callback));
          Identify(k, rs[k], callback);
        }
        k := k + 1;
      }
    }
  }

  // ---------- Links ----------

  /** Replaying a log: at most one link is open, it is closed before the next, and no callback runs meanwhile. */
  datatype Links = Bad | Links(open: Option<nat>)

  function Replay(s: Links, log: seq<Event>): Links
    decreases log
  {
    if log == [] || s.Bad? then s
    else
      var next :=
        match log[0]
        case Opened(k) => if s.open.None? then Links(Some(k)) else Bad
        case Closed(k) => if s.open == Some(k) then Links(None) else Bad
        case Notified(_, _) => if s.open.None? then s else Bad;
      Replay(next, log[1..])
  }

  lemma {:induction false} ReplayJoins(s: Links, a: seq<Event>, b: seq<Event>)
    ensures Replay(s, a + b) == Replay(Replay(s, a), b)
    decreases a
  {
    if a == [] {
      assert a + b == b;
    } else if s.Links? {
      assert (a + b)[0] == a[0] && (a + b)[1..] == a[1..] + b;
      match a[0]
      case Opened(k) => ReplayJoins(if s.open.None? then Links(Some(k)) else Bad, a[1..], b);
      case Closed(k) => ReplayJoins(if s.open == Some(k) then Links(None) else Bad, a[1..], b);
      case Notified(_, _) => ReplayJoins(if s.open.None? then s else Bad, a[1..], b);
    }
  }

  lemma LookupIsPaired(link: nat, r: Response, callback: bool)
    ensures Replay(Links(None), ResponseLog(link, r, callback)) == Links(None)
  {
    var told := ResponseLog(link, r, callback)[|LookupLog(link, r.probe)|..];
    assert ResponseLog(link, r, callback) == LookupLog(link, r.probe) + told;
    ReplayJoins(Links(None), LookupLog(link, r.probe), told);
    if r.probe.connect >= 0 {
      assert [Opened(link), Closed(link)][1..] == [Closed(link)];
      assert Replay(Links(Some(link)), [Closed(link)]) == Links(None);
    }
    assert Replay(Links(None), LookupLog(link, r.probe)) == Links(None);
    assert |told| <= 1 && (told != [] ==> told[0].Notified? && told[1..] == []);
  }

  /** Over any responses, every link is closed before another opens or a callback runs, and none is left open. */
  lemma {:induction false} LinksArePaired(rs: seq<Response>, k: nat, callback: bool)
    requires k <= |rs|
    ensures Replay(Links(None), RunLog(rs, k, callback)) == Links(None)
    decreases |rs| - k
  {
    if k == |rs| || rs[k].count <= 0 {
    } else {
      LookupIsPaired(k, rs[k], callback);
      LinksArePaired(rs, k + 1, callback);
      ReplayJoins(Links(None), ResponseLog(k, rs[k], callback), RunLog(rs, k + 1, callback));
    }
  }

  /** The loop reaches response k. */
  predicate Reached(rs: seq<Response>, k: nat) {
    k < |rs| && forall i | 0 <= i <= k :: rs[i].count > 0
  }

  /** How often an event occurs in a log. */
  function Occurs(log: seq<Event>, x: Event): nat {
    if log == [] then 0 else (if log[0] == x then 1 else 0) + Occurs(log[1..], x)
  }

  lemma {:induction false} OccursJoins(a: seq<Event>, b: seq<Event>, x: Event)
    ensures Occurs(a + b, x) == Occurs(a, x) + Occurs(b, x)
    decreases a
  {
    if a == [] {
      assert a + b == b;
    } else {
      assert (a + b)[0] == a[0] && (a + b)[1..] == a[1..] + b;
      OccursJoins(a[1..], b, x);
    }
  }

  lemma ResponseLinks(k: nat, r: Response, callback: bool, link: nat, x: Event)
    requires x in {Opened(link), Closed(link)}
    ensures Occurs(ResponseLog(k, r, callback), x) == if link == k && r.probe.connect >= 0 then 1 else 0
  {
    var told := ResponseLog(k, r, callback)[|LookupLog(k, r.probe)|..];
    assert ResponseLog(k, r, callback) == LookupLog(k, r.probe) + told;
    OccursJoins(LookupLog(k, r.probe), told, x);
    if r.probe.connect >= 0 {
      assert [Opened(k), Closed(k)][1..] == [Closed(k)];
      assert Occurs([Closed(k)], x) == if x == Closed(k) then 1 else 0;
    }
    assert |told| <= 1 && (told != [] ==> told[0].Notified? && told[1..] == []);
  }

  /** Some response from number k on is reached, is number `link` and opens it. */
  predicate OpensFrom(rs: seq<Response>, k: nat, link: nat)
    requires k <= |rs|
    decreases |rs| - k
  {
    k < |rs| && rs[k].count > 0 && ((link == k && rs[k].probe.connect >= 0) || OpensFrom(rs, k + 1, link))
  }

  lemma {:induction false} OpensLater(rs: seq<Response>, k: nat, link: nat)
    requires k <= |rs| && OpensFrom(rs, k, link)
    ensures k <= link
    decreases |rs| - k
  {
    if link == k {
    } else {
      OpensLater(rs, k + 1, link);
    }
  }

  lemma {:induction false} LinkCounts(rs: seq<Response>, k: nat, callback: bool, link: nat, x: Event)
    requires k <= |rs| && x in {Opened(link), Closed(link)}
    ensures Occurs(RunLog(rs, k, callback), x) == if OpensFrom(rs, k, link) then 1 else 0
    decreases |rs| - k
  {
    if k == |rs| || rs[k].count <= 0 {
    } else {
      ResponseLinks(k, rs[k], callback, link, x);
      LinkCounts(rs, k + 1, callback, link, x);
      OccursJoins(ResponseLog(k, rs[k], callback), RunLog(rs, k + 1, callback), x);
      if OpensFrom(rs, k + 1, link) {
        OpensLater(rs, k + 1, link);
      }
    }
  }

  lemma {:induction false} OpensFromIff(rs: seq<Response>, k: nat, link: nat)
    requires k <= |rs| && k <= link && forall i | 0 <= i < k :: rs[i].count > 0
    ensures OpensFrom(rs, k, link) <==> Reached(rs, link) && rs[link].probe.connect >= 0
    decreases |rs| - k
  {
    if k == |rs| || rs[k].count <= 0 || link == k {
      if k < |rs| && OpensFrom(rs, k + 1, k) {
        OpensLater(rs, k + 1, k);
      }
    } else {
      OpensFromIff(rs, k + 1, link);
    }
  }

  /** Each link that vxi11_connect opened is closed exactly once; no other link is ever closed. */
  lemma EachLinkClosedOnce(rs: seq<Response>, callback: bool, link: nat)
    ensures var log := RunLog(rs, 0, callback);
      && Occurs(log, Opened(link)) == Occurs(log, Closed(link))
      && Occurs(log, Closed(link)) == (if Reached(rs, link) && rs[link].probe.connect >= 0 then 1 else 0)
  {
    LinkCounts(rs, 0, callback, link, Opened(link));
    LinkCounts(rs, 0, callback, link, Closed(link));
    OpensFromIff(rs, 0, link);
  }

  // ---------- Callbacks ----------

  function Notifications(log: seq<Event>): seq<(string, seq<byte>)> {
    if log == [] then []
    else (if log[0].Notified? then [(log[0].address, log[0].id)] else []) + Notifications(log[1..])
  }

  lemma {:induction false} NotificationsJoin(a: seq<Event>, b: seq<Event>)
    ensures Notifications(a + b) == Notifications(a) + Notifications(b)
    decreases a
  {
    if a == [] {
      assert a + b == b;
    } else {
      assert (a + b)[0] == a[0] && (a + b)[1..] == a[1..] + b;
      NotificationsJoin(a[1..], b);
    }
  }

  /** The responses before the first that ends the loop. */
  function Arrived(rs: seq<Response>): (r: seq<Response>)
    ensures r <= rs && forall i | 0 <= i < |r| :: r[i].count > 0
    ensures |r| < |rs| ==> rs[|r|].count <= 0
  {
    if rs == [] || rs[0].count <= 0 then [] else [rs[0]] + Arrived(rs[1..])
  }

  /** One device for each response whose lookup does not fail, in order, with its address and identification. */
  ghost predicate Lists(rs: seq<Response>, devices: seq<(string, seq<byte>)>)
    decreases rs
  {
    if rs == [] then devices == []
    else if Fails(rs[0].probe) then Lists(rs[1..], devices)
    else
      && devices != [] && devices[0].0 == rs[0].address && Identifies(rs[0].probe, devices[0].1)
      && Lists(rs[1..], devices[1..])
  }

  lemma ResponseNotifies(k: nat, r: Response, callback: bool)
    ensures Notifications(ResponseLog(k, r, callback)) ==
            match Found(r.probe) case Some(id) => if callback then [(r.address, id)] else [] case None => []
  {
    var told := ResponseLog(k, r, callback)[|LookupLog(k, r.probe)|..];
    assert ResponseLog(k, r, callback) == LookupLog(k, r.probe) + told;
    NotificationsJoin(LookupLog(k, r.probe), told);
    if r.probe.connect >= 0 {
      assert [Opened(k), Closed(k)][1..] == [Closed(k)];
      assert Notifications([Closed(k)]) == [];
    }
    assert |told| <= 1 && (told != [] ==> told[1..] == []);
  }

  lemma {:induction false} CallbacksFrom(rs: seq<Response>, k: nat, callback: bool)
    requires k <= |rs|
    ensures var told := Notifications(RunLog(rs, k, callback));
      if callback then Lists(Arrived(rs[k..]), told) else told == []
    decreases |rs| - k
  {
    if k == |rs| || rs[k].count <= 0 {
    } else {
      var now, later := ResponseLog(k, rs[k], callback), RunLog(rs, k + 1, callback);
      NotificationsJoin(now, later);
      ResponseNotifies(k, rs[k], callback);
      CallbacksFrom(rs, k + 1, callback);
      assert rs[k..][0] == rs[k] && rs[k..][1..] == rs[k + 1..];
      if callback {
        OneMoreListed(rs[k], Arrived(rs[k + 1..]), Notifications(now), Notifications(later));
      }
    }
  }

  lemma OneMoreListed(
      r: Response, rs: seq<Response>, told: seq<(string, seq<byte>)>, later: seq<(string, seq<byte>)>)
    requires told == match Found(r.probe) case Some(id) => [(r.address, id)] case None => []
    requires Lists(rs, later)
    ensures Lists([r] + rs, told + later)
  {
    assert ([r] + rs)[1..] == rs;
    if Found(r.probe).Some? {
      FoundIff(r.probe, Found(r.probe).value);
      assert (told + later)[1..] == later;
    } else {
      assert told + later == later;
    }
  }

  /**
    A non-null callback fires once for each response whose lookup returned 0, in arrival
    order and with its identification, and a null one never.
   */
  lemma CallbacksInArrivalOrder(rs: seq<Response>, callback: bool)
    ensures var told := Notifications(RunLog(rs, 0, callback));
      if callback then Lists(Arrived(rs), told) else told == []
  {
    CallbacksFrom(rs, 0, callback);
    assert rs[0..] == rs;
  }
}
