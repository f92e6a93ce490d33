/**
  The session table of the library: 1024 slots, each holding a protocol backend
  and an owned data block.  This module gives the table as a value, what each API
  call does to it, and what every run of calls keeps.
 */
module Sessions {
  import opened Common

  const SESSIONS_MAX: nat := 1024
  const LXI_ERROR := -1

  datatype Protocol = VXI11 | RAW | HISLIP | Other(code: int)
  datatype Backend = Vxi11Backend | TcpBackend

  /** Identity of a malloc'ed data block: its number in order of allocation. */
  type Block = nat

  /** `backend` stands for the four function pointers, which are always set together. */
  datatype Slot = Slot(isAllocated: bool, isConnected: bool, backend: Option<Backend>, data: Option<Block>)

  /** `next`, `freed` and `open` record the heap and the backend connections. */
  datatype Table = Table(
    slots: seq<Slot>,
    next: Block,        // blocks 0..next-1 have been allocated
    freed: seq<Block>,  // in order of free()
    open: set<Block>)   // blocks whose backend connection is up

  function BackendOf(p: Protocol): Option<Backend> {
    match p
    case VXI11 => Some(Vxi11Backend)
    case RAW => Some(TcpBackend)
    case HISLIP | Other(_) => None
  }

  /** Static storage: every slot starts zeroed. */
  function Zeroed(): (t: Table)
    ensures Good(t) && Handles(t) == map[]
  {
    var t := Table(seq(SESSIONS_MAX, _ => Slot(false, false, None, None)), 0, [], {});
    NoneAllocated(t.slots);
    t
  }

  /** The lowest free slot at or after i, or the length of the table. */
  function FirstFree(slots: seq<Slot>, i: nat): (r: nat)
    requires i <= |slots|
    ensures i <= r <= |slots|
    ensures r < |slots| ==> !slots[r].isAllocated
    ensures forall j | i <= j < r :: slots[j].isAllocated
    decreases |slots| - i
  {
    if i == |slots| || !slots[i].isAllocated then i else FirstFree(slots, i + 1)
  }

  // ---------- The calls ----------

  datatype ConnectResult = Connected(handle: nat) | TooManySessions | Unsupported | BackendFailed {
    function Code(): int { if Connected? then handle else LXI_ERROR }
  }

  function SetUp(t: Table, i: nat, b: Backend): Table
    requires i < |t.slots|
  {
    t.(slots := t.slots[i := t.slots[i].(backend := Some(b), data := Some(t.next))], next := t.next + 1)
  }

  function Publish(t: Table, i: nat): Table
    requires i < |t.slots|
  {
    t.(slots := t.slots[i := t.slots[i].(isAllocated := true, isConnected := true)])
  }

  /** free() of a slot's data; freeing NULL does nothing. */
  function FreeData(t: Table, i: nat): Table
    requires i < |t.slots|
  {
    match t.slots[i].data
    case None => t
    case Some(b) => t.(freed := t.freed + [b])
  }

  function OpenData(t: Table, i: nat): Table
    requires i < |t.slots|
  {
    match t.slots[i].data
    case None => t
    case Some(b) => t.(open := t.open + {b})
  }

  function CloseData(t: Table, i: nat): Table
    requires i < |t.slots|
  {
    match t.slots[i].data
    case None => t
    case Some(b) => if t.slots[i].isConnected then t.(open := t.open - {b}) else t
  }

  function Clear(t: Table, i: nat): Table
    requires i < |t.slots|
  {
    t.(slots := t.slots[i := t.slots[i].(isAllocated := false, isConnected := false)])
  }

  /** lxi_connect; `status` is what the backend's connect returns. */
  function Connect(t: Table, p: Protocol, status: int): (Table, ConnectResult) {
    var i := FirstFree(t.slots, 0);
    if i == |t.slots| then (t, TooManySessions)
    else match BackendOf(p)
         case None => (t, Unsupported)
         case Some(b) =>
           var u := SetUp(t, i, b);
           if status != 0 then (FreeData(u, i), BackendFailed)
           else (Publish(OpenData(u, i), i), Connected(i))
  }

  predicate HasFree(t: Table) { exists i | 0 <= i < |t.slots| :: !t.slots[i].isAllocated }

  /**
    The code lxi_connect returns: the lowest free number, set up for VXI-11 or for plain
    TCP, if one is free, the protocol is one of these two and the backend connects; else -1.
   */
  lemma ConnectCode(t: Table, p: Protocol, status: int)
    ensures var (u, r) := Connect(t, p, status);
      && -1 <= r.Code() < |t.slots| == |u.slots|
      && (r.Code() >= 0 <==> HasFree(t) && (p == VXI11 || p == RAW) && status == 0)
      && (r.Code() >= 0 ==>
            && !t.slots[r.Code()].isAllocated && (forall j | 0 <= j < r.Code() :: t.slots[j].isAllocated)
            && u.slots[r.Code()].isAllocated && u.slots[r.Code()].isConnected
            && u.slots[r.Code()].backend == Some(if p == VXI11 then Vxi11Backend else TcpBackend))
  {}

  /** The range test of is_valid_session: it admits SESSIONS_MAX itself. */
  predicate PassesRangeTest(device: int) { !(device < 0) && !(device > SESSIONS_MAX) }

  /** is_valid_session; `past` is what `allocated` reads as one slot past the end of the array. */
  predicate ValidSession(t: Table, device: int, past: bool)
    requires |t.slots| == SESSIONS_MAX
  {
    PassesRangeTest(device) && (if device == SESSIONS_MAX then past else t.slots[device].isAllocated)
  }

  /** A device number that validates though it stands for no slot; the program is undefined from there on. */
  predicate Stray(device: int, past: bool) { device == SESSIONS_MAX && past }

  /** The part of lxi_disconnect after the second lock. */
  function DisconnectLocked(t: Table, i: nat): Table
    requires i < |t.slots|
  {
    Clear(FreeData(CloseData(t, i), i), i)
  }

  /** The table after a disconnect and whether it was accepted; nothing is known after a stray device. */
  datatype Outcome = Undefined | Defined(table: Table, ok: bool)

  function Disconnect(t: Table, device: int, past: bool): (o: Outcome)
    requires |t.slots| == SESSIONS_MAX
    ensures o.Undefined? <==> Stray(device, past)
  {
    if Stray(device, past) then Undefined
    else if ValidSession(t, device, past) then Defined(DisconnectLocked(t, device), true)
    else Defined(t, false)
  }

  /** lxi_init forgets every session; it neither closes nor frees. */
  function Init(t: Table): Table {
    t.(slots := seq(|t.slots|, i requires 0 <= i < |t.slots| =>
                                 t.slots[i].(isAllocated := false, isConnected := false)))
  }

  /** The range test is sound as an index test except for one device number. */
  lemma RangeTestAdmitsOnePastTheEnd(device: int)
    ensures (PassesRangeTest(device) <==> 0 <= device < SESSIONS_MAX) <==> device != SESSIONS_MAX
  {}

  // ---------- The abstract handle map ----------

  datatype Session = Session(backend: Option<Backend>, data: Option<Block>)

  /** What a handle stands for. */
  function Handles(t: Table): map<int, Session> {
    map i | 0 <= i < |t.slots| && t.slots[i].isAllocated :: Session(t.slots[i].backend, t.slots[i].data)
  }

  function Count(slots: seq<Slot>): nat {
    if slots == [] then 0 else (if slots[0].isAllocated then 1 else 0) + Count(slots[1..])
  }

  lemma {:induction false} CountUpdate(slots: seq<Slot>, i: nat, s: Slot)
    requires i < |slots|
    ensures Count(slots[i := s]) ==
            Count(slots) + (if s.isAllocated then 1 else 0) - (if slots[i].isAllocated then 1 else 0)
  {
    if i > 0 {
      CountUpdate(slots[1..], i - 1, s);
      assert slots[i := s][1..] == slots[1..][i - 1 := s];
    } else {
      assert slots[i := s][1..] == slots[1..];
    }
  }

  lemma {:induction false} NoneAllocated(slots: seq<Slot>)
    requires forall j | 0 <= j < |slots| :: !slots[j].isAllocated
    ensures Count(slots) == 0
  {
    if slots == [] {
    } else {
      NoneAllocated(slots[1..]);
    }
  }

  ghost predicate Distinct(s: seq<Block>) {
    forall j, k | 0 <= j < k < |s| :: s[j] != s[k]
  }

  lemma DistinctSnoc(s: seq<Block>, b: Block)
    requires Distinct(s)
    ensures Distinct(s + [b]) <==> b !in s
  {
    if b in s {
      var k :| 0 <= k < |s| && s[k] == b;
      assert (s + [b])[k] == (s + [b])[|s|];
    }
  }

  ghost predicate Holds(t: Table, i: int, b: Block) {
    0 <= i < |t.slots| && t.slots[i].isAllocated && t.slots[i].data == Some(b)
  }

  /** No two live sessions share a block. */
  ghost predicate NoSharing(t: Table) {
    forall i, j, b | Holds(t, i, b) && Holds(t, j, b) :: i == j
  }

  ghost predicate SlotGood(t: Table, s: Slot) {
    && s.isAllocated == s.isConnected
    && (s.isAllocated ==> s.backend.Some? && s.data.Some? && s.data.value < t.next && s.data.value !in t.freed)
    && (!s.isAllocated && s.data.Some? ==> s.data.value in t.freed)
  }

  /**
    The invariant between calls: allocated slots are connected and own distinct
    live blocks, every allocated block is either freed once or owned by a slot, the
    backend connections that are up are those of the live sessions, and the
    allocations not yet freed are as many as the live sessions.
   */
  ghost predicate Good(t: Table) {
    && |t.slots| == SESSIONS_MAX
    && (forall i | 0 <= i < |t.slots| :: SlotGood(t, t.slots[i]))
    && NoSharing(t)
    && Distinct(t.freed)
    && (forall b | b in t.freed :: b < t.next)
    && (forall b: Block | b < t.next && b !in t.freed :: exists i :: Holds(t, i, b))
    && (forall b: Block :: b in t.open <==> exists i :: Holds(t, i, b))
    && t.next - |t.freed| == Count(t.slots)
  }

  /** A device validates exactly if it is a live handle, but for one past the end with a nonzero byte there. */
  lemma ValidIffLiveUnlessStray(t: Table, device: int, past: bool)
    requires Good(t)
    ensures (ValidSession(t, device, past) <==> device in Handles(t)) <==> !Stray(device, past)
  {}

  // ---------- What connect and disconnect mean for the handles ----------

  lemma PublishedIsGood(t: Table, i: nat, b: Backend)
    requires Good(t) && i < |t.slots| && !t.slots[i].isAllocated
    ensures Good(Publish(OpenData(SetUp(t, i, b), i), i))
  {
    var u := Publish(OpenData(SetUp(t, i, b), i), i);
    CountUpdate(t.slots, i, u.slots[i]);
    assert u.slots == t.slots[i := u.slots[i]];
    assert Holds(u, i, t.next);
    assert forall j, c: Block | Holds(t, j, c) :: Holds(u, j, c);
    assert forall j, c: Block | Holds(u, j, c) && j != i :: Holds(t, j, c) && c < t.next;
  }

  lemma FailedIsGood(t: Table, i: nat, b: Backend)
    requires Good(t) && i < |t.slots| && !t.slots[i].isAllocated
    ensures Good(FreeData(SetUp(t, i, b), i))
  {
    var u := FreeData(SetUp(t, i, b), i);
    CountUpdate(t.slots, i, u.slots[i]);
    DistinctSnoc(t.freed, t.next);
    assert u.slots == t.slots[i := u.slots[i]];
    assert forall j, c: Block :: Holds(t, j, c) <==> Holds(u, j, c);
  }

  lemma ConnectKeepsGood(t: Table, p: Protocol, status: int)
    requires Good(t)
    ensures Good(Connect(t, p, status).0)
  {
    var i := FirstFree(t.slots, 0);
    if i < |t.slots| && BackendOf(p).Some? {
      PublishedIsGood(t, i, BackendOf(p).value);
      FailedIsGood(t, i, BackendOf(p).value);
    }
  }

  /**
    Connect as an operation on the handle map: it succeeds with the lowest handle
    not in use exactly when one is free, the protocol has a backend and the backend
    connects; it then adds that handle with a new block, and otherwise changes nothing.
   */
  lemma ConnectRefinesMap(t: Table, p: Protocol, status: int)
    requires Good(t)
    ensures var (u, r) := Connect(t, p, status);
      && (r.TooManySessions? <==> forall h | 0 <= h < SESSIONS_MAX :: h in Handles(t))
      && (r.Connected? <==> !r.TooManySessions? && BackendOf(p).Some? && status == 0)
      && (r.Unsupported? <==> !r.TooManySessions? && BackendOf(p).None?)
      && (r.Connected? ==>
            && r.handle < SESSIONS_MAX && r.handle !in Handles(t)
            && (forall h | 0 <= h < r.handle :: h in Handles(t))
            && Handles(u) == Handles(t)[r.handle as int := Session(BackendOf(p), Some(t.next))])
      && (!r.Connected? ==> Handles(u) == Handles(t))
      && t.next !in t.freed && t.next !in t.open
  {
    var i := FirstFree(t.slots, 0);
    if i < |t.slots| {
      assert i !in Handles(t);
      if BackendOf(p).Some? {
        PublishedHandles(t, i, BackendOf(p).value);
      }
    }
  }

  lemma PublishedHandles(t: Table, i: nat, b: Backend)
    requires i < |t.slots| && !t.slots[i].isAllocated
    ensures Handles(Publish(OpenData(SetUp(t, i, b), i), i)) == Handles(t)[i as int := Session(Some(b), Some(t.next))]
    ensures Handles(FreeData(SetUp(t, i, b), i)) == Handles(t)
  {}

  lemma DisconnectLockedIsGood(t: Table, i: nat)
    requires Good(t) && i < |t.slots| && t.slots[i].isAllocated
    ensures Good(DisconnectLocked(t, i))
  {
    var u := DisconnectLocked(t, i);
    var b := t.slots[i].data.value;
    CountUpdate(t.slots, i, u.slots[i]);
    assert u.slots == t.slots[i := u.slots[i]];
    DistinctSnoc(t.freed, b);
    assert Holds(t, i, b);
    forall j, c: Block | Holds(u, j, c) ensures Holds(t, j, c) && c != b && c !in u.freed {
      assert Holds(t, j, c);
    }
    forall j | 0 <= j < |u.slots| ensures SlotGood(u, u.slots[j]) {
      assert SlotGood(t, t.slots[j]);
      if u.slots[j].isAllocated {
        assert Holds(u, j, u.slots[j].data.value);
      }
    }
    assert forall j, c: Block | Holds(t, j, c) && j != i :: Holds(u, j, c);
  }

  lemma DisconnectKeepsGood(t: Table, device: int, past: bool)
    requires Good(t)
    ensures Disconnect(t, device, past).Defined? ==> Good(Disconnect(t, device, past).table)
  {
    if !Stray(device, past) && ValidSession(t, device, past) {
      DisconnectLockedIsGood(t, device);
    }
  }

  /** Disconnect removes exactly the handle it is given, if it is live, and frees its block. */
  lemma DisconnectRefinesMap(t: Table, device: int, past: bool)
    requires Good(t)
    ensures match Disconnect(t, device, past)
      case Undefined => Stray(device, past)
      case Defined(u, ok) =>
        && (ok <==> device in Handles(t))
        && Handles(u) == Handles(t) - {device}
        && (ok ==> Handles(t)[device].data.Some?
                   && u.freed == t.freed + [Handles(t)[device].data.value]
                   && u.open == t.open - {Handles(t)[device].data.value})
        && (!ok ==> u == t)
  {
    var o := Disconnect(t, device, past);
    if o.Defined? {
      assert Handles(o.table) == Handles(t) - {device};
    }
  }

  // ---------- Runs of calls ----------

  /** Each call finds its own byte past the array. */
  datatype Call =
    | DoConnect(protocol: Protocol, status: int)
    | DoDisconnect(device: int, past: bool)
    | DoTransfer(device: int, past: bool)  // lxi_send or lxi_receive: the table is only read

  predicate IsStray(c: Call) { !c.DoConnect? && Stray(c.device, c.past) }

  predicate Disconnects(c: Call, h: int) { c.DoDisconnect? && c.device == h }

  ghost predicate AnyDisconnects(cs: seq<Call>, h: int) { exists c | c in cs :: Disconnects(c, h) }

  /** The table after a call, unless the call leaves everything undefined. */
  function Perform(t: Table, c: Call): (u: Option<Table>)
    requires |t.slots| == SESSIONS_MAX
    ensures u.None? <==> IsStray(c)
    ensures u.Some? ==> |u.value.slots| == SESSIONS_MAX
  {
    match c
    case DoConnect(p, status) => Some(Connect(t, p, status).0)
    case DoDisconnect(device, past) =>
      (match Disconnect(t, device, past) case Undefined => None case Defined(u, _) => Some(u))
    case DoTransfer(device, past) => if Stray(device, past) then None else Some(t)
  }

  function Run(t: Table, cs: seq<Call>): (u: Option<Table>)
    requires |t.slots| == SESSIONS_MAX
    ensures u.Some? ==> |u.value.slots| == SESSIONS_MAX
    decreases cs
  {
    if cs == [] then Some(t)
    else match Perform(t, cs[0])
         case None => None
         case Some(u) => Run(u, cs[1..])
  }

  lemma CallKeepsGood(t: Table, c: Call)
    requires Good(t) && !IsStray(c)
    ensures Good(Perform(t, c).value)
  {
    match c
    case DoConnect(p, status) => ConnectKeepsGood(t, p, status);
    case DoDisconnect(device, past) => DisconnectKeepsGood(t, device, past);
    case DoTransfer(_, _) =>
  }

  /**
    Every run of calls, failed and unsupported ones included, keeps the invariant, unless
    some call is stray, and only then is it undefined.
   */
  lemma {:induction false} RunKeepsGood(t: Table, cs: seq<Call>)
    requires Good(t)
    ensures Run(t, cs).Some? ==> Good(Run(t, cs).value)
    ensures Run(t, cs).None? <==> exists c | c in cs :: IsStray(c)
    decreases cs
  {
    if cs == [] {
    } else if IsStray(cs[0]) {
      assert cs[0] in cs;
    } else {
      CallKeepsGood(t, cs[0]);
      RunKeepsGood(Perform(t, cs[0]).value, cs[1..]);
      if c :| c in cs && IsStray(c) {
        assert c in cs[1..];
      }
    }
  }

  /** After initialisation the blocks in use are as many as the live handles, in every run. */
  lemma BlocksAreConserved(cs: seq<Call>)
    ensures match Run(Init(Zeroed()), cs)
      case None => exists c | c in cs :: IsStray(c)
      case Some(t) =>
        && t.next - |t.freed| == |Handles(t)|
        && (forall i | 0 <= i < SESSIONS_MAX :: t.slots[i].isAllocated == t.slots[i].isConnected)
        && Distinct(t.freed)
  {
    assert Init(Zeroed()).slots == Zeroed().slots;
    RunKeepsGood(Init(Zeroed()), cs);
    var r := Run(Init(Zeroed()), cs);
    if r.Some? {
      CountIsSize(r.value);
    }
  }

  lemma {:induction false} CountIsSize(t: Table)
    ensures Count(t.slots) == |Handles(t)|
    decreases |t.slots|
  {
    if t.slots == [] {
    } else {
      var n := |t.slots| - 1;
      var u := t.(slots := t.slots[..n]);
      CountIsSize(u);
      CountSnoc(u.slots, t.slots[n]);
      assert t.slots == u.slots + [t.slots[n]];
      HandlesSnoc(t, u, n);
    }
  }

  lemma HandlesSnoc(t: Table, u: Table, n: nat)
    requires |t.slots| == n + 1 && u.slots == t.slots[..n]
    ensures n !in Handles(u)
    ensures Handles(t) ==
            if t.slots[n].isAllocated then Handles(u)[n as int := Session(t.slots[n].backend, t.slots[n].data)]
            else Handles(u)
  {}

  lemma {:induction false} CountSnoc(slots: seq<Slot>, s: Slot)
    ensures Count(slots + [s]) == Count(slots) + (if s.isAllocated then 1 else 0)
  {
    if slots == [] {
      assert slots + [s] == [s];
    } else {
      CountSnoc(slots[1..], s);
      assert (slots + [s])[1..] == slots[1..] + [s];
    }
  }

  /**
    A live handle keeps its backend and its block through any calls that do not
    disconnect it, so every transfer on it goes to the backend chosen at connect.
   */
  lemma {:induction false} LiveHandleIsStable(t: Table, cs: seq<Call>, h: int)
    requires Good(t) && h in Handles(t) && !AnyDisconnects(cs, h)
    ensures match Run(t, cs)
      case None => exists c | c in cs :: IsStray(c)
      case Some(u) => h in Handles(u) && Handles(u)[h] == Handles(t)[h]
    decreases cs
  {
    RunKeepsGood(t, cs);
    if cs == [] || IsStray(cs[0]) {
    } else {
      assert cs[0] in cs;
      CallKeepsGood(t, cs[0]);
      CallKeepsHandle(t, cs[0], h);
      LiveHandleIsStable(Perform(t, cs[0]).value, cs[1..], h);
    }
  }

  lemma CallKeepsHandle(t: Table, c: Call, h: int)
    requires Good(t) && h in Handles(t) && !IsStray(c) && !Disconnects(c, h)
    ensures h in Handles(Perform(t, c).value) && Handles(Perform(t, c).value)[h] == Handles(t)[h]
  {
    match c
    case DoConnect(p, status) => ConnectRefinesMap(t, p, status);
    case DoDisconnect(device, past) => DisconnectRefinesMap(t, device, past);
    case DoTransfer(_, _) =>
  }

  // ---------- What breaks it ----------

  /** A second lxi_init clears both flags and nothing else; it loses blocks exactly when a session is live. */
  lemma InitLeaksIffLive(t: Table)
    requires Good(t)
    ensures Handles(Init(t)) == map[]
    ensures Good(Init(t)) <==> Handles(t) == map[]
    ensures forall i | 0 <= i < SESSIONS_MAX ::
      Init(t).slots[i] == Slot(false, false, t.slots[i].backend, t.slots[i].data)
    ensures Init(t).next == t.next && Init(t).freed == t.freed && Init(t).open == t.open
  {
    var u := Init(t);
    NoneAllocated(u.slots);
    CountIsSize(t);
    if Handles(t) == map[] {
      forall i | 0 <= i < |t.slots| ensures u.slots[i] == t.slots[i] {
        assert i !in Handles(t) && SlotGood(t, t.slots[i]);
      }
      assert u.slots == t.slots;
    } else {
      var h :| h in Handles(t);
      assert |Handles(t)| > 0;
    }
  }

  /**
    The locked half of lxi_disconnect frees a block that is already free exactly
    when the slot is no longer allocated but still carries its old pointer.
   */
  lemma DoubleFreeIffCleared(t: Table, i: nat)
    requires Good(t) && i < |t.slots|
    ensures !Distinct(DisconnectLocked(t, i).freed) <==> !t.slots[i].isAllocated && t.slots[i].data.Some?
  {
    var s := t.slots[i];
    assert SlotGood(t, s);
    if s.data.Some? {
      DistinctSnoc(t.freed, s.data.value);
    }
  }

  /** A slot that was ever used keeps some pointers. */
  lemma {:induction false} UsedSlotKeepsPointers(t: Table, cs: seq<Call>, i: nat)
    requires |t.slots| == SESSIONS_MAX && i < SESSIONS_MAX && t.slots[i].data.Some? && t.slots[i].backend.Some?
    ensures Run(t, cs).Some? ==> Run(t, cs).value.slots[i].data.Some? && Run(t, cs).value.slots[i].backend.Some?
    decreases cs
  {
    if cs == [] || IsStray(cs[0]) {
    } else {
      UsedSlotKeepsPointers(Perform(t, cs[0]).value, cs[1..], i);
    }
  }

  lemma {:induction false} FreedStaysFreed(t: Table, cs: seq<Call>, b: Block)
    requires |t.slots| == SESSIONS_MAX && b in t.freed
    ensures Run(t, cs).Some? ==> b in Run(t, cs).value.freed
    decreases cs
  {
    if cs == [] || IsStray(cs[0]) {
    } else {
      FreedStaysFreed(Perform(t, cs[0]).value, cs[1..], b);
    }
  }

  /**
    lxi_disconnect validates, unlocks and locks again.  If another disconnect of the
    same handle comes in between, followed by any calls, then the late half does one of
    two things: if the handle is free it frees a block twice, and if it has been given
    out again it closes that new session and frees its block behind its owner's back.
   */
  lemma LateDisconnect(t: Table, h: nat, cs: seq<Call>)
    requires Good(t) && h < SESSIONS_MAX && h in Handles(t)
    ensures match Run(DisconnectLocked(t, h), cs)
      case None => exists c | c in cs :: IsStray(c)
      case Some(u) =>
        && (!Distinct(DisconnectLocked(u, h).freed) <==> h !in Handles(u))
        && (h in Handles(u) ==>
              && Good(DisconnectLocked(u, h))
              && Handles(DisconnectLocked(u, h)) == Handles(u) - {h as int}
              && Handles(u)[h].data.Some? && Handles(u)[h].data != Handles(t)[h].data
              && DisconnectLocked(u, h).freed == u.freed + [Handles(u)[h].data.value])
  {
    var v := DisconnectLocked(t, h);
    assert SlotGood(t, t.slots[h]);
    DisconnectLockedIsGood(t, h);
    RunKeepsGood(v, cs);
    UsedSlotKeepsPointers(v, cs, h);
    FreedStaysFreed(v, cs, t.slots[h].data.value);
    if Run(v, cs).Some? {
      var u := Run(v, cs).value;
      DoubleFreeIffCleared(u, h);
      if h in Handles(u) {
        assert SlotGood(u, u.slots[h]);
        DisconnectLockedIsGood(u, h);
        DisconnectRefinesMap(u, h, false);
      }
    }
  }

  /** Both happen: at once, and when a connect takes the slot in between. */
  lemma LateDisconnectDoesBoth(t: Table, h: nat, p: Protocol)
    requires Good(t) && h < SESSIONS_MAX && h in Handles(t) && BackendOf(p).Some?
    requires forall k | 0 <= k < h :: k in Handles(t)
    ensures h !in Handles(Run(DisconnectLocked(t, h), []).value)
    ensures var r := Run(DisconnectLocked(t, h), [DoConnect(p, 0)]);
      r.Some? && h in Handles(r.value)
  {
    var v := DisconnectLocked(t, h);
    DisconnectLockedIsGood(t, h);
    DisconnectRefinesMap(t, h, false);
    ConnectRefinesMap(v, p, 0);
    assert [DoConnect(p, 0)][1..] == [];
  }

  /** The block of a live handle has been freed exactly if some call disconnected the handle. */
  lemma {:induction false} FreedIffDisconnected(t: Table, cs: seq<Call>, h: int, b: Block)
    requires Good(t) && h in Handles(t) && Handles(t)[h].data == Some(b)
    ensures Run(t, cs).Some? ==> (b in Run(t, cs).value.freed <==> AnyDisconnects(cs, h))
    decreases cs
  {
    assert SlotGood(t, t.slots[h]);
    if cs == [] || IsStray(cs[0]) {
    } else if Disconnects(cs[0], h) {
      assert cs[0] in cs;
      DisconnectRefinesMap(t, h, cs[0].past);
      FreedStaysFreed(Perform(t, cs[0]).value, cs[1..], b);
    } else {
      CallKeepsGood(t, cs[0]);
      CallKeepsHandle(t, cs[0], h);
      FreedIffDisconnected(Perform(t, cs[0]).value, cs[1..], h, b);
      TailDisconnects(cs, h);
    }
  }

  lemma TailDisconnects(cs: seq<Call>, h: int)
    requires cs != [] && !Disconnects(cs[0], h)
    ensures AnyDisconnects(cs, h) <==> AnyDisconnects(cs[1..], h)
  {
    if c :| c in cs && Disconnects(c, h) {
      assert c in cs[1..];
    }
  }

  /**
    lxi_send and lxi_receive validate, unlock and then read the slot.  After any calls in
    between the transfer still uses the session it validated if and only if none of them
    disconnected the handle.  Otherwise it uses a freed block if and only if the handle is
    free, and else the session of whoever was given the handle since.
   */
  lemma LateTransfer(t: Table, h: nat, cs: seq<Call>)
    requires Good(t) && h < SESSIONS_MAX && h in Handles(t)
    ensures match Run(t, cs)
      case None => exists c | c in cs :: IsStray(c)
      case Some(u) =>
        var used := Session(u.slots[h].backend, u.slots[h].data);
        && used.backend.Some? && used.data.Some?
        && (used.data.value in u.freed <==> h !in Handles(u))
        && (h in Handles(u) ==> used == Handles(u)[h])
        && (h in Handles(u) && used.data == Handles(t)[h].data <==> !AnyDisconnects(cs, h))
        && (!AnyDisconnects(cs, h) ==> used == Handles(t)[h])
  {
    assert SlotGood(t, t.slots[h]);
    RunKeepsGood(t, cs);
    UsedSlotKeepsPointers(t, cs, h);
    FreedIffDisconnected(t, cs, h, t.slots[h].data.value);
    if !AnyDisconnects(cs, h) {
      LiveHandleIsStable(t, cs, h);
    }
    if Run(t, cs).Some? {
      var u := Run(t, cs).value;
      assert SlotGood(u, u.slots[h]);
    }
  }
}
