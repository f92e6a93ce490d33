/**
  The session table used by many threads at once.  A step is one access to the
  table, one mutex operation or one API call; every interleaving of any number of
  threads is a sequence of steps.  Any thread may pass any device number to any call.
  The client's only duty is that a live handle is disconnected by the thread that owns
  it; ownership may be handed over.
 */
module SessionThreads {
  import opened Common
  import opened Sessions

  type Tid = nat
  type Index = i: nat | i < SESSIONS_MAX witness 0
  type Device = i: nat | i <= SESSIONS_MAX witness 0  // what passes the range test

  /** What a call tells its caller. */
  datatype Answer =
    | ConnectDone(result: ConnectResult)
    | Disconnected | DisconnectRefused
    | Transferred | TransferRefused

  datatype Pc =
    | Idle
    // lxi_connect
    | ConnectCalled(protocol: Protocol)
    | Scanning(protocol: Protocol, next: nat)
    | Chosen(protocol: Protocol, i: Index)
    | Dialling(protocol: Protocol, i: Index)  // backend set, block allocated, connect called
    | Publishing(protocol: Protocol, i: Index)
    | Failing(i: Index)
    | Leaving(answer: Answer)
    // is_valid_session, on behalf of lxi_disconnect or of a transfer
    | ValidateCalled(device: Device, disconnect: bool)
    | Validating(device: Device, disconnect: bool)
    | Validated(device: Device, disconnect: bool, ok: bool)
    // lxi_disconnect, second critical section
    | RelockNeeded(h: Index)
    | Closing(h: Index)
    | Freeing(h: Index)
    | Clearing(h: Index)
    // lxi_send, lxi_receive: the slot is read without the mutex
    | Using(h: Index)

  datatype State = State(table: Table, mutex: Option<Tid>, pcs: map<Tid, Pc>, owner: map<int, Tid>)

  datatype Action =
    | CallConnect(protocol: Protocol)
    | CallDisconnect(device: int)
    | CallTransfer(device: int)
    | HandOver(device: int, to: Tid)
    | Lock | Unlock
    | Look | SetUpSlot | Dial(status: int) | PublishSlot | FreeFailed
    | Check(past: bool)  // past: what is read one slot past the end of the array
    | Close | FreeBlock | ClearSlot
    | UseSlot

  datatype Step = Step(t: Tid, a: Action)

  /** The state after lxi_init: no thread is inside the library. */
  function Start(): State { State(Zeroed(), None, map[], map[]) }

  function At(s: State, t: Tid): Pc { if t in s.pcs then s.pcs[t] else Idle }

  function Go(s: State, t: Tid, pc: Pc): State { s.(pcs := s.pcs[t := pc]) }

  predicate Enabled(s: State, e: Step) {
    var pc := At(s, e.t);
    match e.a
    case CallConnect(_) => pc.Idle?
    case CallDisconnect(_) => pc.Idle?
    case CallTransfer(_) => pc.Idle?
    case HandOver(device, _) => pc.Idle? && device in s.owner && s.owner[device] == e.t
    case Lock => s.mutex.None? && (pc.ConnectCalled? || pc.ValidateCalled? || pc.RelockNeeded?)
    case Unlock => pc.Leaving? || pc.Validated?
    case Look => pc.Scanning? && pc.next <= SESSIONS_MAX
    case SetUpSlot => pc.Chosen?
    case Dial(_) => pc.Dialling?
    case PublishSlot => pc.Publishing?
    case FreeFailed => pc.Failing?
    case Check(_) => pc.Validating?
    case Close => pc.Closing?
    case FreeBlock => pc.Freeing?
    case ClearSlot => pc.Clearing?
    case UseSlot => pc.Using?
  }

  function AfterLock(pc: Pc): Pc {
    match pc
    case ConnectCalled(p) => Scanning(p, 0)
    case ValidateCalled(h, d) => Validating(h, d)
    case RelockNeeded(h) => Closing(h)
    case _ => pc
  }

  function AfterUnlock(pc: Pc): Pc {
    match pc
    case Validated(device, d, ok) =>
      if !ok || device == SESSIONS_MAX then Idle else if d then RelockNeeded(device) else Using(device)
    case _ => Idle
  }

  function AfterLook(t: Table, pc: Pc): Pc
    requires |t.slots| == SESSIONS_MAX && pc.Scanning? && pc.next <= SESSIONS_MAX
  {
    if pc.next == SESSIONS_MAX then Leaving(ConnectDone(TooManySessions))
    else if !t.slots[pc.next].isAllocated then Chosen(pc.protocol, pc.next)
    else Scanning(pc.protocol, pc.next + 1)
  }

  function Validate(s: State, t: Tid, device: int, disconnect: bool): State {
    if PassesRangeTest(device) then Go(s, t, ValidateCalled(device, disconnect)) else s
  }

  function Apply(s: State, e: Step): (s': State)
    requires |s.table.slots| == SESSIONS_MAX && Enabled(s, e)
    ensures |s'.table.slots| == SESSIONS_MAX
  {
    var t := e.t;
    var pc := At(s, t);
    match e.a
    case CallConnect(p) => Go(s, t, ConnectCalled(p))
    case CallDisconnect(device) => Validate(s, t, device, true)
    case CallTransfer(device) => Validate(s, t, device, false)
    case HandOver(device, to) => s.(owner := s.owner[device := to])
    case Lock => Go(s, t, AfterLock(pc)).(mutex := Some(t))
    case Unlock => Go(s, t, AfterUnlock(pc)).(mutex := None)
    case Look => Go(s, t, AfterLook(s.table, pc))
    case SetUpSlot =>
      (match BackendOf(pc.protocol)
       case None => Go(s, t, Leaving(ConnectDone(Unsupported)))
       case Some(b) => Go(s, t, Dialling(pc.protocol, pc.i)).(table := SetUp(s.table, pc.i, b)))
    case Dial(status) =>
      if status != 0 then Go(s, t, Failing(pc.i))
      else Go(s, t, Publishing(pc.protocol, pc.i)).(table := OpenData(s.table, pc.i))
    case PublishSlot =>
      Go(s, t, Leaving(ConnectDone(Connected(pc.i)))).(
        table := Publish(s.table, pc.i), owner := s.owner[pc.i as int := t])
    case FreeFailed => Go(s, t, Leaving(ConnectDone(BackendFailed))).(table := FreeData(s.table, pc.i))
    case Check(past) => Go(s, t, Validated(pc.device, pc.disconnect, ValidSession(s.table, pc.device, past)))
    case Close => Go(s, t, Freeing(pc.h)).(table := CloseData(s.table, pc.h))
    case FreeBlock => Go(s, t, Clearing(pc.h)).(table := FreeData(s.table, pc.h))
    case ClearSlot => Go(s, t, Leaving(Disconnected)).(table := Clear(s.table, pc.h), owner := s.owner - {pc.h as int})
    case UseSlot => Go(s, t, Idle)
  }

  /**
    The client's duty: a disconnect that finds its handle live is called by the owner.  A
    number that is not live may be passed by anyone, and a transfer may be called by anyone.
    No call may find one past the end of the array what looks like a live slot; the
    program is undefined from there on.
   */
  predicate Dutiful(s: State, e: Step)
    requires |s.table.slots| == SESSIONS_MAX
  {
    e.a.Check? && At(s, e.t).Validating? ==>
      var pc := At(s, e.t);
      && !Stray(pc.device, e.a.past)
      && (pc.disconnect && pc.device < SESSIONS_MAX && s.table.slots[pc.device].isAllocated ==>
            pc.device as int in s.owner && s.owner[pc.device as int] == e.t)
  }

  predicate CanRun(s: State, es: seq<Step>)
    requires |s.table.slots| == SESSIONS_MAX
    decreases es
  {
    es == [] || (Enabled(s, es[0]) && Dutiful(s, es[0]) && CanRun(Apply(s, es[0]), es[1..]))
  }

  function After(s: State, es: seq<Step>): (s': State)
    requires |s.table.slots| == SESSIONS_MAX && CanRun(s, es)
    ensures |s'.table.slots| == SESSIONS_MAX
    decreases es
  {
    if es == [] then s else After(Apply(s, es[0]), es[1..])
  }

  // ---------- The invariant ----------

  /** Program points between a lock and the matching unlock. */
  predicate Critical(pc: Pc) {
    pc.Scanning? || pc.Chosen? || pc.Dialling? || pc.Publishing? || pc.Failing? || pc.Leaving?
    || pc.Validating? || pc.Validated? || pc.Closing? || pc.Freeing? || pc.Clearing?
  }

  ghost predicate MutexInv(s: State) {
    forall t: Tid :: Critical(At(s, t)) <==> s.mutex == Some(t)
  }

  ghost predicate OwnerInv(s: State) {
    forall h :: h in s.owner <==> 0 <= h < |s.table.slots| && s.table.slots[h].isAllocated
  }

  predicate Owns(s: State, t: Tid, h: Index) { h as int in s.owner && s.owner[h as int] == t }

  predicate LowestFree(t: Table, i: nat) {
    i < |t.slots| && !t.slots[i].isAllocated && forall j | 0 <= j < i :: t.slots[j].isAllocated
  }

  /** What each thread may rely on where it stands. */
  predicate PcInv(s: State, t: Tid)
    requires |s.table.slots| == SESSIONS_MAX
  {
    match At(s, t)
    case Idle | ConnectCalled(_) => true
    case Scanning(_, n) => n <= SESSIONS_MAX && forall j | 0 <= j < n :: s.table.slots[j].isAllocated
    case Chosen(_, i) => LowestFree(s.table, i)
    case Dialling(p, i) => LowestFree(s.table, i) && InFlight(s.table, i) && s.table.slots[i].backend == BackendOf(p)
    case Publishing(p, i) => LowestFree(s.table, i) && InFlight(s.table, i) && s.table.slots[i].backend == BackendOf(p)
    case Failing(i) => LowestFree(s.table, i) && InFlight(s.table, i)
    case Leaving(a) =>
      a.ConnectDone? && a.result.Connected? ==> a.result.handle < SESSIONS_MAX && Owns(s, t, a.result.handle)
    case ValidateCalled(_, _) => true
    case Validating(_, _) => true
    case Validated(device, d, ok) =>
      ok ==> device < SESSIONS_MAX && Used(s.table, device) && (d ==> Owns(s, t, device))
    case RelockNeeded(h) => Owns(s, t, h)
    case Closing(h) => Owns(s, t, h)
    case Freeing(h) => Owns(s, t, h)
    case Clearing(h) => Owns(s, t, h)
    case Using(h) => Used(s.table, h)
  }

  /** The slot has its pointers, live or stale. */
  predicate Used(t: Table, i: Index)
    requires |t.slots| == SESSIONS_MAX
  {
    t.slots[i].backend.Some? && t.slots[i].data.Some?
  }

  /** The slot carries the block allocated last, and is not yet published. */
  predicate InFlight(t: Table, i: Index)
    requires |t.slots| == SESSIONS_MAX
  {
    t.next > 0 && t.slots[i].data == Some(t.next - 1) && t.slots[i].backend.Some? && !t.slots[i].isConnected
  }

  /** The table before the set-up of slot i, with the slot's stale contents forgotten. */
  function Undo(t: Table, i: Index): Table
    requires |t.slots| == SESSIONS_MAX && t.next > 0
  {
    t.(slots := t.slots[i := Slot(false, false, None, None)], next := t.next - 1)
  }

  /** The table as it is once the critical section in progress is completed or undone. */
  function Settled(s: State): Table
    requires |s.table.slots| == SESSIONS_MAX
  {
    match s.mutex
    case None => s.table
    case Some(t) =>
      match At(s, t)
      case Dialling(_, i) => if s.table.next > 0 then Undo(s.table, i) else s.table
      case Failing(i) => if s.table.next > 0 then Undo(s.table, i) else s.table
      case Publishing(_, i) => Publish(s.table, i)
      case Freeing(h) => Clear(FreeData(s.table, h), h)
      case Clearing(h) => Clear(s.table, h)
      case _ => s.table
  }

  ghost predicate Inv(s: State) {
    && |s.table.slots| == SESSIONS_MAX
    && MutexInv(s)
    && OwnerInv(s)
    && (forall t: Tid :: PcInv(s, t))
    && Good(Settled(s))
  }

  lemma StepKeepsMutexInv(s: State, e: Step)
    requires Inv(s) && Enabled(s, e)
    ensures MutexInv(Apply(s, e))
  {
    var s' := Apply(s, e);
    assert Critical(At(s, e.t)) <==> s.mutex == Some(e.t);
    forall t: Tid ensures Critical(At(s', t)) <==> s'.mutex == Some(t) {
      assert Critical(At(s, t)) <==> s.mutex == Some(t);
    }
  }

  lemma StepKeepsOwnerInv(s: State, e: Step)
    requires Inv(s) && Enabled(s, e)
    ensures OwnerInv(Apply(s, e))
  {
    var s' := Apply(s, e);
    assert PcInv(s, e.t);
    forall h: int ensures h in s'.owner <==> 0 <= h < |s'.table.slots| && s'.table.slots[h].isAllocated {
      assert h in s.owner <==> 0 <= h < |s.table.slots| && s.table.slots[h].isAllocated;
    }
  }

  /** Steps of lxi_connect; the others are calls, validations, disconnects and transfers. */
  predicate Connecting(a: Action) {
    a.CallConnect? || a.Look? || a.SetUpSlot? || a.Dial? || a.PublishSlot? || a.FreeFailed?
  }

  lemma ConnectKeepsOwnPcInv(s: State, e: Step)
    requires |s.table.slots| == SESSIONS_MAX && PcInv(s, e.t) && Enabled(s, e) && Connecting(e.a)
    requires e.a.SetUpSlot? ==> !s.table.slots[At(s, e.t).i].isConnected
    ensures PcInv(Apply(s, e), e.t)
  {}

  lemma OthersKeepOwnPcInv(s: State, e: Step)
    requires |s.table.slots| == SESSIONS_MAX && PcInv(s, e.t) && Enabled(s, e) && Dutiful(s, e) && !Connecting(e.a)
    requires e.a.Check? ==>
      var device := At(s, e.t).device;
      device < SESSIONS_MAX && s.table.slots[device].isAllocated ==> Used(s.table, device)
    ensures PcInv(Apply(s, e), e.t)
  {}

  /** Outside a critical section a step leaves the table alone, and gives away only what its own thread owns. */
  lemma OutsideLeavesTable(s: State, e: Step, t: Tid)
    requires |s.table.slots| == SESSIONS_MAX && Enabled(s, e) && !Critical(At(s, e.t)) && t != e.t
    ensures Apply(s, e).table == s.table && At(Apply(s, e), t) == At(s, t)
    ensures forall h: Index | Owns(s, t, h) :: Owns(Apply(s, e), t, h)
  {}

  /** Inside one, a step changes one slot at most, one its own thread owns or nobody does, and takes no pointer away. */
  lemma InsideKeepsOthersSlots(s: State, e: Step, t: Tid)
    requires |s.table.slots| == SESSIONS_MAX && OwnerInv(s) && PcInv(s, e.t) && Enabled(s, e) && t != e.t
    requires Critical(At(s, e.t))
    ensures At(Apply(s, e), t) == At(s, t)
    ensures forall h: Index | Owns(s, t, h) :: Owns(Apply(s, e), t, h)
    ensures forall h: Index | Used(s.table, h) :: Used(Apply(s, e).table, h)
  {
    assert forall h: Index | Owns(s, t, h) :: s.table.slots[h].isAllocated;
  }

  /** A step of one thread takes nothing away from another. */
  lemma StepKeepsOtherPcInv(s: State, e: Step, t: Tid)
    requires Inv(s) && Enabled(s, e) && t != e.t
    ensures PcInv(Apply(s, e), t)
  {
    assert PcInv(s, t) && PcInv(s, e.t);
    assert Critical(At(s, t)) <==> s.mutex == Some(t);
    assert Critical(At(s, e.t)) <==> s.mutex == Some(e.t);
    if Critical(At(s, e.t)) {
      InsideKeepsOthersSlots(s, e, t);
      OutsidePcInv(s, Apply(s, e), t);
    } else {
      OutsideLeavesTable(s, e, t);
      SameTablePcInv(s, Apply(s, e), t);
    }
  }

  /** What a thread outside a critical section relies on: what it owns, and pointers. */
  lemma OutsidePcInv(s: State, s': State, t: Tid)
    requires |s.table.slots| == |s'.table.slots| == SESSIONS_MAX && PcInv(s, t)
    requires At(s', t) == At(s, t) && !Critical(At(s, t))
    requires forall h: Index | Owns(s, t, h) :: Owns(s', t, h)
    requires forall h: Index | Used(s.table, h) :: Used(s'.table, h)
    ensures PcInv(s', t)
  {}

  lemma SameTablePcInv(s: State, s': State, t: Tid)
    requires |s.table.slots| == SESSIONS_MAX && s'.table == s.table && PcInv(s, t) && At(s', t) == At(s, t)
    requires forall h: Index | Owns(s, t, h) :: Owns(s', t, h)
    ensures PcInv(s', t)
  {}

  lemma ForgetStale(t: Table, i: Index)
    requires Good(t) && !t.slots[i].isAllocated
    ensures Good(t.(slots := t.slots[i := Slot(false, false, None, None)]))
  {
    var u := t.(slots := t.slots[i := Slot(false, false, None, None)]);
    CountUpdate(t.slots, i, Slot(false, false, None, None));
    assert forall j, b: Block :: Holds(u, j, b) <==> Holds(t, j, b);
  }

  lemma SetUpUndone(t: Table, i: Index, b: Backend)
    requires |t.slots| == SESSIONS_MAX
    ensures Undo(SetUp(t, i, b), i) == t.(slots := t.slots[i := Slot(false, false, None, None)])
  {}

  lemma SetUpKeepsSettledGood(s: State, e: Step)
    requires Inv(s) && Enabled(s, e) && e.a.SetUpSlot?
    ensures Good(Settled(Apply(s, e)))
  {
    var pc := At(s, e.t);
    assert PcInv(s, e.t);
    assert Critical(pc) <==> s.mutex == Some(e.t);
    if BackendOf(pc.protocol).Some? {
      ForgetStale(s.table, pc.i);
      SetUpUndone(s.table, pc.i, BackendOf(pc.protocol).value);
    }
  }

  lemma Redo(t: Table, i: Index)
    requires |t.slots| == SESSIONS_MAX && InFlight(t, i) && !t.slots[i].isAllocated
    ensures SetUp(Undo(t, i), i, t.slots[i].backend.value) == t
  {
    assert SetUp(Undo(t, i), i, t.slots[i].backend.value).slots == t.slots;
  }

  /** Both ways out of a connect restore the invariant. */
  lemma InFlightCanFinish(t: Table, i: Index)
    requires |t.slots| == SESSIONS_MAX && InFlight(t, i) && !t.slots[i].isAllocated && Good(Undo(t, i))
    ensures Good(Publish(OpenData(t, i), i)) && Good(FreeData(t, i))
  {
    Redo(t, i);
    PublishedIsGood(Undo(t, i), i, t.slots[i].backend.value);
    FailedIsGood(Undo(t, i), i, t.slots[i].backend.value);
  }

  lemma DialKeepsSettledGood(s: State, e: Step)
    requires Inv(s) && Enabled(s, e) && (e.a.Dial? || e.a.FreeFailed?)
    ensures Good(Settled(Apply(s, e)))
  {
    assert PcInv(s, e.t);
    assert Critical(At(s, e.t)) <==> s.mutex == Some(e.t);
    InFlightCanFinish(s.table, At(s, e.t).i);
  }

  lemma CloseKeepsSettledGood(s: State, e: Step)
    requires Inv(s) && Enabled(s, e) && e.a.Close?
    ensures Good(Settled(Apply(s, e)))
  {
    assert PcInv(s, e.t);
    assert Critical(At(s, e.t)) <==> s.mutex == Some(e.t);
    DisconnectLockedIsGood(s.table, At(s, e.t).h);
  }

  lemma OtherStepsKeepSettled(s: State, e: Step)
    requires Inv(s) && Enabled(s, e)
    requires !e.a.SetUpSlot? && !e.a.Dial? && !e.a.FreeFailed? && !e.a.Close?
    ensures Settled(Apply(s, e)) == Settled(s)
  {
    assert PcInv(s, e.t);
    assert Critical(At(s, e.t)) <==> s.mutex == Some(e.t);
    if s.mutex.Some? {
      assert Critical(At(s, s.mutex.value));
    }
  }

  lemma ChosenIsNotConnected(s: State, t: Tid)
    requires Inv(s) && At(s, t).Chosen?
    ensures !s.table.slots[At(s, t).i].isConnected
  {
    assert PcInv(s, t);
    assert Critical(At(s, t)) <==> s.mutex == Some(t);
    assert SlotGood(s.table, s.table.slots[At(s, t).i]);
  }

  lemma LiveIsUsed(s: State, t: Tid)
    requires Inv(s) && At(s, t).Validating?
    ensures var device := At(s, t).device;
      device < SESSIONS_MAX && s.table.slots[device].isAllocated ==> Used(s.table, device)
  {
    assert Critical(At(s, t)) <==> s.mutex == Some(t);
    var device := At(s, t).device;
    if device < SESSIONS_MAX {
      assert SlotGood(s.table, s.table.slots[device]);
    }
  }

  /** Every step of any thread, taken by a client that does its duty, keeps the invariant. */
  lemma StepKeepsInv(s: State, e: Step)
    requires Inv(s) && Enabled(s, e) && Dutiful(s, e)
    ensures Inv(Apply(s, e))
  {
    if e.a.SetUpSlot? {
      ChosenIsNotConnected(s, e.t);
    } else if e.a.Check? {
      LiveIsUsed(s, e.t);
    }
    StepKeepsMutexInv(s, e);
    StepKeepsOwnerInv(s, e);
    forall t: Tid ensures PcInv(Apply(s, e), t) {
      if t != e.t {
        StepKeepsOtherPcInv(s, e, t);
      } else if Connecting(e.a) {
        ConnectKeepsOwnPcInv(s, e);
      } else {
        OthersKeepOwnPcInv(s, e);
      }
    }
    match e.a
    case SetUpSlot => SetUpKeepsSettledGood(s, e);
    case Dial(_) => DialKeepsSettledGood(s, e);
    case FreeFailed => DialKeepsSettledGood(s, e);
    case Close => CloseKeepsSettledGood(s, e);
    case _ => OtherStepsKeepSettled(s, e);
  }

  lemma {:induction false} RunKeepsInv(s: State, es: seq<Step>)
    requires Inv(s) && CanRun(s, es)
    ensures Inv(After(s, es))
    decreases es
  {
    if es == [] {
    } else {
      StepKeepsInv(s, es[0]);
      RunKeepsInv(Apply(s, es[0]), es[1..]);
    }
  }

  // ---------- Refinement of a sequential handle map ----------

  /** The operations of the sequential specification. */
  datatype Event =
    | Opened(h: int, session: Session)
    | Closed(h: int)
    | Found(h: int, session: Session)  // a transfer looks up what the handle stands for
    | NotLive(h: int)                  // a disconnect or a transfer finds that it stands for nothing
    | NoneFree
    | NoBackend(protocol: Protocol)
    | DialFailed

  /** The operation on the handle map that a step performs, if any. */
  function EventOf(s: State, e: Step): Option<Event>
    requires |s.table.slots| == SESSIONS_MAX && Enabled(s, e)
  {
    var pc := At(s, e.t);
    match e.a
    case PublishSlot => Some(Opened(pc.i, Session(s.table.slots[pc.i].backend, s.table.slots[pc.i].data)))
    case ClearSlot => Some(Closed(pc.h))
    case Check(past) =>
      if !ValidSession(s.table, pc.device, past) then Some(NotLive(pc.device))
      else if pc.disconnect || pc.device == SESSIONS_MAX then None
      else Some(Found(pc.device, Session(s.table.slots[pc.device].backend, s.table.slots[pc.device].data)))
    case Look => if pc.next == SESSIONS_MAX then Some(NoneFree) else None
    case SetUpSlot => if BackendOf(pc.protocol).None? then Some(NoBackend(pc.protocol)) else None
    case FreeFailed => Some(DialFailed)
    case _ => None
  }

  predicate HasUnused(m: map<int, Session>) { exists h | 0 <= h < SESSIONS_MAX :: h !in m }

  /**
    The sequential specification: the lowest unused handle is opened, with a block no
    other handle has; a used one is closed or found, and an unused one is not; "none free"
    needs all handles to be in use, and the other failures of connect need one that is not.
   */
  predicate Allowed(m: map<int, Session>, v: Event) {
    match v
    case Opened(h, session) =>
      && 0 <= h < SESSIONS_MAX && h !in m && (forall k | 0 <= k < h :: k in m)
      && session.data.Some? && session.backend.Some?
      && (forall k | k in m :: m[k].data != session.data)
    case Closed(h) => h in m
    case Found(h, session) => h in m && m[h] == session
    case NotLive(h) => h !in m
    case NoneFree => !HasUnused(m)
    case NoBackend(p) => BackendOf(p).None? && HasUnused(m)
    case DialFailed => HasUnused(m)
  }

  function Effect(m: map<int, Session>, v: Event): map<int, Session> {
    match v
    case Opened(h, session) => m[h := session]
    case Closed(h) => m - {h}
    case _ => m
  }

  predicate History(m: map<int, Session>, vs: seq<Event>)
    decreases vs
  {
    vs == [] || (Allowed(m, vs[0]) && History(Effect(m, vs[0]), vs[1..]))
  }

  function Replay(m: map<int, Session>, vs: seq<Event>): map<int, Session>
    decreases vs
  {
    if vs == [] then m else Replay(Effect(m, vs[0]), vs[1..])
  }

  function Events(s: State, es: seq<Step>): seq<Event>
    requires |s.table.slots| == SESSIONS_MAX && CanRun(s, es)
    decreases es
  {
    if es == [] then []
    else (match EventOf(s, es[0]) case None => [] case Some(v) => [v]) + Events(Apply(s, es[0]), es[1..])
  }

  /** The block about to be published belongs to no live session. */
  lemma InFlightIsNew(s: State, t: Tid, k: int)
    requires Inv(s) && At(s, t).Publishing? && k in Handles(s.table)
    ensures Handles(s.table)[k].data != s.table.slots[At(s, t).i].data
  {
    var i := At(s, t).i;
    var u := Settled(s);
    assert PcInv(s, t);
    assert Critical(At(s, t)) <==> s.mutex == Some(t);
    assert SlotGood(u, u.slots[k]);
    assert Holds(u, i, u.slots[i].data.value) && Holds(u, k, u.slots[k].data.value);
  }

  lemma PublishRefines(s: State, e: Step)
    requires Inv(s) && Enabled(s, e) && e.a.PublishSlot?
    ensures Allowed(Handles(s.table), EventOf(s, e).value)
    ensures Handles(Apply(s, e).table) == Effect(Handles(s.table), EventOf(s, e).value)
  {
    assert PcInv(s, e.t);
    forall k | k in Handles(s.table)
      ensures Handles(s.table)[k].data != s.table.slots[At(s, e.t).i].data
    {
      InFlightIsNew(s, e.t, k);
    }
  }

  lemma ClearRefines(s: State, e: Step)
    requires Inv(s) && Enabled(s, e) && e.a.ClearSlot?
    ensures Allowed(Handles(s.table), EventOf(s, e).value)
    ensures Handles(Apply(s, e).table) == Effect(Handles(s.table), EventOf(s, e).value)
  {
    assert PcInv(s, e.t);
  }

  lemma OtherStepsStutter(s: State, e: Step)
    requires |s.table.slots| == SESSIONS_MAX && PcInv(s, e.t) && Enabled(s, e)
    requires !e.a.PublishSlot? && !e.a.ClearSlot?
    ensures Handles(Apply(s, e).table) == Handles(s.table)
  {}

  /** What a step reports without changing the map is true of the map. */
  lemma ReportIsTrue(s: State, e: Step)
    requires |s.table.slots| == SESSIONS_MAX && PcInv(s, e.t) && Enabled(s, e)
    requires !e.a.PublishSlot? && !e.a.ClearSlot? && EventOf(s, e).Some?
    ensures Allowed(Handles(s.table), EventOf(s, e).value)
  {
    var m, pc := Handles(s.table), At(s, e.t);
    if e.a.Look? {
      assert forall k | 0 <= k < SESSIONS_MAX :: k in m;
    } else if e.a.SetUpSlot? || e.a.FreeFailed? {
      assert pc.i as int !in m;
    }
  }

  /** One step is either invisible in the handle map or one legal operation on it. */
  lemma StepRefines(s: State, e: Step)
    requires Inv(s) && Enabled(s, e)
    ensures match EventOf(s, e)
            case None => Handles(Apply(s, e).table) == Handles(s.table)
            case Some(v) => Allowed(Handles(s.table), v) && Handles(Apply(s, e).table) == Effect(Handles(s.table), v)
  {
    assert PcInv(s, e.t);
    if e.a.PublishSlot? {
      PublishRefines(s, e);
    } else if e.a.ClearSlot? {
      ClearRefines(s, e);
    } else {
      OtherStepsStutter(s, e);
      if EventOf(s, e).Some? {
        ReportIsTrue(s, e);
      }
    }
  }

  /**
    Every interleaving refines a sequential handle map: the opens and closes it
    performs, in order, are a legal history of the map, and the table always shows
    the map that history leads to.
   */
  lemma {:induction false} RunRefines(s: State, es: seq<Step>)
    requires Inv(s) && CanRun(s, es)
    ensures History(Handles(s.table), Events(s, es))
    ensures Handles(After(s, es).table) == Replay(Handles(s.table), Events(s, es))
    decreases es
  {
    if es == [] {
    } else {
      StepKeepsInv(s, es[0]);
      StepRefines(s, es[0]);
      RunRefines(Apply(s, es[0]), es[1..]);
      var rest := Events(Apply(s, es[0]), es[1..]);
      match EventOf(s, es[0])
      case None => assert Events(s, es) == rest;
      case Some(v) => assert Events(s, es) == [v] + rest && Events(s, es)[1..] == rest;
    }
  }

  lemma StartIsGood()
    ensures Inv(Start())
  {
    assert Zeroed().slots[0] == Slot(false, false, None, None);
  }

  /** From the initialised library, any number of threads: a legal history, replayed exactly. */
  lemma TableRefinesHandleMap(es: seq<Step>)
    requires CanRun(Start(), es)
    ensures History(map[], Events(Start(), es))
    ensures Handles(After(Start(), es).table) == Replay(map[], Events(Start(), es))
  {
    StartIsGood();
    RunRefines(Start(), es);
  }

  /**
    What a finishing connect tells its caller is true of the table: a handle it
    returns is live and the caller's own, and it gives up for want of a slot only
    when all 1024 handles are live.
   */
  lemma {:induction false} ConnectResultIsTrue(es: seq<Step>, t: Tid)
    requires CanRun(Start(), es)
    ensures var s := After(Start(), es);
      match At(s, t)
      case Leaving(ConnectDone(Connected(h))) => h < SESSIONS_MAX && h in Handles(s.table) && Owns(s, t, h)
      case Scanning(_, n) => n == SESSIONS_MAX ==> forall h | 0 <= h < SESSIONS_MAX :: h in Handles(s.table)
      case _ => true
  {
    StartIsGood();
    RunKeepsInv(Start(), es);
    assert PcInv(After(Start(), es), t);
  }

  // ---------- Every call takes effect once ----------

  datatype Call = Connect(protocol: Protocol) | Disconnect(device: int) | Transfer(device: int)

  function InvocationOf(e: Step): Option<Call> {
    match e.a
    case CallConnect(p) => Some(Connect(p))
    case CallDisconnect(device) => Some(Disconnect(device))
    case CallTransfer(device) => Some(Transfer(device))
    case _ => None
  }

  /** The answer with which a step returns to the client, if it does. */
  function AnswerOf(s: State, e: Step): Option<Answer>
    requires |s.table.slots| == SESSIONS_MAX && Enabled(s, e)
  {
    var pc := At(s, e.t);
    match e.a
    case CallDisconnect(device) => if PassesRangeTest(device) then None else Some(DisconnectRefused)
    case CallTransfer(device) => if PassesRangeTest(device) then None else Some(TransferRefused)
    case Unlock =>
      (match pc
       case Leaving(a) => Some(a)
       case Validated(device, disconnect, ok) =>
         if ok && device < SESSIONS_MAX then None else Some(if disconnect then DisconnectRefused else TransferRefused)
       case _ => None)
    case UseSlot => Some(Transferred)
    case _ => None
  }

  datatype Entry =
    | Invoked(call: Call)
    | Dialled(status: int)  // the backend's connect returned this
    | Took(event: Event)
    | Answered(answer: Answer)

  datatype Logged = Logged(t: Tid, entry: Entry)

  /** What a step adds to the log. */
  function StepLog(s: State, e: Step): seq<Logged>
    requires |s.table.slots| == SESSIONS_MAX && Enabled(s, e)
  {
    (match InvocationOf(e) case None => [] case Some(c) => [Logged(e.t, Invoked(c))])
    + (if e.a.Dial? then [Logged(e.t, Dialled(e.a.status))] else [])
    + (match EventOf(s, e) case None => [] case Some(v) => [Logged(e.t, Took(v))])
    + (match AnswerOf(s, e) case None => [] case Some(a) => [Logged(e.t, Answered(a))])
  }

  function Log(s: State, es: seq<Step>): seq<Logged>
    requires |s.table.slots| == SESSIONS_MAX && CanRun(s, es)
    decreases es
  {
    if es == [] then [] else StepLog(s, es[0]) + Log(Apply(s, es[0]), es[1..])
  }

  /** The operations in a log, by whatever thread. */
  function Operations(log: seq<Logged>): seq<Event> {
    if log == [] then []
    else (if log[0].entry.Took? then [log[0].entry.event] else []) + Operations(log[1..])
  }

  /** Where a thread stands between its calls. */
  datatype Phase = Quiet | Busy(call: Call, dialled: Option<int>, took: Option<Event>) | Broken

  /**
    The answer to a call is the one its only operation calls for.  A handle is the answer
    to a backend's connect that returned zero, and a failure of the backend to one that did
    not; with any other answer no backend was called.
   */
  predicate Answers(c: Call, dialled: Option<int>, took: Option<Event>, a: Answer) {
    match a
    case ConnectDone(Connected(h)) =>
      && c.Connect? && dialled == Some(0) && took.Some? && took.value.Opened?
      && took.value.h == h && took.value.session.backend == BackendOf(c.protocol)
    case ConnectDone(BackendFailed) =>
      c.Connect? && dialled.Some? && dialled.value != 0 && took == Some(DialFailed)
    case ConnectDone(TooManySessions) => c.Connect? && dialled.None? && took == Some(NoneFree)
    case ConnectDone(Unsupported) => c.Connect? && dialled.None? && took == Some(NoBackend(c.protocol))
    case Disconnected => c.Disconnect? && dialled.None? && took == Some(Closed(c.device))
    case DisconnectRefused => c.Disconnect? && dialled.None? && RefusedAs(c.device, took)
    case Transferred =>
      c.Transfer? && dialled.None? && took.Some? && took.value.Found? && took.value.h == c.device
    case TransferRefused => c.Transfer? && dialled.None? && RefusedAs(c.device, took)
  }

  /** A device is refused because it is not live, or without a look because it fails the range test. */
  predicate RefusedAs(device: int, took: Option<Event>) {
    took == if PassesRangeTest(device) then Some(NotLive(device)) else None
  }

  /**
    A thread's calls one after the other: invoked, at most one connect of a backend, at most
    one operation, answered by them.
   */
  function Advance(phase: Phase, entry: Entry): Phase {
    match entry
    case Invoked(c) => if phase.Quiet? then Busy(c, None, None) else Broken
    case Dialled(status) =>
      if phase.Busy? && phase.dialled.None? && phase.took.None? then phase.(dialled := Some(status)) else Broken
    case Took(v) => if phase.Busy? && phase.took.None? then phase.(took := Some(v)) else Broken
    case Answered(a) =>
      if phase.Busy? && Answers(phase.call, phase.dialled, phase.took, a) then Quiet else Broken
  }

  function Follow(phase: Phase, log: seq<Logged>, t: Tid): Phase
    decreases log
  {
    if log == [] then phase
    else Follow(if log[0].t == t then Advance(phase, log[0].entry) else phase, log[1..], t)
  }

  /** Where a thread is in the code tells where it is in its call. */
  predicate Stands(pc: Pc, phase: Phase) {
    match pc
    case Idle => phase == Quiet
    case ConnectCalled(p) => phase == Busy(Connect(p), None, None)
    case Scanning(p, _) => phase == Busy(Connect(p), None, None)
    case Chosen(p, _) => phase == Busy(Connect(p), None, None)
    case Dialling(p, _) => phase == Busy(Connect(p), None, None)
    case Publishing(p, _) => phase == Busy(Connect(p), Some(0), None)
    case Failing(_) =>
      phase.Busy? && phase.call.Connect? && phase.dialled.Some? && phase.dialled.value != 0 && phase.took.None?
    case Leaving(a) => phase.Busy? && Answers(phase.call, phase.dialled, phase.took, a)
    case ValidateCalled(device, d) => phase == Busy(Validates(device, d), None, None)
    case Validating(device, d) => phase == Busy(Validates(device, d), None, None)
    case Validated(device, d, ok) =>
      && phase.Busy? && phase.call == Validates(device, d) && phase.dialled.None?
      && (!ok ==> phase.took == Some(NotLive(device)))
      && (ok && d ==> phase.took == None)
      && (ok && !d ==> Answers(phase.call, phase.dialled, phase.took, Transferred))
    case RelockNeeded(h) => phase == Busy(Disconnect(h), None, None)
    case Closing(h) => phase == Busy(Disconnect(h), None, None)
    case Freeing(h) => phase == Busy(Disconnect(h), None, None)
    case Clearing(h) => phase == Busy(Disconnect(h), None, None)
    case Using(h) =>
      phase.Busy? && phase.call == Transfer(h) && Answers(phase.call, phase.dialled, phase.took, Transferred)
  }

  /** The call on behalf of which a device is validated. */
  function Validates(device: int, disconnect: bool): Call {
    if disconnect then Disconnect(device) else Transfer(device)
  }

  /** The entries of one step, followed. */
  function StepPhase(s: State, e: Step, phase: Phase): Phase
    requires |s.table.slots| == SESSIONS_MAX && Enabled(s, e)
  {
    var invoked := if InvocationOf(e).Some? then Advance(phase, Invoked(InvocationOf(e).value)) else phase;
    var dialled := if e.a.Dial? then Advance(invoked, Dialled(e.a.status)) else invoked;
    var took := if EventOf(s, e).Some? then Advance(dialled, Took(EventOf(s, e).value)) else dialled;
    if AnswerOf(s, e).Some? then Advance(took, Answered(AnswerOf(s, e).value)) else took
  }

  lemma ConnectStepStands(s: State, e: Step, phase: Phase)
    requires |s.table.slots| == SESSIONS_MAX && PcInv(s, e.t) && Enabled(s, e) && Connecting(e.a)
    requires Stands(At(s, e.t), phase)
    ensures Stands(At(Apply(s, e), e.t), StepPhase(s, e, phase))
  {}

  lemma OtherStepStands(s: State, e: Step, phase: Phase)
    requires |s.table.slots| == SESSIONS_MAX && PcInv(s, e.t) && Enabled(s, e) && Dutiful(s, e) && !Connecting(e.a)
    requires Stands(At(s, e.t), phase)
    ensures Stands(At(Apply(s, e), e.t), StepPhase(s, e, phase))
  {}

  lemma {:induction false} FollowJoins(phase: Phase, a: seq<Logged>, b: seq<Logged>, t: Tid)
    ensures Follow(phase, a + b, t) == Follow(Follow(phase, a, t), b, t)
    decreases a
  {
    if a == [] {
      assert a + b == b;
    } else {
      assert (a + b)[0] == a[0] && (a + b)[1..] == a[1..] + b;
      FollowJoins(if a[0].t == t then Advance(phase, a[0].entry) else phase, a[1..], b, t);
    }
  }

  lemma {:induction false} FollowOne(phase: Phase, x: Logged, t: Tid)
    ensures Follow(phase, [x], t) == if x.t == t then Advance(phase, x.entry) else phase
  {
    assert [x][1..] == [];
  }

  lemma FollowStep(s: State, e: Step, phase: Phase, t: Tid)
    requires |s.table.slots| == SESSIONS_MAX && Enabled(s, e)
    ensures Follow(phase, StepLog(s, e), t) == if e.t == t then StepPhase(s, e, phase) else phase
  {
    var a := match InvocationOf(e) case None => [] case Some(c) => [Logged(e.t, Invoked(c))];
    var d := if e.a.Dial? then [Logged(e.t, Dialled(e.a.status))] else [];
    var b := match EventOf(s, e) case None => [] case Some(v) => [Logged(e.t, Took(v))];
    var c := match AnswerOf(s, e) case None => [] case Some(r) => [Logged(e.t, Answered(r))];
    FollowJoins(phase, a + d + b, c, t);
    FollowJoins(phase, a + d, b, t);
    FollowJoins(phase, a, d, t);
    FollowAtMostOne(phase, a, t);
    FollowAtMostOne(Follow(phase, a, t), d, t);
    FollowAtMostOne(Follow(Follow(phase, a, t), d, t), b, t);
    FollowAtMostOne(Follow(Follow(Follow(phase, a, t), d, t), b, t), c, t);
  }

  lemma {:induction false} FollowAtMostOne(phase: Phase, x: seq<Logged>, t: Tid)
    requires |x| <= 1
    ensures Follow(phase, x, t) == if x != [] && x[0].t == t then Advance(phase, x[0].entry) else phase
  {
    if x == [] {
    } else {
      assert x == [x[0]];
      FollowOne(phase, x[0], t);
    }
  }

  lemma {:induction false} RunStands(s: State, es: seq<Step>, phase: Phase, t: Tid)
    requires Inv(s) && CanRun(s, es) && Stands(At(s, t), phase)
    ensures Stands(At(After(s, es), t), Follow(phase, Log(s, es), t))
    decreases es
  {
    if es == [] {
    } else {
      StepKeepsInv(s, es[0]);
      LogKeepsStanding(s, es[0], phase, t);
      FollowJoins(phase, StepLog(s, es[0]), Log(Apply(s, es[0]), es[1..]), t);
      RunStands(Apply(s, es[0]), es[1..], Follow(phase, StepLog(s, es[0]), t), t);
    }
  }

  lemma LogKeepsStanding(s: State, e: Step, phase: Phase, t: Tid)
    requires Inv(s) && Enabled(s, e) && Dutiful(s, e) && Stands(At(s, t), phase)
    ensures Stands(At(Apply(s, e), t), Follow(phase, StepLog(s, e), t))
  {
    FollowStep(s, e, phase, t);
    assert PcInv(s, e.t);
    if e.t != t {
      OthersStayPut(s, e, t);
    } else if Connecting(e.a) {
      ConnectStepStands(s, e, phase);
    } else {
      OtherStepStands(s, e, phase);
    }
  }

  lemma OthersStayPut(s: State, e: Step, t: Tid)
    requires |s.table.slots| == SESSIONS_MAX && Enabled(s, e) && e.t != t
    ensures At(Apply(s, e), t) == At(s, t)
  {}

  lemma {:induction false} OperationsJoin(a: seq<Logged>, b: seq<Logged>)
    ensures Operations(a + b) == Operations(a) + Operations(b)
    decreases a
  {
    if a == [] {
      assert a + b == b;
    } else {
      assert (a + b)[0] == a[0] && (a + b)[1..] == a[1..] + b;
      OperationsJoin(a[1..], b);
      Associate(if a[0].entry.Took? then [a[0].entry.event] else [], Operations(a[1..]), Operations(b));
    }
  }

  lemma OperationsOfStep(s: State, e: Step)
    requires |s.table.slots| == SESSIONS_MAX && Enabled(s, e)
    ensures Operations(StepLog(s, e)) == match EventOf(s, e) case None => [] case Some(v) => [v]
  {
    var a := match InvocationOf(e) case None => [] case Some(c) => [Logged(e.t, Invoked(c))];
    var d := if e.a.Dial? then [Logged(e.t, Dialled(e.a.status))] else [];
    var b := match EventOf(s, e) case None => [] case Some(v) => [Logged(e.t, Took(v))];
    var c := match AnswerOf(s, e) case None => [] case Some(r) => [Logged(e.t, Answered(r))];
    OperationsJoin(a + d + b, c);
    OperationsJoin(a + d, b);
    OperationsJoin(a, d);
    assert a != [] ==> a[1..] == [];
    assert d != [] ==> d[1..] == [];
    assert b != [] ==> b[1..] == [];
    assert c != [] ==> c[1..] == [];
  }

  lemma {:induction false} OperationsAreEvents(s: State, es: seq<Step>)
    requires |s.table.slots| == SESSIONS_MAX && CanRun(s, es)
    ensures Operations(Log(s, es)) == Events(s, es)
    decreases es
  {
    if es == [] {
    } else {
      OperationsJoin(StepLog(s, es[0]), Log(Apply(s, es[0]), es[1..]));
      OperationsOfStep(s, es[0]);
      OperationsAreEvents(Apply(s, es[0]), es[1..]);
    }
  }

  /**
    Every run is linearised.  The operations in its log, in order, are a legal history of
    the sequential handle map, which the table always shows; and in each thread's part of
    the log every call is invoked, performs exactly one operation (none if its device
    fails the range test) and is answered as that operation says: a connect with a handle
    after its backend's connect returned zero, with a failure of the backend after that
    returned something else, and otherwise without any connect of a backend.
   */
  lemma RunIsLinearised(es: seq<Step>, t: Tid)
    requires CanRun(Start(), es)
    ensures var log := Log(Start(), es);
      && History(map[], Operations(log))
      && Handles(After(Start(), es).table) == Replay(map[], Operations(log))
      && !Follow(Quiet, log, t).Broken?
      && (Follow(Quiet, log, t).Quiet? <==> At(After(Start(), es), t).Idle?)
  {
    OperationsAreEvents(Start(), es);
    TableRefinesHandleMap(es);
    StartIsGood();
    RunStands(Start(), es, Quiet, t);
  }

  /** One step before a run. */
  lemma RunCons(s: State, e: Step, es: seq<Step>)
    requires |s.table.slots| == SESSIONS_MAX && Enabled(s, e) && Dutiful(s, e) && CanRun(Apply(s, e), es)
    ensures CanRun(s, [e] + es) && After(s, [e] + es) == After(Apply(s, e), es)
    ensures Log(s, [e] + es) == StepLog(s, e) + Log(Apply(s, e), es)
  {
    assert ([e] + es)[1..] == es;
  }

  function RefusedRun(t: Tid, device: int): seq<Step> {
    [Step(t, CallDisconnect(device))] + ([Step(t, Lock)] + ([Step(t, Check(false))] + ([Step(t, Unlock)] + [])))
  }

  /** Where a thread is while its disconnect of a number that is not live is refused. */
  predicate Refusing(s: State, t: Tid, pc: Pc, mutex: Option<Tid>, table: Table) {
    At(s, t) == pc && s.mutex == mutex && s.table == table
  }

  lemma RefusedFromCheck(s: State, t: Tid, device: Device)
    requires |s.table.slots| == SESSIONS_MAX && Refusing(s, t, Validating(device, true), Some(t), s.table)
    requires device == SESSIONS_MAX || !s.table.slots[device].isAllocated
    ensures var es := [Step(t, Check(false))] + ([Step(t, Unlock)] + []);
      && CanRun(s, es) && Refusing(After(s, es), t, Idle, None, s.table)
      && Log(s, es) == [Logged(t, Took(NotLive(device))), Logged(t, Answered(DisconnectRefused))]
  {
    var e, f := Step(t, Check(false)), Step(t, Unlock);
    var s1 := Apply(s, e);
    assert Refusing(s1, t, Validated(device, true, false), Some(t), s.table);
    RunCons(s1, f, []);
    RunCons(s, e, [f] + []);
  }

  lemma RefusedFromLock(s: State, t: Tid, device: Device)
    requires |s.table.slots| == SESSIONS_MAX && Refusing(s, t, ValidateCalled(device, true), None, s.table)
    requires device == SESSIONS_MAX || !s.table.slots[device].isAllocated
    ensures var es := [Step(t, Lock)] + ([Step(t, Check(false))] + ([Step(t, Unlock)] + []));
      && CanRun(s, es) && Refusing(After(s, es), t, Idle, None, s.table)
      && Log(s, es) == [Logged(t, Took(NotLive(device))), Logged(t, Answered(DisconnectRefused))]
  {
    var e, rest := Step(t, Lock), [Step(t, Check(false))] + ([Step(t, Unlock)] + []);
    assert Refusing(Apply(s, e), t, Validating(device, true), Some(t), s.table);
    RefusedFromCheck(Apply(s, e), t, device);
    RunCons(s, e, rest);
  }

  /** A number that is not live, such as one just disconnected, may be passed by anyone and is refused. */
  lemma DeadNumberIsRefused(s: State, t: Tid, device: Device)
    requires |s.table.slots| == SESSIONS_MAX && Refusing(s, t, Idle, None, s.table)
    requires device == SESSIONS_MAX || !s.table.slots[device].isAllocated
    ensures var es := RefusedRun(t, device);
      && CanRun(s, es) && Refusing(After(s, es), t, Idle, None, s.table)
      && Log(s, es) == [Logged(t, Invoked(Disconnect(device))), Logged(t, Took(NotLive(device))),
                        Logged(t, Answered(DisconnectRefused))]
  {
    var e, rest := Step(t, CallDisconnect(device)), RefusedRun(t, device)[1..];
    assert rest == [Step(t, Lock)] + ([Step(t, Check(false))] + ([Step(t, Unlock)] + []));
    assert Refusing(Apply(s, e), t, ValidateCalled(device, true), None, s.table);
    RefusedFromLock(Apply(s, e), t, device);
    RunCons(s, e, rest);
  }

  // ---------- A call that nobody interrupts ----------

  /** A run of one thread that completes its call: what it leaves, and what it answers. */
  predicate Completes(s: State, t: Tid, es: seq<Step>, table: Table, answer: Answer)
    requires |s.table.slots| == SESSIONS_MAX
  {
    && CanRun(s, es) && (forall i | 0 <= i < |es| :: es[i].t == t)
    && At(After(s, es), t).Idle? && After(s, es).mutex.None? && After(s, es).table == table
    && var log := Log(s, es);
       log != [] && log[|log| - 1] == Logged(t, Answered(answer))
  }

  /** Thread t is at this point, with the mutex. */
  predicate InsideAt(s: State, t: Tid, pc: Pc) {
    |s.table.slots| == SESSIONS_MAX && At(s, t) == pc && s.mutex == Some(t)
  }

  lemma StepFirst(s: State, e: Step, rest: seq<Step>, table: Table, answer: Answer)
    requires |s.table.slots| == SESSIONS_MAX && Enabled(s, e) && Dutiful(s, e)
    requires Completes(Apply(s, e), e.t, rest, table, answer)
    ensures Completes(s, e.t, [e] + rest, table, answer)
  {
    RunCons(s, e, rest);
  }

  lemma StepLast(s: State, e: Step, answer: Answer)
    requires |s.table.slots| == SESSIONS_MAX && Enabled(s, e) && Dutiful(s, e)
    requires At(Apply(s, e), e.t).Idle? && Apply(s, e).mutex.None? && AnswerOf(s, e) == Some(answer)
    ensures Completes(s, e.t, [e], Apply(s, e).table, answer)
  {
    RunCons(s, e, []);
    assert [e] + [] == [e];
  }

  lemma LeavingCompletes(s: State, t: Tid, a: Answer) returns (es: seq<Step>)
    requires InsideAt(s, t, Leaving(a))
    ensures Completes(s, t, es, s.table, a)
  {
    StepLast(s, Step(t, Unlock), a);
    es := [Step(t, Unlock)];
  }

  lemma PublishingCompletes(s: State, t: Tid, p: Protocol, i: Index) returns (es: seq<Step>)
    requires InsideAt(s, t, Publishing(p, i))
    ensures Completes(s, t, es, Publish(s.table, i), ConnectDone(Connected(i)))
  {
    var e := Step(t, PublishSlot);
    var rest := LeavingCompletes(Apply(s, e), t, ConnectDone(Connected(i)));
    StepFirst(s, e, rest, Publish(s.table, i), ConnectDone(Connected(i)));
    es := [e] + rest;
  }

  lemma FailingCompletes(s: State, t: Tid, i: Index) returns (es: seq<Step>)
    requires InsideAt(s, t, Failing(i))
    ensures Completes(s, t, es, FreeData(s.table, i), ConnectDone(BackendFailed))
  {
    var e := Step(t, FreeFailed);
    var rest := LeavingCompletes(Apply(s, e), t, ConnectDone(BackendFailed));
    StepFirst(s, e, rest, FreeData(s.table, i), ConnectDone(BackendFailed));
    es := [e] + rest;
  }

  lemma DiallingCompletes(s: State, t: Tid, p: Protocol, i: Index, status: int) returns (es: seq<Step>)
    requires InsideAt(s, t, Dialling(p, i))
    ensures Completes(s, t, es, if status != 0 then FreeData(s.table, i) else Publish(OpenData(s.table, i), i),
                      ConnectDone(if status != 0 then BackendFailed else Connected(i)))
  {
    var e := Step(t, Dial(status));
    if status != 0 {
      var rest := FailingCompletes(Apply(s, e), t, i);
      StepFirst(s, e, rest, FreeData(s.table, i), ConnectDone(BackendFailed));
      es := [e] + rest;
    } else {
      var rest := PublishingCompletes(Apply(s, e), t, p, i);
      StepFirst(s, e, rest, Publish(OpenData(s.table, i), i), ConnectDone(Connected(i)));
      es := [e] + rest;
    }
  }

  /** What lxi_connect does once it has chosen slot i. */
  function FromSlot(t: Table, p: Protocol, i: Index, status: int): (Table, ConnectResult)
    requires |t.slots| == SESSIONS_MAX
  {
    match BackendOf(p)
    case None => (t, Unsupported)
    case Some(b) =>
      var u := SetUp(t, i, b);
      if status != 0 then (FreeData(u, i), BackendFailed) else (Publish(OpenData(u, i), i), Connected(i))
  }

  lemma ChosenCompletes(s: State, t: Tid, p: Protocol, i: Index, status: int) returns (es: seq<Step>)
    requires InsideAt(s, t, Chosen(p, i))
    ensures var (u, r) := FromSlot(s.table, p, i, status);
      Completes(s, t, es, u, ConnectDone(r))
  {
    var e, done := Step(t, SetUpSlot), FromSlot(s.table, p, i, status);
    var rest;
    if BackendOf(p).None? {
      rest := LeavingCompletes(Apply(s, e), t, ConnectDone(Unsupported));
    } else {
      rest := DiallingCompletes(Apply(s, e), t, p, i, status);
    }
    StepFirst(s, e, rest, done.0, ConnectDone(done.1));
    es := [e] + rest;
  }

  lemma {:induction false} ScanningCompletes(s: State, t: Tid, p: Protocol, n: nat, status: int)
    returns (es: seq<Step>)
    requires n <= SESSIONS_MAX && InsideAt(s, t, Scanning(p, n))
    requires FirstFree(s.table.slots, 0) == FirstFree(s.table.slots, n)
    ensures var (u, r) := Sessions.Connect(s.table, p, status);
      Completes(s, t, es, u, ConnectDone(r))
    decreases SESSIONS_MAX - n
  {
    var e, done := Step(t, Look), Sessions.Connect(s.table, p, status);
    var rest;
    if n == SESSIONS_MAX {
      rest := LeavingCompletes(Apply(s, e), t, ConnectDone(TooManySessions));
    } else if s.table.slots[n].isAllocated {
      rest := ScanningCompletes(Apply(s, e), t, p, n + 1, status);
    } else {
      rest := ChosenCompletes(Apply(s, e), t, p, n, status);
    }
    StepFirst(s, e, rest, done.0, ConnectDone(done.1));
    es := [e] + rest;
  }

  /** A connect that nobody interrupts does to the table, and answers, what the sequential one does. */
  lemma ConnectAlone(s: State, t: Tid, p: Protocol, status: int) returns (es: seq<Step>)
    requires |s.table.slots| == SESSIONS_MAX && At(s, t).Idle? && s.mutex.None?
    ensures var (u, r) := Sessions.Connect(s.table, p, status);
      Completes(s, t, es, u, ConnectDone(r))
  {
    var done := Sessions.Connect(s.table, p, status);
    var call, lock := Step(t, CallConnect(p)), Step(t, Lock);
    var called := Apply(s, call);
    var rest := ScanningCompletes(Apply(called, lock), t, p, 0, status);
    StepFirst(called, lock, rest, done.0, ConnectDone(done.1));
    StepFirst(s, call, [lock] + rest, done.0, ConnectDone(done.1));
    es := [call] + ([lock] + rest);
  }

  lemma ClosingCompletes(s: State, t: Tid, h: Index) returns (es: seq<Step>)
    requires InsideAt(s, t, Closing(h))
    ensures Completes(s, t, es, DisconnectLocked(s.table, h), Disconnected)
  {
    var close, free, clear := Step(t, Close), Step(t, FreeBlock), Step(t, ClearSlot);
    var closed := Apply(s, close);
    var freed := Apply(closed, free);
    var rest := LeavingCompletes(Apply(freed, clear), t, Disconnected);
    StepFirst(freed, clear, rest, DisconnectLocked(s.table, h), Disconnected);
    StepFirst(closed, free, [clear] + rest, DisconnectLocked(s.table, h), Disconnected);
    StepFirst(s, close, [free] + ([clear] + rest), DisconnectLocked(s.table, h), Disconnected);
    es := [close] + ([free] + ([clear] + rest));
  }

  lemma ValidatedCompletes(s: State, t: Tid, device: Device, disconnect: bool, ok: bool) returns (es: seq<Step>)
    requires InsideAt(s, t, Validated(device, disconnect, ok)) && (ok ==> device < SESSIONS_MAX)
    ensures Completes(s, t, es, if ok && disconnect then DisconnectLocked(s.table, device) else s.table,
                      if disconnect then (if ok then Disconnected else DisconnectRefused)
                      else if ok then Transferred else TransferRefused)
  {
    var unlock := Step(t, Unlock);
    var s' := Apply(s, unlock);
    if !ok {
      StepLast(s, unlock, if disconnect then DisconnectRefused else TransferRefused);
      es := [unlock];
    } else if disconnect {
      var lock := Step(t, Lock);
      var rest := ClosingCompletes(Apply(s', lock), t, device);
      StepFirst(s', lock, rest, DisconnectLocked(s.table, device), Disconnected);
      StepFirst(s, unlock, [lock] + rest, DisconnectLocked(s.table, device), Disconnected);
      es := [unlock] + ([lock] + rest);
    } else {
      var use := Step(t, UseSlot);
      StepLast(s', use, Transferred);
      StepFirst(s, unlock, [use], s.table, Transferred);
      es := [unlock] + [use];
    }
  }

  /** A handle that is live belongs to this thread. */
  predicate OwnIfLive(s: State, t: Tid, device: int)
    requires |s.table.slots| == SESSIONS_MAX
  {
    0 <= device < SESSIONS_MAX && s.table.slots[device].isAllocated ==> device in s.owner && s.owner[device] == t
  }

  lemma ValidationCompletes(s: State, t: Tid, device: Device, disconnect: bool, past: bool) returns (es: seq<Step>)
    requires |s.table.slots| == SESSIONS_MAX && At(s, t) == ValidateCalled(device, disconnect) && s.mutex.None?
    requires !Stray(device, past) && (disconnect ==> OwnIfLive(s, t, device))
    ensures var ok := ValidSession(s.table, device, past);
      Completes(s, t, es, if ok && disconnect then DisconnectLocked(s.table, device) else s.table,
                if disconnect then (if ok then Disconnected else DisconnectRefused)
                else if ok then Transferred else TransferRefused)
  {
    var ok := ValidSession(s.table, device, past);
    var lock, check := Step(t, Lock), Step(t, Check(past));
    var locked := Apply(s, lock);
    var rest := ValidatedCompletes(Apply(locked, check), t, device, disconnect, ok);
    var table := if ok && disconnect then DisconnectLocked(s.table, device) else s.table;
    var answer := if disconnect then (if ok then Disconnected else DisconnectRefused)
                  else if ok then Transferred else TransferRefused;
    StepFirst(locked, check, rest, table, answer);
    StepFirst(s, lock, [check] + rest, table, answer);
    es := [lock] + ([check] + rest);
  }

  /** So does a disconnect, of any device. */
  lemma DisconnectAlone(s: State, t: Tid, device: int, past: bool) returns (es: seq<Step>)
    requires |s.table.slots| == SESSIONS_MAX && At(s, t).Idle? && s.mutex.None?
    requires !Stray(device, past) && OwnIfLive(s, t, device)
    ensures match Sessions.Disconnect(s.table, device, past)
            case Undefined => false
            case Defined(u, ok) => Completes(s, t, es, u, if ok then Disconnected else DisconnectRefused)
  {
    var call := Step(t, CallDisconnect(device));
    if PassesRangeTest(device) {
      var rest := ValidationCompletes(Apply(s, call), t, device, true, past);
      var done := Sessions.Disconnect(s.table, device, past);
      StepFirst(s, call, rest, done.table, if done.ok then Disconnected else DisconnectRefused);
      es := [call] + rest;
    } else {
      StepLast(s, call, DisconnectRefused);
      es := [call];
    }
  }

  /** A transfer succeeds, when nobody interrupts it, exactly on a live handle, and leaves the table alone. */
  lemma TransferAlone(s: State, t: Tid, device: int, past: bool) returns (es: seq<Step>)
    requires |s.table.slots| == SESSIONS_MAX && At(s, t).Idle? && s.mutex.None? && !Stray(device, past)
    ensures Completes(s, t, es, s.table, if device in Handles(s.table) then Transferred else TransferRefused)
  {
    var call := Step(t, CallTransfer(device));
    if PassesRangeTest(device) {
      var rest := ValidationCompletes(Apply(s, call), t, device, false, past);
      StepFirst(s, call, rest, s.table, if device in Handles(s.table) then Transferred else TransferRefused);
      es := [call] + rest;
    } else {
      StepLast(s, call, TransferRefused);
      es := [call];
    }
  }

  // ---------- Memory, mutex and progress over whole runs ----------

  lemma FreedIsDistinct(s: State)
    requires |s.table.slots| == SESSIONS_MAX && Distinct(Settled(s).freed)
    ensures Distinct(s.table.freed)
  {
    var f, g := s.table.freed, Settled(s).freed;
    assert forall k | 0 <= k < |f| :: f[k] == g[k];
  }

  /**
    No block is ever freed twice, and when no thread is inside a critical section
    the blocks not yet freed and the backend connections still up are those of the
    live handles.
   */
  lemma BlocksFreedOnce(es: seq<Step>)
    requires CanRun(Start(), es)
    ensures var s := After(Start(), es);
      && Distinct(s.table.freed)
      && (s.mutex.None? ==> Good(s.table))
  {
    StartIsGood();
    RunKeepsInv(Start(), es);
    FreedIsDistinct(After(Start(), es));
  }

  /** The mutex is unlocked only by the thread that holds it, and no thread leaves the library with it. */
  lemma MutexReleasedByHolder(es: seq<Step>, e: Step)
    requires CanRun(Start(), es) && Enabled(After(Start(), es), e)
    ensures var s := After(Start(), es);
      && (e.a.Unlock? ==> s.mutex == Some(e.t))
      && (e.a.Lock? ==> s.mutex.None?)
      && (At(Apply(s, e), e.t).Idle? ==> Apply(s, e).mutex != Some(e.t))
  {
    StartIsGood();
    RunKeepsInv(Start(), es);
    StepKeepsMutexInv(After(Start(), es), e);
    var s := After(Start(), es);
    assert Critical(At(s, e.t)) <==> s.mutex == Some(e.t);
    assert Critical(At(Apply(s, e), e.t)) <==> Apply(s, e).mutex == Some(e.t);
  }

  /** Two threads are never between lock and unlock at the same time. */
  lemma MutualExclusion(es: seq<Step>, t: Tid, u: Tid)
    requires CanRun(Start(), es)
    requires Critical(At(After(Start(), es), t)) && Critical(At(After(Start(), es), u))
    ensures t == u
  {
    StartIsGood();
    RunKeepsInv(Start(), es);
  }

  /**
    A transfer reads its slot without the mutex; the owner nevertheless finds the
    session it was given, with a block that is not freed and a connection that is up.
   */
  lemma UnlockedUseIsSafe(es: seq<Step>, t: Tid)
    requires CanRun(Start(), es)
    ensures var s := After(Start(), es);
      match At(s, t)
      case Using(h) =>
        Owns(s, t, h) ==>
          && h as int in Handles(s.table) && Handles(s.table)[h as int].data.Some?
          && h as int in Replay(map[], Events(Start(), es))
          && Handles(s.table)[h as int] == Replay(map[], Events(Start(), es))[h as int]
          && Handles(s.table)[h as int].data.value !in s.table.freed
          && Handles(s.table)[h as int].data.value in s.table.open
      case _ => true
  {
    TableRefinesHandleMap(es);
    StartIsGood();
    RunKeepsInv(Start(), es);
    var s := After(Start(), es);
    if At(s, t).Using? && Owns(s, t, At(s, t).h) {
      OwnedSlotIsLive(s, t, At(s, t).h);
    }
  }

  /** A slot owned by a thread outside any critical section is untouched by the others. */
  lemma OwnedSlotIsLive(s: State, t: Tid, h: Index)
    requires Inv(s) && At(s, t) == Using(h) && Owns(s, t, h)
    ensures s.table.slots[h].isAllocated && s.table.slots[h].data.Some?
    ensures s.table.slots[h].data.value !in s.table.freed && s.table.slots[h].data.value in s.table.open
  {
    assert h as int in s.owner;
    var u := Settled(s);
    if s.mutex.Some? {
      assert PcInv(s, s.mutex.value);
      assert Critical(At(s, s.mutex.value));
    }
    assert u.slots[h] == s.table.slots[h] && SlotGood(u, u.slots[h]);
    var b := u.slots[h].data.value;
    assert Holds(u, h, b);
    assert b in u.open;
  }

  /**
    A transfer by anybody else: while no thread is in a critical section, what it reads is
    a session whose block is freed if and only if the handle is no longer live.
   */
  lemma StrangerUsesFreedIffNotLive(es: seq<Step>, t: Tid)
    requires CanRun(Start(), es)
    ensures var s := After(Start(), es);
      match At(s, t)
      case Using(h) =>
        && Used(s.table, h)
        && (s.mutex.None? ==> (s.table.slots[h].data.value in s.table.freed <==> h as int !in Handles(s.table)))
      case _ => true
  {
    StartIsGood();
    RunKeepsInv(Start(), es);
    var s := After(Start(), es);
    assert PcInv(s, t);
    if At(s, t).Using? && s.mutex.None? {
      assert SlotGood(s.table, s.table.slots[At(s, t).h]);
    }
  }

  // ---------- Progress ----------

  /** Steps that the client takes, not the library. */
  predicate IsCall(a: Action) { a.CallConnect? || a.CallDisconnect? || a.CallTransfer? || a.HandOver? }

  predicate WaitsForMutex(pc: Pc) { pc.ConnectCalled? || pc.ValidateCalled? || pc.RelockNeeded? }

  /** A step inside the library other than the return of a backend's connect. */
  ghost predicate CanStep(s: State) {
    exists e :: Enabled(s, e) && !IsCall(e.a) && !e.a.Dial?
  }

  /** One thread is in its backend's connect, with the mutex, and all others wait for the mutex or are outside. */
  ghost predicate HeldUpBy(s: State, d: Tid) {
    && s.mutex == Some(d) && At(s, d).Dialling?
    && forall u: Tid :: u != d ==> At(s, u).Idle? || WaitsForMutex(At(s, u))
  }

  lemma NextActionIsEnabled(s: State, u: Tid)
    requires Inv(s) && !At(s, u).Idle? && !At(s, u).Dialling?
    requires s.mutex == Some(u) || s.mutex.None? || At(s, u).Using?
    ensures CanStep(s)
  {
    assert PcInv(s, u);
    assert Critical(At(s, u)) <==> s.mutex == Some(u);
    assert Enabled(s, Step(u, NextAction(At(s, u))));
  }

  lemma HeldUpCannotStep(s: State, d: Tid, e: Step)
    requires HeldUpBy(s, d) && Enabled(s, e)
    ensures IsCall(e.a) || e.a.Dial?
  {
    if e.t != d {
      assert At(s, e.t).Idle? || WaitsForMutex(At(s, e.t));
    }
  }

  /**
    While some thread is inside the library, a thread inside it can take a step of its
    own if and only if the library is not held up by a backend's connect.
   */
  lemma CanStepUnlessHeldUp(es: seq<Step>, t: Tid)
    requires CanRun(Start(), es) && !At(After(Start(), es), t).Idle?
    ensures CanStep(After(Start(), es)) <==> !exists d :: HeldUpBy(After(Start(), es), d)
  {
    StartIsGood();
    RunKeepsInv(Start(), es);
    StateCanStepUnlessHeldUp(After(Start(), es), t);
  }

  lemma StateCanStepUnlessHeldUp(s: State, t: Tid)
    requires Inv(s) && !At(s, t).Idle?
    ensures CanStep(s) <==> !exists d :: HeldUpBy(s, d)
  {
    if d :| HeldUpBy(s, d) {
      forall e | Enabled(s, e) ensures IsCall(e.a) || e.a.Dial? {
        HeldUpCannotStep(s, d, e);
      }
    } else if s.mutex.None? {
      assert !Critical(At(s, t));
      NextActionIsEnabled(s, t);
    } else {
      var d := s.mutex.value;
      assert Critical(At(s, d));
      if At(s, d).Dialling? {
        assert !HeldUpBy(s, d);
        var u: Tid :| u != d && !(At(s, u).Idle? || WaitsForMutex(At(s, u)));
        assert !Critical(At(s, u));
        NextActionIsEnabled(s, u);
      } else {
        NextActionIsEnabled(s, d);
      }
    }
  }

  /**
    While a thread is in its backend's connect, the others can only call, hand over and
    complete unlocked transfers.
   */
  lemma OthersWhileDialling(s: State, d: Tid, e: Step)
    requires Inv(s) && At(s, d).Dialling? && Enabled(s, e) && e.t != d
    ensures IsCall(e.a) || e.a.UseSlot?
    ensures var u := Apply(s, e);
      && u.table == s.table && u.mutex == s.mutex && At(u, d) == At(s, d)
      && (WaitsForMutex(At(s, e.t)) ==> At(u, e.t) == At(s, e.t))
  {
    assert Critical(At(s, d)) <==> s.mutex == Some(d);
    assert Critical(At(s, e.t)) <==> s.mutex == Some(e.t);
  }

  /**
    As long as a thread stays in its backend's connect the whole table is frozen, and a
    thread that waits for the mutex waits on: no connect, disconnect or validation of any
    other thread completes.
   */
  lemma {:induction false} FrozenWhileDialling(s: State, es: seq<Step>, d: Tid, u: Tid)
    requires Inv(s) && At(s, d).Dialling? && CanRun(s, es) && forall e | e in es :: e.t != d
    ensures var s' := After(s, es);
      && s'.table == s.table && s'.mutex == Some(d) && At(s', d) == At(s, d)
      && (WaitsForMutex(At(s, u)) ==> At(s', u) == At(s, u))
    decreases es
  {
    assert Critical(At(s, d)) <==> s.mutex == Some(d);
    if es == [] {
    } else {
      OthersWhileDialling(s, d, es[0]);
      StepKeepsInv(s, es[0]);
      assert es[0].t != u ==> At(Apply(s, es[0]), u) == At(s, u);
      FrozenWhileDialling(Apply(s, es[0]), es[1..], d, u);
    }
  }

  /** What a thread does next inside the library. */
  function NextAction(pc: Pc): Action {
    match pc
    case Idle => CallConnect(RAW)
    case ConnectCalled(_) | ValidateCalled(_, _) | RelockNeeded(_) => Lock
    case Scanning(_, _) => Look
    case Chosen(_, _) => SetUpSlot
    case Dialling(_, _) => Dial(0)
    case Publishing(_, _) => PublishSlot
    case Failing(_) => FreeFailed
    case Leaving(_) | Validated(_, _, _) => Unlock
    case Validating(_, _) => Check(false)
    case Closing(_) => Close
    case Freeing(_) => FreeBlock
    case Clearing(_) => ClearSlot
    case Using(_) => UseSlot
  }
}
