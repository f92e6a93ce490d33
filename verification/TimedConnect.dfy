/**
  The timed connect of the VXI-11 backend: `vxi11_connect` starts a worker
  thread that opens the RPC link, and `_pthread_timedjoin` starts a waiter
  thread that joins the worker and reports through a mutex, a condition
  variable and the flag `joined`.

  The three threads are the processes of a step system.  A step is one library
  call or one access to shared memory; every interleaving is a sequence of steps.
 */
module TimedConnect {
  import opened Common
  import Deadline

  /** What `pthread_cond_timedwait` returned. */
  datatype WaitResult = Woken | TimedOut | Invalid

  /** How the worker ended: through `pthread_exit`, or by cancellation. */
  datatype Exit = Status(code: int) | Canceled

  datatype Caller =
    | Begin                        // in vxi11_connect, worker not yet created
    | Lock                         // pthread_mutex_lock
    | SpawnWaiter                  // pthread_create of the waiter
    | CallWait                     // about to call pthread_cond_timedwait
    | Waiting                      // blocked in the wait, mutex released
    | Relock(ret: WaitResult)      // woken, waiting for the mutex
    | Test(ret: WaitResult)        // wait returned, loop condition to be read
    | CancelWaiter(ret: WaitResult)
    | JoinWaiter(ret: WaitResult)
    | Destroy(ret: WaitResult)     // destroy condition variable and mutex
    | TimedJoined(ret: WaitResult) // _pthread_timedjoin returned this; Woken is 0
    | CancelWorker
    | JoinWorker
    | Returned(code: int)          // vxi11_connect returned to lxi_connect
    | Finished(code: int)          // lxi_connect dealt with the result

  datatype Waiter =
    | NoWaiter | Joining | Locking | Setting | Unlocking | Signalling
    | WaiterEnded(canceled: bool)

  datatype Worker =
    | NoWorker
    | Starting              // malloc of the status
    | Creating              // clnt_create
    | Linking               // create_link_1
    | Destroying            // clnt_destroy after a failed link
    | Exiting(code: int)    // pthread_exit
    | WorkerEnded(exit: Exit)

  datatype Holder = Free | CallerHolds | WaiterHolds
  datatype Joiner = ByWaiter | ByCaller
  datatype State = State(
    deadlineOk: bool,      // tv_nsec of the deadline lies in 0..999999999
    caller: Caller,
    waiter: Waiter,
    worker: Worker,
    mutex: Holder,
    joined: bool,
    waiterCancel: bool,    // cancellation requests, acted upon later
    workerCancel: bool,
    joins: seq<Joiner>,    // who joined the worker, in order
    status: Option<Exit>,  // what pthread_join stored in thread_status
    clients: int,          // RPC clients created and not destroyed
    dataFreed: bool)       // lxi_connect freed the backend data

  function Start(deadlineOk: bool): State {
    State(deadlineOk, Begin, NoWaiter, NoWorker, Free, false, false, false, [], None, 0, false)
  }

  datatype Step =
    // caller
    | SetUpFails            // clock_gettime or the worker's pthread_create fails
    | CreateWorker
    | TakeMutex
    | CreateWaiter
    | EnterWait
    | DeadlineRefused       // EINVAL, reported before the mutex is touched
    | TimeOut
    | Spurious
    | Reacquire
    | ReadFlag
    | RequestWaiterCancel
    | ReapWaiter
    | DestroySync
    | ReadTimedJoin
    | RequestWorkerCancel
    | ReapWorker
    | Finish
    // waiter
    | WaiterJoins | WaiterCanceled | WaiterLocks | WaiterSets | WaiterUnlocks | WaiterSignals
    // worker
    | Allocate
    | ClientCreated(ok: bool)
    | LinkCreated(ok: bool)
    | ClientDestroyed
    | Exits
    | WorkerCanceled(kept: bool)  // kept: the call in progress leaves an RPC client behind

  /** The other steps are taken by the waiter and the worker. */
  predicate OfCaller(e: Step) {
    match e
    case WaiterJoins | WaiterCanceled | WaiterLocks | WaiterSets | WaiterUnlocks | WaiterSignals => false
    case Allocate | ClientCreated(_) | LinkCreated(_) | ClientDestroyed | Exits | WorkerCanceled(_) => false
    case _ => true
  }

  /** Cancellation points the worker passes: the RPC calls. */
  predicate WorkerCancellable(k: Worker) {
    k.Creating? || k.Linking? || k.Destroying?
  }

  predicate Enabled(s: State, e: Step) {
    match e
    case SetUpFails => s.caller.Begin?
    case CreateWorker => s.caller.Begin?
    case TakeMutex => s.caller.Lock? && s.mutex.Free?
    case CreateWaiter => s.caller.SpawnWaiter?
    case EnterWait => s.caller.CallWait? && s.deadlineOk
    case DeadlineRefused => s.caller.CallWait? && !s.deadlineOk
    case TimeOut => s.caller.Waiting?
    case Spurious => s.caller.Waiting?
    case Reacquire => s.caller.Relock? && s.mutex.Free?
    case ReadFlag => s.caller.Test?
    case RequestWaiterCancel => s.caller.CancelWaiter?
    case ReapWaiter => s.caller.JoinWaiter? && s.waiter.WaiterEnded?
    case DestroySync => s.caller.Destroy?
    case ReadTimedJoin => s.caller.TimedJoined? && (s.caller.ret.Woken? ==> s.status.Some?)
    case RequestWorkerCancel => s.caller.CancelWorker?
    case ReapWorker => s.caller.JoinWorker? && s.worker.WorkerEnded?
    case Finish => s.caller.Returned?
    case WaiterJoins => s.waiter.Joining? && s.worker.WorkerEnded?
    case WaiterCanceled => s.waiter.Joining? && s.waiterCancel
    case WaiterLocks => s.waiter.Locking? && s.mutex.Free?
    case WaiterSets => s.waiter.Setting?
    case WaiterUnlocks => s.waiter.Unlocking?
    case WaiterSignals => s.waiter.Signalling?
    case Allocate => s.worker.Starting?
    case ClientCreated(_) => s.worker.Creating?
    case LinkCreated(_) => s.worker.Linking?
    case ClientDestroyed => s.worker.Destroying?
    case Exits => s.worker.Exiting?
    case WorkerCanceled(_) => s.workerCancel && WorkerCancellable(s.worker)
  }

  /** What the timed join's result means to vxi11_connect. */
  function AfterTimedJoin(s: State): Caller
    requires s.caller.TimedJoined? && (s.caller.ret.Woken? ==> s.status.Some?)
  {
    if !s.caller.ret.Woken? then CancelWorker
    else match s.status.value
         case Status(code) => Returned(code)
         case Canceled => Returned(-1) // PTHREAD_CANCELED is not a pointer; see StatusIsReal
  }

  function ClientsAfterCancel(s: State, kept: bool): int {
    match s.worker
    case Creating => s.clients + (if kept then 1 else 0)
    case Destroying => s.clients - (if kept then 0 else 1)
    case _ => s.clients
  }

  function Apply(s: State, e: Step): State
    requires Enabled(s, e)
  {
    match e
    case SetUpFails => s.(caller := Returned(-1))
    case CreateWorker => s.(caller := Lock, worker := Starting)
    case TakeMutex => s.(caller := SpawnWaiter, mutex := CallerHolds)
    case CreateWaiter => s.(caller := CallWait, waiter := Joining)
    case EnterWait => s.(caller := Waiting, mutex := Free)
    case DeadlineRefused => s.(caller := Test(Invalid))
    case TimeOut => s.(caller := Relock(TimedOut))
    case Spurious => s.(caller := Relock(Woken))
    case Reacquire => s.(caller := Test(s.caller.ret), mutex := CallerHolds)
    case ReadFlag =>
      s.(caller := if !s.joined && s.caller.ret != TimedOut then CallWait else CancelWaiter(s.caller.ret))
    case RequestWaiterCancel => s.(caller := JoinWaiter(s.caller.ret), waiterCancel := true)
    case ReapWaiter => s.(caller := Destroy(s.caller.ret))
    case DestroySync => s.(caller := TimedJoined(if s.joined then Woken else s.caller.ret), mutex := Free)
    case ReadTimedJoin => s.(caller := AfterTimedJoin(s))
    case RequestWorkerCancel => s.(caller := JoinWorker, workerCancel := true)
    case ReapWorker => s.(caller := Returned(-1), joins := s.joins + [ByCaller])
    case Finish => s.(caller := Finished(s.caller.code), dataFreed := s.caller.code != 0)
    case WaiterJoins => s.(waiter := Locking, joins := s.joins + [ByWaiter], status := Some(s.worker.exit))
    case WaiterCanceled => s.(waiter := WaiterEnded(true))
    case WaiterLocks => s.(waiter := Setting, mutex := WaiterHolds)
    case WaiterSets => s.(waiter := Unlocking, joined := true)
    case WaiterUnlocks => s.(waiter := Signalling, mutex := Free)
    case WaiterSignals =>
      s.(waiter := WaiterEnded(false), caller := if s.caller.Waiting? then Relock(Woken) else s.caller)
    case Allocate => s.(worker := Creating)
    case ClientCreated(ok) =>
      if ok then s.(worker := Linking, clients := s.clients + 1) else s.(worker := Exiting(-1))
    case LinkCreated(ok) => s.(worker := if ok then Exiting(0) else Destroying)
    case ClientDestroyed => s.(worker := Exiting(-1), clients := s.clients - 1)
    case Exits => s.(worker := WorkerEnded(Status(s.worker.code)))
    case WorkerCanceled(kept) =>
      s.(worker := WorkerEnded(Canceled), clients := ClientsAfterCancel(s, kept))
  }

  // ---------- Runs ----------

  predicate CanRun(s: State, es: seq<Step>)
    decreases es
  {
    es == [] || (Enabled(s, es[0]) && CanRun(Apply(s, es[0]), es[1..]))
  }

  function After(s: State, es: seq<Step>): State
    requires CanRun(s, es)
    decreases es
  {
    if es == [] then s else After(Apply(s, es[0]), es[1..])
  }

  ghost predicate Reachable(s: State, t: State) {
    exists es :: CanRun(s, es) && After(s, es) == t
  }

  lemma {:induction false} Append(s: State, es: seq<Step>, e: Step)
    requires CanRun(s, es) && Enabled(After(s, es), e)
    ensures CanRun(s, es + [e]) && After(s, es + [e]) == Apply(After(s, es), e)
    decreases es
  {
    if es == [] {
    } else {
      Append(Apply(s, es[0]), es[1..], e);
      assert (es + [e])[1..] == es[1..] + [e];
    }
  }

  /** One more step from a reachable state. */
  lemma Extend(s: State, t: State, e: Step) returns (u: State)
    requires Reachable(s, t) && Enabled(t, e)
    ensures u == Apply(t, e) && Reachable(s, u)
  {
    var es :| CanRun(s, es) && After(s, es) == t;
    Append(s, es, e);
    u := Apply(t, e);
  }

  // ---------- Memory ----------

  datatype Region =
    | WrapperArgs   // args of _pthread_timedjoin: mutex, condition variable, joined
    | ConnectFrame  // args and thread_status of vxi11_connect
    | Data          // the backend data block

  /** Memory whose lifetime has not ended. */
  function Live(s: State): set<Region> {
    (if s.caller.Begin? || s.caller.TimedJoined? || s.caller.CancelWorker? || s.caller.JoinWorker?
        || s.caller.Returned? || s.caller.Finished? then {} else {WrapperArgs})
    + (if s.caller.Returned? || s.caller.Finished? then {} else {ConnectFrame})
    + (if s.dataFreed then {} else {Data})
  }

  /** Memory the waiter and the worker read or write in a step. */
  function Touches(e: Step): set<Region> {
    match e
    case WaiterJoins => {WrapperArgs, ConnectFrame}
    case WaiterLocks | WaiterSets | WaiterUnlocks | WaiterSignals => {WrapperArgs}
    case Allocate => {ConnectFrame}
    case ClientCreated(_) => {ConnectFrame, Data}
    case LinkCreated(_) | ClientDestroyed => {ConnectFrame, Data}
    case _ => {}
  }

  // ---------- The invariant ----------

  predicate AtOrAfterReap(c: Caller) {
    c.Destroy? || c.TimedJoined? || c.CancelWorker? || c.JoinWorker? || c.Returned? || c.Finished?
  }

  /** Who holds the mutex follows from where the threads are. */
  predicate MutexInv(s: State) {
    && (s.mutex.CallerHolds? <==>
        s.caller.SpawnWaiter? || s.caller.CallWait? || s.caller.Test? || s.caller.CancelWaiter?
        || s.caller.JoinWaiter? || s.caller.Destroy?)
    && (s.mutex.WaiterHolds? <==> s.waiter.Setting? || s.waiter.Unlocking?)
  }

  predicate WaiterInv(s: State) {
    && (s.waiter.NoWaiter? ==>
        s.caller.Begin? || s.caller.Lock? || s.caller.SpawnWaiter?
        || ((s.caller.Returned? || s.caller.Finished?) && s.worker.NoWorker?))
    && (s.caller.Begin? || s.caller.Lock? || s.caller.SpawnWaiter? ==> s.waiter.NoWaiter?)
    && (AtOrAfterReap(s.caller) && !s.worker.NoWorker? ==> s.waiter.WaiterEnded?)
  }

  /** The waiter is cancelled only on request, and the request comes before the join. */
  predicate CancelInv(s: State) {
    && (s.waiter == WaiterEnded(true) ==> s.waiterCancel)
    && (s.waiterCancel ==> s.caller.JoinWaiter? || AtOrAfterReap(s.caller))
    && (s.caller.JoinWaiter? ==> s.waiterCancel)
  }

  /** When the flag is set, and where the caller can be then. */
  predicate FlagInv(s: State) {
    && (s.waiter.Setting? || s.waiter.Unlocking? ==> s.caller.Waiting? || s.caller.Relock?)
    && (s.joined <==> s.waiter.Unlocking? || s.waiter.Signalling? || s.waiter == WaiterEnded(false))
    && (s.waiter.WaiterEnded? ==> !s.caller.Waiting?)
    && (s.joined ==> s.deadlineOk && !s.caller.CallWait?)
  }

  /** What the caller's local `ret` can be. */
  predicate RetInv(s: State) {
    && (s.caller.Relock? || s.caller.Waiting? ==> s.deadlineOk)
    && (s.caller.Relock? ==> !s.caller.ret.Invalid?)
    && (s.caller.Test? ==> (s.caller.ret.Invalid? <==> !s.deadlineOk))
    && (s.caller.CancelWaiter? || s.caller.JoinWaiter? || s.caller.Destroy? ==>
          s.deadlineOk && !s.caller.ret.Invalid? && (s.joined || s.caller.ret.TimedOut?))
    && (s.caller.TimedJoined? ==>
          s.deadlineOk && !s.caller.ret.Invalid? && (s.caller.ret.Woken? <==> s.joined))
    && (s.caller.CancelWorker? || s.caller.JoinWorker? ==> s.deadlineOk && !s.joined)
  }

  predicate PastJoin(w: Waiter) {
    w.Locking? || w.Setting? || w.Unlocking? || w.Signalling? || w == WaiterEnded(false)
  }

  /** The worker exists once the call is past its set-up. */
  predicate WorkerInv(s: State) {
    && (s.worker.NoWorker? ==> s.caller.Begin? || s.caller.Returned? || s.caller.Finished?)
    && (s.caller.Begin? ==> s.worker.NoWorker?)
  }

  predicate JoinInv(s: State) {
    && (PastJoin(s.waiter) ==> s.worker.WorkerEnded? && s.status == Some(s.worker.exit))
    && (s.caller.Returned? || s.caller.Finished? ==>
          if s.worker.NoWorker? then s.joins == [] && s.caller.code == -1 && s.waiter.NoWaiter?
          else s.worker.WorkerEnded? && s.deadlineOk
               && (if s.joined then s.joins == [ByWaiter] && s.worker.exit == Status(s.caller.code)
                   else s.joins == [ByCaller] && s.caller.code == -1 && s.workerCancel))
    && (!s.caller.Returned? && !s.caller.Finished? ==>
          s.joins == if PastJoin(s.waiter) then [ByWaiter] else [])
    && (s.caller.JoinWorker? ==> s.workerCancel)
    && (s.workerCancel ==> !s.joined && (s.caller.JoinWorker? || s.caller.Returned? || s.caller.Finished?))
    && (s.worker == WorkerEnded(Canceled) ==> s.workerCancel)
    && (s.dataFreed <==> s.caller.Finished? && s.caller.code != 0)
  }

  /** How many RPC clients the worker has open. */
  predicate ClientInv(s: State) {
    match s.worker
    case NoWorker | Starting | Creating => s.clients == 0
    case Linking | Destroying => s.clients == 1
    case Exiting(code) => (code == 0 || code == -1) && s.clients == 1 + code
    case WorkerEnded(Status(code)) => (code == 0 || code == -1) && s.clients == 1 + code
    case WorkerEnded(Canceled) => s.clients == 0 || s.clients == 1
  }

  predicate Inv(s: State) {
    MutexInv(s) && WaiterInv(s) && WorkerInv(s) && CancelInv(s) && FlagInv(s) && RetInv(s) && JoinInv(s) && ClientInv(s)
  }

  lemma CallerKeepsMutexInv(s: State, e: Step)
    requires Inv(s) && Enabled(s, e) && OfCaller(e)
    ensures MutexInv(Apply(s, e))
  {
    match e
    case SetUpFails | CreateWorker | TakeMutex | CreateWaiter | EnterWait | DeadlineRefused | TimeOut =>
    case Spurious | Reacquire | ReadFlag | RequestWaiterCancel | ReapWaiter | DestroySync | ReadTimedJoin =>
    case RequestWorkerCancel | ReapWorker | Finish =>
    case _ => assert false;
  }

  lemma CallerKeepsWaiterInv(s: State, e: Step)
    requires WaiterInv(s) && WorkerInv(s) && Enabled(s, e) && OfCaller(e)
    ensures WaiterInv(Apply(s, e))
  {
    match e
    case SetUpFails | CreateWorker | TakeMutex | CreateWaiter | EnterWait | DeadlineRefused | TimeOut =>
    case Spurious | Reacquire | ReadFlag | RequestWaiterCancel | ReapWaiter | DestroySync | ReadTimedJoin =>
    case RequestWorkerCancel | ReapWorker | Finish =>
    case _ => assert false;
  }

  lemma CallerKeepsWorkerInv(s: State, e: Step)
    requires WorkerInv(s) && Enabled(s, e) && OfCaller(e)
    ensures WorkerInv(Apply(s, e))
  {}

  lemma CallerKeepsCancelInv(s: State, e: Step)
    requires CancelInv(s) && Enabled(s, e) && OfCaller(e)
    ensures CancelInv(Apply(s, e))
  {}

  lemma CallerKeepsFlagInv(s: State, e: Step)
    requires Inv(s) && Enabled(s, e) && OfCaller(e)
    ensures FlagInv(Apply(s, e))
  {
    match e
    case SetUpFails | CreateWorker | TakeMutex | CreateWaiter | EnterWait | DeadlineRefused | TimeOut =>
    case Spurious | Reacquire | ReadFlag | RequestWaiterCancel | ReapWaiter | DestroySync | ReadTimedJoin =>
    case RequestWorkerCancel | ReapWorker | Finish =>
    case _ => assert false;
  }

  lemma CallerKeepsRetInv(s: State, e: Step)
    requires FlagInv(s) && RetInv(s) && Enabled(s, e) && OfCaller(e)
    ensures RetInv(Apply(s, e))
  {
    match e
    case SetUpFails | CreateWorker | TakeMutex | CreateWaiter | EnterWait | DeadlineRefused | TimeOut =>
    case Spurious | Reacquire | ReadFlag | RequestWaiterCancel | ReapWaiter | DestroySync | ReadTimedJoin =>
    case RequestWorkerCancel | ReapWorker | Finish =>
    case _ => assert false;
  }

  lemma CallerKeepsJoinInv(s: State, e: Step)
    requires Inv(s) && Enabled(s, e) && OfCaller(e)
    ensures JoinInv(Apply(s, e))
  {
    match e
    case SetUpFails | CreateWorker | TakeMutex | CreateWaiter | EnterWait | DeadlineRefused | TimeOut =>
    case Spurious | Reacquire | ReadFlag | RequestWaiterCancel | ReapWaiter | DestroySync | ReadTimedJoin =>
    case RequestWorkerCancel | ReapWorker | Finish =>
    case _ => assert false;
  }

  lemma CallerKeepsClientInv(s: State, e: Step)
    requires WorkerInv(s) && ClientInv(s) && Enabled(s, e) && OfCaller(e)
    ensures ClientInv(Apply(s, e))
  {}

  lemma ThreadKeepsMutexInv(s: State, e: Step)
    requires Inv(s) && Enabled(s, e) && !OfCaller(e)
    ensures MutexInv(Apply(s, e))
  {}

  lemma ThreadKeepsWaiterInv(s: State, e: Step)
    requires WaiterInv(s) && WorkerInv(s) && Enabled(s, e) && !OfCaller(e)
    ensures WaiterInv(Apply(s, e))
  {}

  lemma ThreadKeepsWorkerInv(s: State, e: Step)
    requires WorkerInv(s) && Enabled(s, e) && !OfCaller(e)
    ensures WorkerInv(Apply(s, e))
  {}

  lemma ThreadKeepsCancelInv(s: State, e: Step)
    requires CancelInv(s) && Enabled(s, e) && !OfCaller(e)
    ensures CancelInv(Apply(s, e))
  {}

  lemma ThreadKeepsFlagInv(s: State, e: Step)
    requires Inv(s) && Enabled(s, e) && !OfCaller(e)
    ensures FlagInv(Apply(s, e))
  {}

  lemma ThreadKeepsRetInv(s: State, e: Step)
    requires FlagInv(s) && RetInv(s) && Enabled(s, e) && !OfCaller(e)
    ensures RetInv(Apply(s, e))
  {}

  lemma ThreadKeepsJoinInv(s: State, e: Step)
    requires Inv(s) && Enabled(s, e) && !OfCaller(e)
    ensures JoinInv(Apply(s, e))
  {}

  lemma ThreadKeepsClientInv(s: State, e: Step)
    requires ClientInv(s) && Enabled(s, e) && !OfCaller(e)
    ensures ClientInv(Apply(s, e))
  {
    match e
    case WaiterJoins | WaiterCanceled | WaiterLocks | WaiterSets | WaiterUnlocks | WaiterSignals =>
    case Allocate =>
    case ClientCreated(_) =>
    case LinkCreated(_) =>
    case ClientDestroyed =>
    case Exits =>
    case WorkerCanceled(_) =>
    case _ => assert false;
  }

  lemma StepKeepsInv(s: State, e: Step)
    requires Inv(s) && Enabled(s, e)
    ensures Inv(Apply(s, e)) && Apply(s, e).deadlineOk == s.deadlineOk
  {
    if OfCaller(e) {
      CallerKeepsMutexInv(s, e);
      CallerKeepsWaiterInv(s, e);
      CallerKeepsWorkerInv(s, e);
      CallerKeepsCancelInv(s, e);
      CallerKeepsFlagInv(s, e);
      CallerKeepsRetInv(s, e);
      CallerKeepsJoinInv(s, e);
      CallerKeepsClientInv(s, e);
    } else {
      ThreadKeepsMutexInv(s, e);
      ThreadKeepsWaiterInv(s, e);
      ThreadKeepsWorkerInv(s, e);
      ThreadKeepsCancelInv(s, e);
      ThreadKeepsFlagInv(s, e);
      ThreadKeepsRetInv(s, e);
      ThreadKeepsJoinInv(s, e);
      ThreadKeepsClientInv(s, e);
    }
  }

  /** Every state of every run satisfies the invariant. */
  lemma {:induction false} RunKeepsInv(s: State, es: seq<Step>)
    requires Inv(s) && CanRun(s, es)
    ensures Inv(After(s, es)) && After(s, es).deadlineOk == s.deadlineOk
    decreases es
  {
    if es == [] {
    } else {
      StepKeepsInv(s, es[0]);
      RunKeepsInv(Apply(s, es[0]), es[1..]);
    }
  }

  // ---------- Safety over whole runs ----------

  /**
    When `vxi11_connect` has returned, either no thread was ever started, or the
    worker and the waiter have both ended and the worker was joined exactly once:
    by the waiter when the timed join gave 0, by `vxi11_connect` otherwise.
    The code returned is then the worker's own status, or -1, and the worker's status is
    0 if and only if create_link_1 succeeded.  It was told to cancel if and only if it was
    not joined by the waiter.
   */
  lemma ReturnedMeansJoinedOnce(deadlineOk: bool, es: seq<Step>)
    requires CanRun(Start(deadlineOk), es)
    ensures var s := After(Start(deadlineOk), es);
      s.caller.Returned? || s.caller.Finished? ==>
        if s.worker.NoWorker? then s.waiter.NoWaiter? && s.joins == [] && s.caller.code == -1
        else && s.worker.WorkerEnded? && s.waiter.WaiterEnded?
             && s.joins == [if s.joined then ByWaiter else ByCaller]
             && (s.joined ==> s.worker.exit == Status(s.caller.code) && s.status == Some(s.worker.exit))
             && (!s.joined ==> s.caller.code == -1)
             && (s.workerCancel <==> !s.joined)
             && (s.worker.exit == Status(0) <==> LinkCreated(true) in es)
  {
    RunKeepsInv(Start(deadlineOk), es);
    LinksFrom(Start(deadlineOk), es);
  }

  /** The timed join gives 0 exactly when the waiter joined the worker and said so. */
  lemma TimedJoinZeroIffWaiterJoined(deadlineOk: bool, es: seq<Step>)
    requires CanRun(Start(deadlineOk), es)
    ensures var s := After(Start(deadlineOk), es);
      s.caller.TimedJoined? ==>
        && (s.caller.ret.Woken? <==> s.joins == [ByWaiter])
        && (s.caller.ret.TimedOut? <==> s.joins == [])
        && s.waiter == WaiterEnded(!s.caller.ret.Woken?)
  {
    RunKeepsInv(Start(deadlineOk), es);
  }

  /** `*thread_status` is read only when it is a status the worker allocated. */
  lemma StatusIsReal(deadlineOk: bool, es: seq<Step>)
    requires CanRun(Start(deadlineOk), es)
    ensures var s := After(Start(deadlineOk), es);
      s.caller == TimedJoined(Woken) ==>
        s.status.Some? && s.status.value.Status? && Enabled(s, ReadTimedJoin)
  {
    RunKeepsInv(Start(deadlineOk), es);
    var s := After(Start(deadlineOk), es);
    if s.caller == TimedJoined(Woken) {
      StatusIsSet(s);
    }
  }

  lemma StatusIsSet(s: State)
    requires RetInv(s) && FlagInv(s) && JoinInv(s) && s.caller == TimedJoined(Woken)
    ensures s.status.Some? && s.status.value.Status? && Enabled(s, ReadTimedJoin)
  {}

  /**
    No step of the waiter or the worker touches memory whose lifetime is over:
    neither frame is left and `data` is not freed while a thread still uses it.
   */
  lemma StepsTouchOnlyLiveMemory(deadlineOk: bool, es: seq<Step>, e: Step)
    requires CanRun(Start(deadlineOk), es) && Enabled(After(Start(deadlineOk), es), e)
    ensures Touches(e) <= Live(After(Start(deadlineOk), es))
  {
    RunKeepsInv(Start(deadlineOk), es);
  }

  /** After `lxi_connect` has freed `data`, no step of any thread is left. */
  lemma NothingRunsAfterFree(deadlineOk: bool, es: seq<Step>, e: Step)
    requires CanRun(Start(deadlineOk), es)
    ensures After(Start(deadlineOk), es).caller.Finished? ==> !Enabled(After(Start(deadlineOk), es), e)
  {
    RunKeepsInv(Start(deadlineOk), es);
    if After(Start(deadlineOk), es).caller.Finished? {
      FinishedIsQuiet(After(Start(deadlineOk), es), e);
    }
  }

  lemma FinishedIsQuiet(s: State, e: Step)
    requires WaiterInv(s) && JoinInv(s) && s.caller.Finished?
    ensures !Enabled(s, e)
  {}

  lemma ReturnedIsQuiet(s: State, e: Step)
    requires WaiterInv(s) && JoinInv(s) && s.caller.Returned? && Enabled(s, e)
    ensures e.Finish?
  {}

  lemma OnlyFinishFinishes(s: State, e: Step)
    requires Enabled(s, e) && !s.caller.Finished?
    ensures Apply(s, e).caller.Finished? <==> e.Finish?
  {
    match e
    case SetUpFails | CreateWorker | TakeMutex | CreateWaiter | EnterWait | DeadlineRefused | TimeOut | Spurious
       | Reacquire | ReadFlag | RequestWaiterCancel | ReapWaiter | DestroySync | ReadTimedJoin
       | RequestWorkerCancel | ReapWorker | Finish =>
    case WaiterJoins | WaiterCanceled | WaiterLocks | WaiterSets | WaiterUnlocks | WaiterSignals =>
    case Allocate | ClientCreated(_) | LinkCreated(_) | ClientDestroyed | Exits | WorkerCanceled(_) =>
  }

  /** A run that has not finished does not contain the last step. */
  lemma {:induction false} UnfinishedHasNoFinish(s: State, es: seq<Step>)
    requires Inv(s) && CanRun(s, es) && !After(s, es).caller.Finished?
    ensures !s.caller.Finished? && Finish !in es
    decreases es
  {
    if es == [] {
    } else {
      StepKeepsInv(s, es[0]);
      UnfinishedHasNoFinish(Apply(s, es[0]), es[1..]);
      if s.caller.Finished? {
        FinishedIsQuiet(s, es[0]);
      }
      OnlyFinishFinishes(s, es[0]);
    }
  }

  // ---------- The flag and the wakeup ----------

  /** `joined` changes only in a step of the thread that holds the mutex, while the caller waits. */
  lemma JoinedWrittenByHolder(deadlineOk: bool, es: seq<Step>, e: Step)
    requires CanRun(Start(deadlineOk), es) && Enabled(After(Start(deadlineOk), es), e)
    ensures var s := After(Start(deadlineOk), es);
      Apply(s, e).joined != s.joined ==>
        Apply(s, e).joined && s.mutex.WaiterHolds? && (s.caller.Waiting? || s.caller.Relock?)
  {
    RunKeepsInv(Start(deadlineOk), es);
    OnlyWaiterSets(After(Start(deadlineOk), es), e);
  }

  lemma OnlyWaiterSets(s: State, e: Step)
    requires Enabled(s, e)
    ensures Apply(s, e).joined == (s.joined || e.WaiterSets?)
  {
    match e
    case SetUpFails | CreateWorker | TakeMutex | CreateWaiter | EnterWait | DeadlineRefused | TimeOut | Spurious
       | Reacquire | ReadFlag | RequestWaiterCancel | ReapWaiter | DestroySync | ReadTimedJoin
       | RequestWorkerCancel | ReapWorker | Finish =>
    case WaiterJoins | WaiterCanceled | WaiterLocks | WaiterSets | WaiterUnlocks | WaiterSignals =>
    case Allocate | ClientCreated(_) | LinkCreated(_) | ClientDestroyed | Exits | WorkerCanceled(_) =>
  }

  predicate LeftLoop(c: Caller) {
    c.CancelWaiter? || c.JoinWaiter? || AtOrAfterReap(c)
  }

  lemma StepFreezesJoined(s: State, e: Step)
    requires FlagInv(s) && LeftLoop(s.caller) && Enabled(s, e)
    ensures LeftLoop(Apply(s, e).caller) && Apply(s, e).joined == s.joined
  {
    OnlyWaiterSets(s, e);
  }

  /** Once the caller has left the wait loop it never re-enters it and `joined` is frozen. */
  lemma {:induction false} JoinedFrozenAfterLoop(s: State, es: seq<Step>)
    requires Inv(s) && LeftLoop(s.caller) && CanRun(s, es)
    ensures LeftLoop(After(s, es).caller) && After(s, es).joined == s.joined
    decreases es
  {
    if es == [] {
    } else {
      StepKeepsInv(s, es[0]);
      StepFreezesJoined(s, es[0]);
      JoinedFrozenAfterLoop(Apply(s, es[0]), es[1..]);
    }
  }

  /**
    No wakeup is lost: in a state with `joined` set the caller is not waiting for
    a signal that has already been sent, and when its wait returns, with whatever
    result, reading the flag takes it out of the loop.
   */
  lemma NoLostWakeup(deadlineOk: bool, es: seq<Step>)
    requires CanRun(Start(deadlineOk), es)
    ensures After(Start(deadlineOk), es).joined ==> WillWake(After(Start(deadlineOk), es))
  {
    RunKeepsInv(Start(deadlineOk), es);
    var s := After(Start(deadlineOk), es);
    if s.joined {
      JoinedWillWake(s);
    }
  }

  /** A spurious wakeup is possible in every wait, and without `joined` it brings the caller back to the same state. */
  lemma SpuriousIsHarmless(deadlineOk: bool, es: seq<Step>)
    requires CanRun(Start(deadlineOk), es) && After(Start(deadlineOk), es).caller.Waiting?
    ensures var s := After(Start(deadlineOk), es);
      && Enabled(s, Spurious)
      && (!s.joined && s.mutex.Free? ==>
            CanRun(s, [Spurious, Reacquire, ReadFlag, EnterWait])
            && After(s, [Spurious, Reacquire, ReadFlag, EnterWait]) == s)
  {
    RunKeepsInv(Start(deadlineOk), es);
    var s := After(Start(deadlineOk), es);
    if !s.joined && s.mutex.Free? {
      GoesRoundOnce(s);
    }
  }

  lemma {:induction false} GoesRoundOnce(s: State)
    requires s.caller.Waiting? && s.deadlineOk && !s.joined && s.mutex.Free?
    ensures CanRun(s, [Spurious, Reacquire, ReadFlag, EnterWait])
    ensures After(s, [Spurious, Reacquire, ReadFlag, EnterWait]) == s
  {
    var a, c := Apply(s, Spurious), s.(caller := CallWait, mutex := CallerHolds);
    var b := Apply(a, Reacquire);
    assert Apply(b, ReadFlag) == c && Apply(c, EnterWait) == s;
    assert [EnterWait][1..] == [] && [ReadFlag, EnterWait][1..] == [EnterWait];
    assert [Reacquire, ReadFlag, EnterWait][1..] == [ReadFlag, EnterWait];
    assert [Spurious, Reacquire, ReadFlag, EnterWait][1..] == [Reacquire, ReadFlag, EnterWait];
    assert CanRun(c, [EnterWait]) && After(c, [EnterWait]) == s;
    assert CanRun(b, [ReadFlag, EnterWait]) && After(b, [ReadFlag, EnterWait]) == s;
    assert CanRun(a, [Reacquire, ReadFlag, EnterWait]) && After(a, [Reacquire, ReadFlag, EnterWait]) == s;
  }

  /** The caller is out of the loop, or its wait is about to end and its next test leaves the loop. */
  predicate WillWake(s: State) {
    && !s.caller.CallWait?
    && (s.caller.Waiting? ==> s.waiter.Unlocking? || s.waiter.Signalling?)
    && (s.caller.Waiting? && Enabled(s, WaiterSignals) ==> Apply(s, WaiterSignals).caller == Relock(Woken))
    && (s.caller.Test? ==> Apply(s, ReadFlag).caller == CancelWaiter(s.caller.ret))
  }

  lemma JoinedWillWake(s: State)
    requires FlagInv(s) && s.joined
    ensures WillWake(s)
  {}

  /** The mutex is always still held by the caller when it is destroyed. */
  lemma MutexDestroyedWhileHeld(deadlineOk: bool, es: seq<Step>)
    requires CanRun(Start(deadlineOk), es)
    ensures var s := After(Start(deadlineOk), es);
      s.caller.Destroy? || s.caller.JoinWaiter? ==> s.mutex.CallerHolds?
  {
    RunKeepsInv(Start(deadlineOk), es);
  }

  // ---------- RPC clients ----------

  /**
    The steps with which the worker ends and leaves its RPC client behind: its normal
    exit with status 0, a cancellation while it sets up the link, and a cancellation in
    clnt_create or clnt_destroy that leaves the client in existence.
   */
  predicate LeavesClient(s: State, e: Step) {
    || (e.Exits? && s.worker == Exiting(0))
    || (e.WorkerCanceled? && (s.worker.Linking? || e.kept))
  }

  /** Some step of the run does. */
  predicate RunLeavesClient(s: State, es: seq<Step>)
    requires CanRun(s, es)
    decreases es
  {
    es != [] && (LeavesClient(s, es[0]) || RunLeavesClient(Apply(s, es[0]), es[1..]))
  }

  lemma StepLeavesClientIff(s: State, e: Step)
    requires ClientInv(s) && Enabled(s, e) && !s.worker.WorkerEnded? && Apply(s, e).worker.WorkerEnded?
    ensures Apply(s, e).clients == if LeavesClient(s, e) then 1 else 0
  {
    match e
    case SetUpFails | CreateWorker | TakeMutex | CreateWaiter | EnterWait | DeadlineRefused | TimeOut | Spurious
       | Reacquire | ReadFlag | RequestWaiterCancel | ReapWaiter | DestroySync | ReadTimedJoin
       | RequestWorkerCancel | ReapWorker | Finish =>
    case WaiterJoins | WaiterCanceled | WaiterLocks | WaiterSets | WaiterUnlocks | WaiterSignals =>
    case Allocate | ClientCreated(_) | LinkCreated(_) | ClientDestroyed | Exits | WorkerCanceled(_) =>
  }

  lemma {:induction false} EndedWorkerStaysEnded(s: State, es: seq<Step>)
    requires Inv(s) && s.worker.WorkerEnded? && CanRun(s, es)
    ensures After(s, es).worker == s.worker && After(s, es).clients == s.clients && !RunLeavesClient(s, es)
    decreases es
  {
    if es == [] {
    } else {
      StepKeepsInv(s, es[0]);
      EndedWorkerStep(s, es[0]);
      EndedWorkerStaysEnded(Apply(s, es[0]), es[1..]);
    }
  }

  lemma EndedWorkerStep(s: State, e: Step)
    requires WorkerInv(s) && s.worker.WorkerEnded? && Enabled(s, e)
    ensures Apply(s, e).worker == s.worker && Apply(s, e).clients == s.clients && !LeavesClient(s, e)
  {
    match e
    case SetUpFails | CreateWorker | TakeMutex | CreateWaiter | EnterWait | DeadlineRefused | TimeOut | Spurious
       | Reacquire | ReadFlag | RequestWaiterCancel | ReapWaiter | DestroySync | ReadTimedJoin
       | RequestWorkerCancel | ReapWorker | Finish =>
    case WaiterJoins | WaiterCanceled | WaiterLocks | WaiterSets | WaiterUnlocks | WaiterSignals =>
    case Allocate | ClientCreated(_) | LinkCreated(_) | ClientDestroyed | Exits | WorkerCanceled(_) =>
  }

  lemma {:induction false} ClientsLeftFrom(s: State, es: seq<Step>)
    requires Inv(s) && CanRun(s, es) && !s.worker.WorkerEnded? && After(s, es).worker.WorkerEnded?
    ensures After(s, es).clients == if RunLeavesClient(s, es) then 1 else 0
    decreases es
  {
    StepKeepsInv(s, es[0]);
    var t := Apply(s, es[0]);
    if t.worker.WorkerEnded? {
      StepLeavesClientIff(s, es[0]);
      EndedWorkerStaysEnded(t, es[1..]);
    } else {
      assert !LeavesClient(s, es[0]);
      ClientsLeftFrom(t, es[1..]);
    }
  }

  /** In every run, once the worker has ended one RPC client is left if and only if some step left it. */
  lemma ClientsLeftIff(deadlineOk: bool, es: seq<Step>)
    requires CanRun(Start(deadlineOk), es) && After(Start(deadlineOk), es).worker.WorkerEnded?
    ensures After(Start(deadlineOk), es).clients == if RunLeavesClient(Start(deadlineOk), es) then 1 else 0
  {
    ClientsLeftFrom(Start(deadlineOk), es);
  }

  /** One client is in existence exactly when 0 was returned, and then only one. */
  predicate Conserved(s: State)
    requires s.caller.Returned? || s.caller.Finished?
  {
    s.clients == if s.caller.code == 0 then 1 else 0
  }

  /**
    Conservation over every run: when `vxi11_connect` has returned, the RPC clients are
    accounted for if and only if the connect did not time out, or no step of the run
    left a client behind.
   */
  lemma ClientsConservedIff(deadlineOk: bool, es: seq<Step>)
    requires CanRun(Start(deadlineOk), es)
    ensures var s := After(Start(deadlineOk), es);
      s.caller.Returned? || s.caller.Finished? ==>
        && (s.caller.code == 0 || s.caller.code == -1) && 0 <= s.clients <= 1
        && (s.worker.NoWorker? ==> !RunLeavesClient(Start(deadlineOk), es))
        && (Conserved(s) <==> s.joined || !RunLeavesClient(Start(deadlineOk), es))
  {
    RunKeepsInv(Start(deadlineOk), es);
    var s := After(Start(deadlineOk), es);
    if s.worker.WorkerEnded? {
      ClientsLeftIff(deadlineOk, es);
    } else if s.caller.Returned? || s.caller.Finished? {
      NoWorkerLeavesNone(Start(deadlineOk), es);
    }
  }

  lemma {:induction false} NoWorkerLeavesNone(s: State, es: seq<Step>)
    requires Inv(s) && CanRun(s, es) && After(s, es).worker.NoWorker?
    ensures s.worker.NoWorker? && !RunLeavesClient(s, es)
    decreases es
  {
    if es == [] {
    } else {
      StepKeepsInv(s, es[0]);
      NoWorkerLeavesNone(Apply(s, es[0]), es[1..]);
      WorkerIsNotUndone(s, es[0]);
    }
  }

  lemma WorkerIsNotUndone(s: State, e: Step)
    requires Enabled(s, e) && Apply(s, e).worker.NoWorker?
    ensures s.worker.NoWorker? && !LeavesClient(s, e)
  {
    match e
    case SetUpFails | CreateWorker | TakeMutex | CreateWaiter | EnterWait | DeadlineRefused | TimeOut | Spurious
       | Reacquire | ReadFlag | RequestWaiterCancel | ReapWaiter | DestroySync | ReadTimedJoin
       | RequestWorkerCancel | ReapWorker | Finish =>
    case WaiterJoins | WaiterCanceled | WaiterLocks | WaiterSets | WaiterUnlocks | WaiterSignals =>
    case Allocate | ClientCreated(_) | LinkCreated(_) | ClientDestroyed | Exits | WorkerCanceled(_) =>
  }

  /**
    After a timeout: a worker that got its link before it was cancelled always leaves the
    client although -1 is returned, one that failed never does, and a cancelled one does
    exactly if it was cancelled while linking or the interrupted call kept the client.
   */
  lemma {:induction false} AfterTimeoutClientsLeftIff(deadlineOk: bool, es: seq<Step>)
    requires CanRun(Start(deadlineOk), es)
    ensures var s := After(Start(deadlineOk), es);
      (s.caller.Returned? || s.caller.Finished?) && !s.worker.NoWorker? && !s.joined ==>
        && s.worker.WorkerEnded? && s.caller.code == -1
        && (match s.worker.exit
            case Status(code) => s.clients == (if LinkCreated(true) in es then 1 else 0) == 1 + code
            case Canceled => s.clients == if RunLeavesClient(Start(deadlineOk), es) then 1 else 0)
  {
    RunKeepsInv(Start(deadlineOk), es);
    if After(Start(deadlineOk), es).worker.WorkerEnded? {
      ClientsLeftIff(deadlineOk, es);
      WorkerStatusIff(deadlineOk, es);
    }
  }

  // ---------- The code returned ----------

  /** The worker has its link and its status is 0. */
  predicate HasLink(k: Worker) { k == Exiting(0) || k == WorkerEnded(Status(0)) }

  /** The worker has failed and its status is, or is going to be, -1. */
  predicate HasFailed(k: Worker) { k.Destroying? || k == Exiting(-1) || k == WorkerEnded(Status(-1)) }

  lemma StepLinks(s: State, e: Step)
    requires WorkerInv(s) && ClientInv(s) && Enabled(s, e)
    ensures HasLink(Apply(s, e).worker) == (HasLink(s.worker) || e == LinkCreated(true))
    ensures HasFailed(Apply(s, e).worker) ==>
      HasFailed(s.worker) || e == ClientCreated(false) || e == LinkCreated(false)
  {
    match e
    case SetUpFails | CreateWorker | TakeMutex | CreateWaiter | EnterWait | DeadlineRefused | TimeOut | Spurious
       | Reacquire | ReadFlag | RequestWaiterCancel | ReapWaiter | DestroySync | ReadTimedJoin
       | RequestWorkerCancel | ReapWorker | Finish =>
    case WaiterJoins | WaiterCanceled | WaiterLocks | WaiterSets | WaiterUnlocks | WaiterSignals =>
    case Allocate | ClientCreated(_) | LinkCreated(_) | ClientDestroyed | Exits | WorkerCanceled(_) =>
  }

  lemma {:induction false} LinksFrom(s: State, es: seq<Step>)
    requires Inv(s) && CanRun(s, es)
    ensures HasLink(After(s, es).worker) <==> HasLink(s.worker) || LinkCreated(true) in es
    ensures HasFailed(After(s, es).worker) ==>
      HasFailed(s.worker) || ClientCreated(false) in es || LinkCreated(false) in es
    decreases es
  {
    if es == [] {
    } else {
      StepKeepsInv(s, es[0]);
      StepLinks(s, es[0]);
      LinksFrom(Apply(s, es[0]), es[1..]);
    }
  }

  /**
    In every run, a worker that has ended by itself has status 0 if and only if create_link_1
    succeeded, and -1 if and only if it did not, which takes a failed clnt_create or a
    failed create_link_1; a worker that was cancelled never had its link.
   */
  lemma WorkerStatusIff(deadlineOk: bool, es: seq<Step>)
    requires CanRun(Start(deadlineOk), es) && After(Start(deadlineOk), es).worker.WorkerEnded?
    ensures var exit := After(Start(deadlineOk), es).worker.exit;
      && (exit == Status(0) <==> LinkCreated(true) in es)
      && (exit == Status(-1) <==> exit.Status? && LinkCreated(true) !in es)
      && (exit == Status(-1) ==> ClientCreated(false) in es || LinkCreated(false) in es)
  {
    RunKeepsInv(Start(deadlineOk), es);
    LinksFrom(Start(deadlineOk), es);
  }

  /**
    In every run, `vxi11_connect` returns 0 if and only if the waiter joined the worker in
    time and create_link_1 had succeeded, and -1 otherwise; and `lxi_connect` frees the
    block if and only if it got -1.
   */
  lemma ReturnsZeroIffLinked(deadlineOk: bool, es: seq<Step>)
    requires CanRun(Start(deadlineOk), es)
    ensures var s := After(Start(deadlineOk), es);
      && (s.caller.Returned? || s.caller.Finished? ==>
            s.caller.code == if s.joined && LinkCreated(true) in es then 0 else -1)
      && (s.caller.Finished? ==> (s.dataFreed <==> !(s.joined && LinkCreated(true) in es)))
      && (!s.caller.Finished? ==> !s.dataFreed)
  {
    RunKeepsInv(Start(deadlineOk), es);
    LinksFrom(Start(deadlineOk), es);
  }

  /** The caller's wait is over, or about to be, without the waiter's report. */
  predicate GivesUp(s: State) {
    match s.caller
    case Relock(ret) => ret.TimedOut?
    case Test(ret) => ret.TimedOut?
    case CancelWaiter(ret) => ret.TimedOut?
    case JoinWaiter(ret) => ret.TimedOut?
    case Destroy(ret) => ret.TimedOut?
    case TimedJoined(ret) => ret.TimedOut?
    case CancelWorker | JoinWorker => true
    case Returned(_) => !s.joined && !s.worker.NoWorker?
    case Finished(_) => !s.joined && !s.worker.NoWorker?
    case _ => false
  }

  lemma CallerGivesUp(s: State, e: Step)
    requires WorkerInv(s) && RetInv(s) && JoinInv(s) && Enabled(s, e) && OfCaller(e) && GivesUp(Apply(s, e))
    ensures GivesUp(s) || e == TimeOut
  {
    match e
    case SetUpFails | CreateWorker | TakeMutex | CreateWaiter | EnterWait | DeadlineRefused | TimeOut | Spurious =>
    case Reacquire | ReadFlag | RequestWaiterCancel | ReapWaiter | DestroySync | ReadTimedJoin =>
    case RequestWorkerCancel | ReapWorker | Finish =>
  }

  lemma OtherDoesNotGiveUp(s: State, e: Step)
    requires WorkerInv(s) && Enabled(s, e) && !OfCaller(e) && GivesUp(Apply(s, e))
    ensures GivesUp(s)
  {
    match e
    case WaiterJoins | WaiterCanceled | WaiterLocks | WaiterSets | WaiterUnlocks | WaiterSignals =>
    case Allocate | ClientCreated(_) | LinkCreated(_) | ClientDestroyed | Exits | WorkerCanceled(_) =>
  }

  lemma {:induction false} GivesUpFrom(s: State, es: seq<Step>)
    requires Inv(s) && CanRun(s, es) && GivesUp(After(s, es))
    ensures GivesUp(s) || TimeOut in es
    decreases es
  {
    if es == [] {
    } else {
      StepKeepsInv(s, es[0]);
      GivesUpFrom(Apply(s, es[0]), es[1..]);
      if GivesUp(Apply(s, es[0])) {
        if OfCaller(es[0]) {
          CallerGivesUp(s, es[0]);
        } else {
          OtherDoesNotGiveUp(s, es[0]);
        }
      }
    }
  }

  lemma SetUpIsOver(s: State, e: Step)
    requires WorkerInv(s) && WaiterInv(s) && s.caller.Begin? && Enabled(s, e) && Apply(s, e).worker.NoWorker?
    ensures e == SetUpFails
  {}

  lemma {:induction false} NoWorkerFrom(s: State, es: seq<Step>)
    requires Inv(s) && CanRun(s, es) && After(s, es).worker.NoWorker?
    ensures After(s, es).caller.Begin? || s.caller.Returned? || s.caller.Finished? || SetUpFails in es
    decreases es
  {
    if es == [] {
    } else {
      StepKeepsInv(s, es[0]);
      NoWorkerLeavesNone(s, es);
      NoWorkerLeavesNone(Apply(s, es[0]), es[1..]);
      if s.caller.Begin? {
        SetUpIsOver(s, es[0]);
      }
      NoWorkerFrom(Apply(s, es[0]), es[1..]);
    }
  }

  /**
    A connect that returns -1 has a reason: its set-up failed, clnt_create or create_link_1
    failed, or the wait timed out.  A spurious wakeup is none.
   */
  lemma FailureHasAReason(deadlineOk: bool, es: seq<Step>)
    requires CanRun(Start(deadlineOk), es)
    ensures var s := After(Start(deadlineOk), es);
      (s.caller.Returned? || s.caller.Finished?) && s.caller.code == -1 ==>
        if s.worker.NoWorker? then SetUpFails in es
        else if s.joined then ClientCreated(false) in es || LinkCreated(false) in es
        else TimeOut in es
  {
    RunKeepsInv(Start(deadlineOk), es);
    var s := After(Start(deadlineOk), es);
    if s.worker.NoWorker? {
      NoWorkerFrom(Start(deadlineOk), es);
    } else if s.worker.WorkerEnded? {
      WorkerStatusIff(deadlineOk, es);
      if GivesUp(s) {
        GivesUpFrom(Start(deadlineOk), es);
      }
    }
  }

  // ---------- The status block ----------

  /** How many status blocks a run allocates; no step of any run frees one. */
  function StatusBlocks(es: seq<Step>): nat {
    if es == [] then 0 else (if es[0].Allocate? then 1 else 0) + StatusBlocks(es[1..])
  }

  predicate HasAllocated(k: Worker) { !k.NoWorker? && !k.Starting? }

  lemma StepAllocates(s: State, e: Step)
    requires WorkerInv(s) && Enabled(s, e)
    ensures HasAllocated(Apply(s, e).worker) == (HasAllocated(s.worker) || e.Allocate?)
    ensures e.Allocate? ==> !HasAllocated(s.worker)
  {
    match e
    case SetUpFails | CreateWorker | TakeMutex | CreateWaiter | EnterWait | DeadlineRefused | TimeOut | Spurious
       | Reacquire | ReadFlag | RequestWaiterCancel | ReapWaiter | DestroySync | ReadTimedJoin
       | RequestWorkerCancel | ReapWorker | Finish =>
    case WaiterJoins | WaiterCanceled | WaiterLocks | WaiterSets | WaiterUnlocks | WaiterSignals =>
    case Allocate | ClientCreated(_) | LinkCreated(_) | ClientDestroyed | Exits | WorkerCanceled(_) =>
  }

  lemma {:induction false} StatusBlocksFrom(s: State, es: seq<Step>)
    requires Inv(s) && CanRun(s, es)
    ensures (if HasAllocated(s.worker) then 1 else 0) + StatusBlocks(es) ==
            if HasAllocated(After(s, es).worker) then 1 else 0
    decreases es
  {
    if es == [] {
    } else {
      StepKeepsInv(s, es[0]);
      StepAllocates(s, es[0]);
      StatusBlocksFrom(Apply(s, es[0]), es[1..]);
    }
  }

  /** Every call that started its worker has leaked exactly one status block when it returns, and no other has. */
  lemma StatusBlockLeaksIff(deadlineOk: bool, es: seq<Step>)
    requires CanRun(Start(deadlineOk), es)
    ensures var s := After(Start(deadlineOk), es);
      s.caller.Returned? || s.caller.Finished? ==> StatusBlocks(es) == if s.worker.NoWorker? then 0 else 1
  {
    RunKeepsInv(Start(deadlineOk), es);
    StatusBlocksFrom(Start(deadlineOk), es);
  }

  // Runs shown step by step, in stretches that end in a named state.

  function WaitingState(): State {
    State(true, Waiting, Joining, Creating, Free, false, false, false, [], None, 0, false)
  }

  function TimedOutState(): State {
    State(true, CancelWaiter(TimedOut), Joining, Linking, CallerHolds, false, false, false, [], None, 1, false)
  }

  function WaiterReapedState(): State {
    State(true, Destroy(TimedOut), WaiterEnded(true), Linking, CallerHolds, false, true, false, [], None, 1, false)
  }

  function LateLinkState(): State {
    State(true, CancelWorker, WaiterEnded(true), WorkerEnded(Status(0)), Free, false, true, false, [], None, 1, false)
  }

  lemma ReachWaiting()
    ensures Reachable(Start(true), WaitingState())
  {
    assert CanRun(Start(true), []);
    var t := Extend(Start(true), Start(true), CreateWorker);
    t := Extend(Start(true), t, TakeMutex);
    t := Extend(Start(true), t, CreateWaiter);
    t := Extend(Start(true), t, EnterWait);
    t := Extend(Start(true), t, Allocate);
  }

  lemma ReachTimedOut()
    ensures Reachable(Start(true), TimedOutState())
  {
    ReachWaiting();
    var t := Extend(Start(true), WaitingState(), ClientCreated(true));
    t := Extend(Start(true), t, TimeOut);
    t := Extend(Start(true), t, Reacquire);
    t := Extend(Start(true), t, ReadFlag);
  }

  lemma ReachWaiterReaped()
    ensures Reachable(Start(true), WaiterReapedState())
  {
    ReachTimedOut();
    var t := Extend(Start(true), TimedOutState(), RequestWaiterCancel);
    t := Extend(Start(true), t, WaiterCanceled);
    t := Extend(Start(true), t, ReapWaiter);
  }

  /** A timeout can return -1 and leave the RPC client of an interrupted link behind. */
  lemma TimeoutCanLeakClient()
    ensures exists t :: Reachable(Start(true), t) && t.caller == Finished(-1) && t.clients == 1
                        && t.worker == WorkerEnded(Canceled)
  {
    ReachWaiterReaped();
    var t := Extend(Start(true), WaiterReapedState(), DestroySync);
    t := Extend(Start(true), t, ReadTimedJoin);
    t := Extend(Start(true), t, RequestWorkerCancel);
    t := Extend(Start(true), t, WorkerCanceled(false));
    t := Extend(Start(true), t, ReapWorker);
    t := Extend(Start(true), t, Finish);
  }

  lemma ReachLateLink()
    ensures Reachable(Start(true), LateLinkState())
  {
    ReachWaiterReaped();
    var t := Extend(Start(true), WaiterReapedState(), LinkCreated(true));
    t := Extend(Start(true), t, Exits);
    t := Extend(Start(true), t, DestroySync);
    t := Extend(Start(true), t, ReadTimedJoin);
  }

  /** A link that succeeds between the timeout and the cancellation: -1 is returned and the client is left. */
  lemma LateLinkLeaksClient()
    ensures exists es :: CanRun(Start(true), es) && LinkCreated(true) in es
                         && var t := After(Start(true), es); t.caller == Finished(-1) && t.clients == 1
  {
    ReachLateLink();
    var t := Extend(Start(true), LateLinkState(), RequestWorkerCancel);
    t := Extend(Start(true), t, ReapWorker);
    t := Extend(Start(true), t, Finish);
    var es :| CanRun(Start(true), es) && After(Start(true), es) == t;
    WorkerStatusIff(true, es);
  }

  // ---------- Progress ----------

  predicate Final(s: State) { s.caller.Finished? }

  /** The caller joins the waiter with the mutex held, and the waiter needs that mutex. */
  predicate Deadlocked(s: State) {
    s.caller.JoinWaiter? && s.mutex.CallerHolds? && s.waiter.Locking?
  }

  /**
    The wait has timed out and the mutex is taken again while the waiter, which has
    already joined the worker, still needs it: the guard of the fatal branch.
   */
  predicate Doomed(s: State) {
    s.waiter.Locking? && (s.caller == Test(TimedOut) || s.caller.CancelWaiter? || s.caller.JoinWaiter?)
  }

  /** The next step of a schedule that ends the run. */
  function Choose(s: State): (e: Step) {
    match s.worker
    case Starting => Allocate
    case Creating => ClientCreated(false)
    case Linking => LinkCreated(false)
    case Destroying => ClientDestroyed
    case Exiting(_) => Exits
    case _ =>
      match s.waiter
      case Setting => WaiterSets
      case Unlocking => WaiterUnlocks
      case Signalling => WaiterSignals
      case Locking => if s.mutex.Free? then WaiterLocks else CallerStep(s)
      case Joining =>
        if s.caller.Waiting? || s.caller.Relock? then WaiterJoins
        else if s.waiterCancel then WaiterCanceled
        else CallerStep(s)
      case _ => CallerStep(s)
  }

  function CallerStep(s: State): Step {
    match s.caller
    case Begin => SetUpFails
    case Lock => TakeMutex
    case SpawnWaiter => CreateWaiter
    case CallWait => if s.deadlineOk then EnterWait else DeadlineRefused
    case Waiting => TimeOut
    case Relock(_) => Reacquire
    case Test(_) => ReadFlag
    case CancelWaiter(_) => RequestWaiterCancel
    case JoinWaiter(_) => ReapWaiter
    case Destroy(_) => DestroySync
    case TimedJoined(_) => ReadTimedJoin
    case CancelWorker => RequestWorkerCancel
    case JoinWorker => ReapWorker
    case Returned(_) | Finished(_) => Finish
  }

  lemma ChooseIsEnabled(s: State)
    requires Inv(s) && !Final(s) && !Deadlocked(s)
    ensures Enabled(s, Choose(s))
  {}

  lemma DeadlockedIsStuck(s: State, e: Step)
    requires Inv(s) && Deadlocked(s)
    ensures !Enabled(s, e)
  {}

  /** In every reachable unfinished state: no step is enabled iff the state is the deadlock. */
  lemma StuckIffDeadlocked(deadlineOk: bool, es: seq<Step>)
    requires CanRun(Start(deadlineOk), es) && !Final(After(Start(deadlineOk), es))
    ensures var s := After(Start(deadlineOk), es);
      (forall e :: !Enabled(s, e)) <==> Deadlocked(s)
  {
    RunKeepsInv(Start(deadlineOk), es);
    var s := After(Start(deadlineOk), es);
    if Deadlocked(s) {
      forall e ensures !Enabled(s, e) {
        DeadlockedIsStuck(s, e);
      }
    } else {
      ChooseIsEnabled(s);
    }
  }

  // ---------- The measure ----------

  function CallerRank(s: State): nat {
    match s.caller
    case Begin => 18
    case Lock => 17
    case SpawnWaiter => 16
    case CallWait => 12
    case Waiting => 11
    case Relock(r) => if r.Woken? && !s.joined then 14 else 10
    case Test(r) => if r.Woken? && !s.joined then 13 else 9
    case CancelWaiter(_) => 8
    case JoinWaiter(_) => 7
    case Destroy(_) => 6
    case TimedJoined(_) => 5
    case CancelWorker => 4
    case JoinWorker => 3
    case Returned(_) => 1
    case Finished(_) => 0
  }

  function WaiterRank(w: Waiter): nat {
    match w
    case NoWaiter => 6
    case Joining => 5
    case Locking => 4
    case Setting => 3
    case Unlocking => 2
    case Signalling => 1
    case WaiterEnded(_) => 0
  }

  function WorkerRank(k: Worker): nat {
    match k
    case NoWorker => 6
    case Starting => 5
    case Creating => 4
    case Linking => 3
    case Destroying => 2
    case Exiting(_) => 1
    case WorkerEnded(_) => 0
  }

  function Rank(s: State): nat { CallerRank(s) + WaiterRank(s.waiter) + WorkerRank(s.worker) }

  function SpuriousIn(es: seq<Step>): nat {
    if es == [] then 0 else (if es[0].Spurious? then 1 else 0) + SpuriousIn(es[1..])
  }

  lemma CallerLowersRank(s: State, e: Step)
    requires WaiterInv(s) && WorkerInv(s) && FlagInv(s) && RetInv(s) && s.deadlineOk && Enabled(s, e) && OfCaller(e)
    ensures Rank(Apply(s, e)) < Rank(s) + (if e.Spurious? then 4 else 0)
  {
    match e
    case SetUpFails | CreateWorker | TakeMutex | CreateWaiter | EnterWait | DeadlineRefused | TimeOut =>
    case Spurious | Reacquire | ReadFlag | RequestWaiterCancel | ReapWaiter | DestroySync | ReadTimedJoin =>
    case RequestWorkerCancel | ReapWorker | Finish =>
    case _ => assert false;
  }

  lemma OtherLowersRank(s: State, e: Step)
    requires Inv(s) && s.deadlineOk && Enabled(s, e) && !OfCaller(e)
    ensures Rank(Apply(s, e)) < Rank(s)
  {}

  lemma StepLowersRank(s: State, e: Step)
    requires Inv(s) && s.deadlineOk && Enabled(s, e)
    ensures Rank(Apply(s, e)) < Rank(s) + (if e.Spurious? then 4 else 0)
  {
    if OfCaller(e) {
      CallerLowersRank(s, e);
    } else {
      OtherLowersRank(s, e);
    }
  }

  lemma {:induction false} RunIsBounded(s: State, es: seq<Step>)
    requires Inv(s) && s.deadlineOk && CanRun(s, es)
    ensures |es| + Rank(After(s, es)) <= Rank(s) + 4 * SpuriousIn(es)
    decreases es
  {
    if es == [] {
    } else {
      StepKeepsInv(s, es[0]);
      StepLowersRank(s, es[0]);
      RunIsBounded(Apply(s, es[0]), es[1..]);
    }
  }

  /**
    With a valid deadline a run takes at most 30 steps, and four more for each
    spurious wakeup: only endlessly many spurious wakeups can keep it going.
   */
  lemma RunsAreShort(es: seq<Step>)
    requires CanRun(Start(true), es)
    ensures |es| <= 30 + 4 * SpuriousIn(es)
  {
    RunIsBounded(Start(true), es);
  }

  // ---------- When the call can still return ----------

  /** The call will never return: it is doomed, or it spins on a deadline that every wait refuses. */
  predicate Lost(s: State) {
    Doomed(s) || (!s.deadlineOk && !s.worker.NoWorker?)
  }

  lemma LostHasNotReturned(s: State)
    requires Inv(s) && Lost(s)
    ensures !s.caller.Returned? && !Final(s)
  {}

  lemma DoomedStep(s: State, e: Step)
    requires Inv(s) && Doomed(s) && Enabled(s, e)
    ensures Doomed(Apply(s, e))
  {}

  lemma StepKeepsLost(s: State, e: Step)
    requires Inv(s) && Lost(s) && Enabled(s, e)
    ensures Lost(Apply(s, e))
  {
    if Doomed(s) {
      DoomedStep(s, e);
    } else if Apply(s, e).worker.NoWorker? {
      WorkerIsNotUndone(s, e);
    }
  }

  lemma {:induction false} LostForever(s: State, es: seq<Step>)
    requires Inv(s) && Lost(s) && CanRun(s, es)
    ensures Lost(After(s, es)) && !Final(After(s, es))
    decreases es
  {
    if es == [] {
      LostHasNotReturned(s);
    } else {
      StepKeepsInv(s, es[0]);
      StepKeepsLost(s, es[0]);
      LostForever(Apply(s, es[0]), es[1..]);
    }
  }

  lemma ChooseAvoidsDoom(s: State)
    requires Inv(s) && s.deadlineOk && !Final(s) && !Doomed(s)
    ensures Enabled(s, Choose(s)) && !Doomed(Apply(s, Choose(s))) && !Choose(s).Spurious?
    ensures !s.caller.Returned? ==> !Choose(s).Finish? && !Final(Apply(s, Choose(s)))
  {}

  /** A run that lets `vxi11_connect` return. */
  lemma {:induction false} EscapeExists(s: State) returns (es: seq<Step>)
    requires Inv(s) && !Lost(s) && !Final(s)
    ensures CanRun(s, es) && After(s, es).caller.Returned? && Finish !in es
    decreases Rank(s)
  {
    if s.caller.Returned? {
      es := [];
    } else if !s.deadlineOk {
      es := [SetUpFails];
      assert es[1..] == [];
    } else {
      var e := Choose(s);
      ChooseAvoidsDoom(s);
      StepKeepsInv(s, e);
      StepLowersRank(s, e);
      var rest := EscapeExists(Apply(s, e));
      es := [e] + rest;
      assert es[1..] == rest;
    }
  }

  ghost predicate CanFinish(s: State) {
    exists es :: CanRun(s, es) && Final(After(s, es))
  }

  /** A reachable state can still finish if and only if it is not lost. */
  lemma {:induction false} CanFinishIffNotLost(deadlineOk: bool, es: seq<Step>)
    requires CanRun(Start(deadlineOk), es)
    ensures CanFinish(After(Start(deadlineOk), es)) <==> !Lost(After(Start(deadlineOk), es))
  {
    RunKeepsInv(Start(deadlineOk), es);
    var s := After(Start(deadlineOk), es);
    if Lost(s) {
      forall more | CanRun(s, more) ensures !Final(After(s, more)) {
        LostForever(s, more);
      }
    } else if Final(s) {
      assert CanRun(s, []);
    } else {
      var more := EscapeExists(s);
      Append(s, more, Finish);
    }
  }

  function PastJoinState(): State {
    State(true, Waiting, Locking, WorkerEnded(Status(-1)), Free, false, false, false,
          [ByWaiter], Some(Status(-1)), 0, false)
  }

  function DeadlockState(): State {
    PastJoinState().(caller := JoinWaiter(TimedOut), mutex := CallerHolds, waiterCancel := true)
  }

  lemma ReachPastJoin()
    ensures Reachable(Start(true), PastJoinState())
  {
    ReachWaiting();
    var t := Extend(Start(true), WaitingState(), ClientCreated(false));
    t := Extend(Start(true), t, Exits);
    t := Extend(Start(true), t, WaiterJoins);
  }

  /** The deadlock is reachable: a timeout just after the waiter has joined the worker. */
  lemma DeadlockIsReachable()
    ensures Reachable(Start(true), DeadlockState()) && Deadlocked(DeadlockState())
  {
    ReachPastJoin();
    var t := Extend(Start(true), PastJoinState(), TimeOut);
    t := Extend(Start(true), t, Reacquire);
    t := Extend(Start(true), t, ReadFlag);
    t := Extend(Start(true), t, RequestWaiterCancel);
  }

  /**
    With an invalid deadline, once the worker is started the call never returns:
    every wait is refused with the mutex held, so `joined` can never be set.
   */
  lemma InvalidDeadlineNeverReturns(es: seq<Step>)
    requires CanRun(Start(false), es)
    ensures var s := After(Start(false), es);
      !s.worker.NoWorker? ==>
        && !s.joined
        && (s.caller.Lock? || s.caller.SpawnWaiter? || s.caller.CallWait? || s.caller == Test(Invalid))
        && Enabled(s, CallerStep(s))
  {
    RunKeepsInv(Start(false), es);
  }

  /** A negative timeout whose fraction of a second exceeds the clock's makes `vxi11_connect` spin for ever. */
  lemma NegativeTimeoutSpins(now: Deadline.Timespec, timeout: int, deadlineOk: bool, es: seq<Step>)
    requires now.Valid() && deadlineOk == Deadline.AbsoluteDeadline(now, timeout).Valid()
    requires timeout < 0 && (-timeout) % 1000 * Deadline.NANOS_PER_MILLI > now.nsec
    requires CanRun(Start(deadlineOk), es)
    ensures var s := After(Start(deadlineOk), es);
      !s.worker.NoWorker? ==> !s.caller.Returned? && !Final(s)
  {
    Deadline.DeadlineIsExact(now, timeout);
    InvalidDeadlineNeverReturns(es);
  }
}
