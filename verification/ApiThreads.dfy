/**
  The whole API with any number of threads, in which the connect of the VXI-11 backend
  is not one step but the three-thread protocol of module TimedConnect.  lxi_connect
  calls it with the session mutex held, so a connect that is stuck holds up everybody.
 */
module ApiThreads {
  import opened Common
  import opened Sessions
  import Lib = SessionThreads
  import Link = TimedConnect

  /** The library, and the connect protocols that are under way. */
  datatype State = State(lib: Lib.State, links: map<Lib.Tid, Link.State>)

  datatype Step =
    | Library(l: Lib.Step, deadlineOk: bool)  // a VXI-11 connect started by the step has this deadline
    | Connecting(t: Lib.Tid, c: Link.Step)

  function Start(): State { State(Lib.Start(), map[]) }

  predicate InVxi11(pc: Lib.Pc) { pc.Dialling? && pc.protocol.VXI11? }

  /** The VXI-11 backend returns what `vxi11_connect` returns; the TCP backend returns whenever it likes. */
  predicate Enabled(s: State, e: Step) {
    match e
    case Library(l, _) =>
      && Lib.Enabled(s.lib, l)
      && (l.a.Dial? && InVxi11(Lib.At(s.lib, l.t)) ==>
            l.t in s.links && s.links[l.t].caller == Link.Returned(l.a.status))
    case Connecting(t, c) => t in s.links && !c.Finish? && Link.Enabled(s.links[t], c)
  }

  function LinksAfter(s: State, e: Lib.Step, lib: Lib.State, deadlineOk: bool): map<Lib.Tid, Link.State> {
    if e.a.SetUpSlot? && InVxi11(Lib.At(lib, e.t)) then s.links[e.t := Link.Start(deadlineOk)]
    else if e.a.Dial? then s.links - {e.t}
    else s.links
  }

  function Apply(s: State, e: Step): (s': State)
    requires |s.lib.table.slots| == SESSIONS_MAX && Enabled(s, e)
    ensures |s'.lib.table.slots| == SESSIONS_MAX
  {
    match e
    case Library(l, deadlineOk) =>
      var lib := Lib.Apply(s.lib, l);
      State(lib, LinksAfter(s, l, lib, deadlineOk))
    case Connecting(t, c) => s.(links := s.links[t := Link.Apply(s.links[t], c)])
  }

  /** The client's duty is to the library; see SessionThreads. */
  predicate Dutiful(s: State, e: Step)
    requires |s.lib.table.slots| == SESSIONS_MAX
  {
    e.Library? ==> Lib.Dutiful(s.lib, e.l)
  }

  predicate CanRun(s: State, es: seq<Step>)
    requires |s.lib.table.slots| == SESSIONS_MAX
    decreases es
  {
    es == [] || (Enabled(s, es[0]) && Dutiful(s, es[0]) && CanRun(Apply(s, es[0]), es[1..]))
  }

  function After(s: State, es: seq<Step>): (s': State)
    requires |s.lib.table.slots| == SESSIONS_MAX && CanRun(s, es)
    ensures |s'.lib.table.slots| == SESSIONS_MAX
    decreases es
  {
    if es == [] then s else After(Apply(s, es[0]), es[1..])
  }

  // ---------- The invariant ----------

  ghost predicate LinkInv(s: State) {
    && (forall t: Lib.Tid :: t in s.links <==> InVxi11(Lib.At(s.lib, t)))
    && (forall t | t in s.links :: Link.Inv(s.links[t]) && !Link.Final(s.links[t]))
  }

  ghost predicate Inv(s: State) { Lib.Inv(s.lib) && LinkInv(s) }

  lemma LibraryStepKeepsInv(s: State, l: Lib.Step, deadlineOk: bool)
    requires Inv(s) && Enabled(s, Library(l, deadlineOk)) && Lib.Dutiful(s.lib, l)
    ensures Inv(Apply(s, Library(l, deadlineOk)))
  {
    Lib.StepKeepsInv(s.lib, l);
    var s' := Apply(s, Library(l, deadlineOk));
    forall t: Lib.Tid ensures t in s'.links <==> InVxi11(Lib.At(s'.lib, t)) {
      LinkOfThread(s, l, deadlineOk, t);
    }
    forall t | t in s'.links ensures Link.Inv(s'.links[t]) && !Link.Final(s'.links[t]) {
      LinkStaysGood(s, l, deadlineOk, t);
    }
  }

  lemma LinkStaysGood(s: State, l: Lib.Step, deadlineOk: bool, t: Lib.Tid)
    requires |s.lib.table.slots| == SESSIONS_MAX && LinkInv(s) && Enabled(s, Library(l, deadlineOk))
    requires t in Apply(s, Library(l, deadlineOk)).links
    ensures var c := Apply(s, Library(l, deadlineOk)).links[t];
      Link.Inv(c) && !Link.Final(c)
  {}

  lemma LinkOfThread(s: State, l: Lib.Step, deadlineOk: bool, t: Lib.Tid)
    requires |s.lib.table.slots| == SESSIONS_MAX && LinkInv(s) && Enabled(s, Library(l, deadlineOk))
    ensures var s' := Apply(s, Library(l, deadlineOk));
      t in s'.links <==> InVxi11(Lib.At(s'.lib, t))
  {
    assert t in s.links <==> InVxi11(Lib.At(s.lib, t));
    if t == l.t {
      OwnLink(s, l, deadlineOk);
    } else {
      Lib.OthersStayPut(s.lib, l, t);
    }
  }

  /** A thread's connect protocol lasts exactly from the set-up of its slot to the return of its connect. */
  lemma OwnLink(s: State, l: Lib.Step, deadlineOk: bool)
    requires |s.lib.table.slots| == SESSIONS_MAX && Enabled(s, Library(l, deadlineOk))
    requires l.t in s.links <==> InVxi11(Lib.At(s.lib, l.t))
    ensures var s' := Apply(s, Library(l, deadlineOk));
      l.t in s'.links <==> InVxi11(Lib.At(s'.lib, l.t))
  {}

  lemma {:induction false} StepKeepsInv(s: State, e: Step)
    requires Inv(s) && Enabled(s, e) && Dutiful(s, e)
    ensures Inv(Apply(s, e))
  {
    match e
    case Library(l, deadlineOk) => LibraryStepKeepsInv(s, l, deadlineOk);
    case Connecting(t, c) =>
      Link.StepKeepsInv(s.links[t], c);
      Link.OnlyFinishFinishes(s.links[t], c);
  }

  lemma {:induction false} RunKeepsInv(s: State, es: seq<Step>)
    requires Inv(s) && CanRun(s, es)
    ensures Inv(After(s, es))
    decreases es
  {
    if es == [] {
    } else {
      StepKeepsInv(s, es[0]);
      RunKeepsInv(Apply(s, es[0]), es[1..]);
    }
  }

  lemma {:induction false} StartIsGood()
    ensures Inv(Start())
  {
    Lib.StartIsGood();
  }

  // ---------- What carries over ----------

  /** The library's own steps in a run. */
  function LibrarySteps(es: seq<Step>): seq<Lib.Step> {
    if es == [] then []
    else (if es[0].Library? then [es[0].l] else []) + LibrarySteps(es[1..])
  }

  /** Every run is a run of the library, so everything proved of the library's runs holds of it. */
  lemma {:induction false} RunProjects(s: State, es: seq<Step>)
    requires |s.lib.table.slots| == SESSIONS_MAX && CanRun(s, es)
    ensures Lib.CanRun(s.lib, LibrarySteps(es)) && Lib.After(s.lib, LibrarySteps(es)) == After(s, es).lib
    decreases es
  {
    if es == [] {
    } else {
      RunProjects(Apply(s, es[0]), es[1..]);
      if es[0].Library? {
        assert LibrarySteps(es)[0] == es[0].l && LibrarySteps(es)[1..] == LibrarySteps(es[1..]);
      } else {
        assert LibrarySteps(es) == LibrarySteps(es[1..]);
      }
    }
  }

  /** When a VXI-11 connect returns to lxi_connect, which may then free the block, no helper thread is left. */
  lemma NoHelperOutlivesConnect(es: seq<Step>, t: Lib.Tid, status: int, deadlineOk: bool)
    requires CanRun(Start(), es) && Enabled(After(Start(), es), Library(Lib.Step(t, Lib.Dial(status)), deadlineOk))
    requires InVxi11(Lib.At(After(Start(), es).lib, t))
    ensures var c := After(Start(), es).links[t];
      && (c.worker.NoWorker? || c.worker.WorkerEnded?) && (c.waiter.NoWaiter? || c.waiter.WaiterEnded?)
      && forall e | Link.Enabled(c, e) :: e.Finish?
  {
    StartIsGood();
    RunKeepsInv(Start(), es);
    var c := After(Start(), es).links[t];
    forall e | Link.Enabled(c, e) ensures e.Finish? {
      Link.ReturnedIsQuiet(c, e);
    }
  }

  // ---------- What a VXI-11 connect answers ----------

  /** One connect of the VXI-11 backend, from its beginning. */
  datatype Attempt = Attempt(deadlineOk: bool, steps: seq<Link.Step>)

  function Record(a: Attempt, e: Step, t: Lib.Tid): Attempt {
    match e
    case Library(l, deadlineOk) => if l.t == t && l.a.SetUpSlot? then Attempt(deadlineOk, []) else a
    case Connecting(u, c) => if u == t then a.(steps := a.steps + [c]) else a
  }

  /** The latest connect of a thread in a run. */
  function Latest(a: Attempt, es: seq<Step>, t: Lib.Tid): Attempt
    decreases es
  {
    if es == [] then a else Latest(Record(a, es[0], t), es[1..], t)
  }

  predicate LeadsTo(a: Attempt, c: Link.State) {
    Link.CanRun(Link.Start(a.deadlineOk), a.steps) && Link.After(Link.Start(a.deadlineOk), a.steps) == c
  }

  /** The connect in progress is the latest one, and what the library was told it returned, it did return. */
  predicate Recorded(s: State, phase: Lib.Phase, a: Attempt, t: Lib.Tid) {
    && (t in s.links ==> LeadsTo(a, s.links[t]))
    && (ToldVxi11(phase) ==>
          && Link.CanRun(Link.Start(a.deadlineOk), a.steps)
          && Link.After(Link.Start(a.deadlineOk), a.steps).caller == Link.Returned(phase.dialled.value))
  }

  predicate ToldVxi11(phase: Lib.Phase) {
    phase.Busy? && phase.call == Lib.Connect(VXI11) && phase.dialled.Some?
  }

  lemma ConnectingIsRecorded(s: State, u: Lib.Tid, c: Link.Step, phase: Lib.Phase, a: Attempt, t: Lib.Tid)
    requires Inv(s) && Enabled(s, Connecting(u, c)) && Lib.Stands(Lib.At(s.lib, t), phase) && Recorded(s, phase, a, t)
    ensures Recorded(Apply(s, Connecting(u, c)), phase, Record(a, Connecting(u, c), t), t)
  {
    if u == t {
      Link.Append(Link.Start(a.deadlineOk), a.steps, c);
      assert InVxi11(Lib.At(s.lib, t));
    }
  }

  lemma OwnStepIsRecorded(s: State, l: Lib.Step, deadlineOk: bool, phase: Lib.Phase, a: Attempt)
    requires Inv(s) && Enabled(s, Library(l, deadlineOk)) && Lib.Stands(Lib.At(s.lib, l.t), phase)
    requires Recorded(s, phase, a, l.t)
    ensures Recorded(Apply(s, Library(l, deadlineOk)), Lib.StepPhase(s.lib, l, phase),
                     Record(a, Library(l, deadlineOk), l.t), l.t)
  {
    assert l.t in s.links <==> InVxi11(Lib.At(s.lib, l.t));
    if l.a.SetUpSlot? {
      SetUpTellsNothing(s.lib, l, phase);
    } else if l.a.Dial? {
    } else {
      OnlyDialTells(s.lib, l, phase);
    }
  }

  lemma SetUpTellsNothing(lib: Lib.State, l: Lib.Step, phase: Lib.Phase)
    requires |lib.table.slots| == SESSIONS_MAX && Lib.Enabled(lib, l) && l.a.SetUpSlot?
    requires Lib.Stands(Lib.At(lib, l.t), phase)
    ensures !ToldVxi11(Lib.StepPhase(lib, l, phase))
  {}

  lemma OnlyDialTells(lib: Lib.State, l: Lib.Step, phase: Lib.Phase)
    requires |lib.table.slots| == SESSIONS_MAX && Lib.Enabled(lib, l) && !l.a.Dial? && !l.a.SetUpSlot?
    ensures var after := Lib.StepPhase(lib, l, phase);
      ToldVxi11(after) ==> ToldVxi11(phase) && phase.dialled == after.dialled
  {}

  lemma LibraryIsRecorded(s: State, l: Lib.Step, deadlineOk: bool, phase: Lib.Phase, a: Attempt, t: Lib.Tid)
    requires Inv(s) && Enabled(s, Library(l, deadlineOk)) && Lib.Stands(Lib.At(s.lib, t), phase)
    requires Recorded(s, phase, a, t)
    ensures Recorded(Apply(s, Library(l, deadlineOk)), Lib.Follow(phase, Lib.StepLog(s.lib, l), t),
                     Record(a, Library(l, deadlineOk), t), t)
  {
    Lib.FollowStep(s.lib, l, phase, t);
    if l.t == t {
      OwnStepIsRecorded(s, l, deadlineOk, phase, a);
    }
  }

  lemma {:induction false} RunIsRecorded(s: State, es: seq<Step>, phase: Lib.Phase, a: Attempt, t: Lib.Tid)
    requires Inv(s) && CanRun(s, es) && Lib.Stands(Lib.At(s.lib, t), phase) && Recorded(s, phase, a, t)
    ensures Lib.CanRun(s.lib, LibrarySteps(es))
    ensures Recorded(After(s, es), Lib.Follow(phase, Lib.Log(s.lib, LibrarySteps(es)), t), Latest(a, es, t), t)
    decreases es
  {
    RunProjects(s, es);
    if es == [] {
    } else {
      StepKeepsInv(s, es[0]);
      RunProjects(Apply(s, es[0]), es[1..]);
      match es[0]
      case Library(l, deadlineOk) =>
        var steps, more := LibrarySteps(es), LibrarySteps(es[1..]);
        assert steps[0] == l && steps[1..] == more;
        LibraryIsRecorded(s, l, deadlineOk, phase, a, t);
        Lib.LogKeepsStanding(s.lib, l, phase, t);
        Lib.FollowJoins(phase, Lib.StepLog(s.lib, l), Lib.Log(Apply(s, es[0]).lib, more), t);
        RunIsRecorded(Apply(s, es[0]), es[1..], Lib.Follow(phase, Lib.StepLog(s.lib, l), t), Record(a, es[0], t), t);
      case Connecting(u, c) =>
        assert LibrarySteps(es) == LibrarySteps(es[1..]);
        ConnectingIsRecorded(s, u, c, phase, a, t);
        RunIsRecorded(Apply(s, es[0]), es[1..], phase, Record(a, es[0], t), t);
    }
  }

  /** Every connect in progress is a run of its protocol, so everything proved of those runs holds of it. */
  lemma ConnectProjects(es: seq<Step>, t: Lib.Tid)
    requires CanRun(Start(), es) && t in After(Start(), es).links
    ensures LeadsTo(Latest(Attempt(true, []), es, t), After(Start(), es).links[t])
  {
    StartIsGood();
    RunIsRecorded(Start(), es, Lib.Quiet, Attempt(true, []), t);
  }

  /**
    What a thread is told of its VXI-11 connect.  It is about to be given a handle if and
    only if the worker was joined by the waiter and create_link_1 had succeeded, and about
    to be told of a failed backend if and only if not; the protocol had returned in either case.
   */
  lemma Vxi11AnswerIsTrue(es: seq<Step>, t: Lib.Tid)
    requires CanRun(Start(), es) && Lib.CanRun(Lib.Start(), LibrarySteps(es))
    ensures var pc := Lib.At(After(Start(), es).lib, t);
      var phase := Lib.Follow(Lib.Quiet, Lib.Log(Lib.Start(), LibrarySteps(es)), t);
      var a := Latest(Attempt(true, []), es, t);
      pc.Leaving? && phase.Busy? && phase.call == Lib.Connect(VXI11)
      && pc.answer.ConnectDone? && (pc.answer.result.Connected? || pc.answer.result.BackendFailed?) ==>
        && Link.CanRun(Link.Start(a.deadlineOk), a.steps)
        && var c := Link.After(Link.Start(a.deadlineOk), a.steps);
           && c.caller.Returned?
           && (pc.answer.result.Connected? <==> c.joined && Link.LinkCreated(true) in a.steps)
  {
    StartIsGood();
    RunProjects(Start(), es);
    RunIsRecorded(Start(), es, Lib.Quiet, Attempt(true, []), t);
    Lib.RunStands(Lib.Start(), LibrarySteps(es), Lib.Quiet, t);
    var phase := Lib.Follow(Lib.Quiet, Lib.Log(Lib.Start(), LibrarySteps(es)), t);
    var a := Latest(Attempt(true, []), es, t);
    if ToldVxi11(phase) {
      Link.ReturnsZeroIffLinked(a.deadlineOk, a.steps);
    }
  }

  // ---------- Progress ----------

  /** A step inside the library or inside a connect, not one of the client's. */
  predicate IsInside(e: Step) { e.Connecting? || !Lib.IsCall(e.l.a) }

  ghost predicate CanStep(s: State) {
    exists e :: Enabled(s, e) && IsInside(e)
  }

  /** A VXI-11 connect is deadlocked, and everybody else waits for the session mutex it holds. */
  ghost predicate StuckBy(s: State, d: Lib.Tid) {
    Lib.HeldUpBy(s.lib, d) && d in s.links && Link.Deadlocked(s.links[d])
  }

  lemma HeldUpCanStep(s: State, d: Lib.Tid)
    requires Inv(s) && Lib.HeldUpBy(s.lib, d) && !StuckBy(s, d)
    ensures CanStep(s)
  {
    if InVxi11(Lib.At(s.lib, d)) {
      assert d in s.links;
      var c := s.links[d];
      if c.caller.Returned? {
        assert Enabled(s, Library(Lib.Step(d, Lib.Dial(c.caller.code)), true));
      } else {
        Link.ChooseIsEnabled(c);
        assert Enabled(s, Connecting(d, Link.Choose(c)));
      }
    } else {
      assert Enabled(s, Library(Lib.Step(d, Lib.Dial(0)), true));
    }
  }

  /** Only the thread that holds the session mutex is connecting. */
  lemma OnlyHolderConnects(s: State, t: Lib.Tid)
    requires Inv(s) && t in s.links
    ensures s.lib.mutex == Some(t) && Lib.At(s.lib, t).Dialling?
  {
    assert Lib.Critical(Lib.At(s.lib, t)) <==> s.lib.mutex == Some(t);
  }

  lemma StuckCannotStep(s: State, d: Lib.Tid, e: Step)
    requires Inv(s) && StuckBy(s, d) && Enabled(s, e)
    ensures !IsInside(e)
  {
    match e
    case Library(l, _) => Lib.HeldUpCannotStep(s.lib, d, l);
    case Connecting(t, c) =>
      OnlyHolderConnects(s, t);
      Link.DeadlockedIsStuck(s.links[d], c);
  }

  /**
    While some thread is inside the library, some step inside it is possible if and only
    if it is not the case that a deadlocked VXI-11 connect holds the session mutex and
    every other thread inside waits for that mutex.
   */
  lemma CanStepUnlessStuck(es: seq<Step>, t: Lib.Tid)
    requires CanRun(Start(), es) && !Lib.At(After(Start(), es).lib, t).Idle?
    ensures CanStep(After(Start(), es)) <==> !exists d :: StuckBy(After(Start(), es), d)
  {
    StartIsGood();
    RunKeepsInv(Start(), es);
    var s := After(Start(), es);
    if d :| StuckBy(s, d) {
      forall e | Enabled(s, e) ensures !IsInside(e) {
        StuckCannotStep(s, d, e);
      }
    } else if d :| Lib.HeldUpBy(s.lib, d) {
      HeldUpCanStep(s, d);
    } else {
      Lib.StateCanStepUnlessHeldUp(s.lib, t);
      var l :| Lib.Enabled(s.lib, l) && !Lib.IsCall(l.a) && !l.a.Dial?;
      assert Enabled(s, Library(l, true));
    }
  }

  // ---------- A lost connect freezes the API ----------

  /** What a lost connect does to everybody: s' is a later state. */
  predicate Frozen(s: State, d: Lib.Tid, u: Lib.Tid, s': State) {
    && s'.lib.table == s.lib.table && s'.lib.mutex == Some(d)
    && Lib.At(s'.lib, d) == Lib.At(s.lib, d)
    && d in s'.links && Link.Lost(s'.links[d])
    && (Lib.WaitsForMutex(Lib.At(s.lib, u)) ==> Lib.At(s'.lib, u) == Lib.At(s.lib, u))
  }

  lemma LostFreezesStep(s: State, e: Step, d: Lib.Tid, u: Lib.Tid)
    requires Inv(s) && d in s.links && Link.Lost(s.links[d]) && Enabled(s, e)
    ensures Frozen(s, d, u, Apply(s, e))
  {
    OnlyHolderConnects(s, d);
    match e
    case Connecting(t, c) =>
      OnlyHolderConnects(s, t);
      Link.StepKeepsLost(s.links[d], c);
    case Library(l, _) =>
      Link.LostHasNotReturned(s.links[d]);
      LibraryStepIsNotHolders(s, l, d);
      Lib.OthersWhileDialling(s.lib, d, l);
      if u != l.t {
        Lib.OthersStayPut(s.lib, l, u);
      }
  }

  lemma LibraryStepIsNotHolders(s: State, l: Lib.Step, d: Lib.Tid)
    requires Inv(s) && d in s.links && !s.links[d].caller.Returned? && Enabled(s, Library(l, true))
    ensures l.t != d
  {
    assert InVxi11(Lib.At(s.lib, d));
  }

  /**
    From a state in which a VXI-11 connect is lost, in every continuation: the session
    mutex is never released, the table never changes, and every thread that waits for the
    mutex in a connect, disconnect or validation waits for ever.
   */
  lemma {:induction false} LostConnectFreezesApi(s: State, es: seq<Step>, d: Lib.Tid, u: Lib.Tid)
    requires Inv(s) && d in s.links && Link.Lost(s.links[d]) && CanRun(s, es)
    ensures Frozen(s, d, u, After(s, es))
    decreases es
  {
    if es == [] {
      OnlyHolderConnects(s, d);
    } else {
      StepKeepsInv(s, es[0]);
      LostFreezesStep(s, es[0], d, u);
      LostConnectFreezesApi(Apply(s, es[0]), es[1..], d, u);
    }
  }

  /** Steps of one connect. */
  function Lift(d: Lib.Tid, cs: seq<Link.Step>): seq<Step> {
    if cs == [] then [] else [Connecting(d, cs[0])] + Lift(d, cs[1..])
  }

  lemma {:induction false} LiftRuns(s: State, d: Lib.Tid, cs: seq<Link.Step>)
    requires |s.lib.table.slots| == SESSIONS_MAX && d in s.links
    requires Link.CanRun(s.links[d], cs) && Link.Finish !in cs
    ensures CanRun(s, Lift(d, cs))
    ensures After(s, Lift(d, cs)) == s.(links := s.links[d := Link.After(s.links[d], cs)])
    decreases cs
  {
    if cs == [] {
      assert s.links[d := s.links[d]] == s.links;
    } else {
      var c := Link.Apply(s.links[d], cs[0]);
      var s' := s.(links := s.links[d := c]);
      assert Lift(d, cs)[1..] == Lift(d, cs[1..]);
      LiftRuns(s', d, cs[1..]);
      assert s'.links[d := Link.After(c, cs[1..])] == s.links[d := Link.After(c, cs[1..])];
    }
  }

  lemma {:induction false} Append(s: State, es: seq<Step>, e: Step)
    requires |s.lib.table.slots| == SESSIONS_MAX && CanRun(s, es)
    requires Enabled(After(s, es), e) && Dutiful(After(s, es), e)
    ensures CanRun(s, es + [e]) && After(s, es + [e]) == Apply(After(s, es), e)
    decreases es
  {
    if es == [] {
      assert (es + [e])[1..] == [];
    } else {
      Append(Apply(s, es[0]), es[1..], e);
      assert (es + [e])[1..] == es[1..] + [e];
    }
  }

  /** In some continuation the thread's connect returns. */
  ghost predicate CanReturn(s: State, d: Lib.Tid)
    requires |s.lib.table.slots| == SESSIONS_MAX
  {
    exists es :: CanRun(s, es) && !Lib.At(After(s, es).lib, d).Dialling?
  }

  lemma UnlostCanReturn(s: State, d: Lib.Tid)
    requires Inv(s) && d in s.links && !Link.Lost(s.links[d])
    ensures CanReturn(s, d)
  {
    var cs := Link.EscapeExists(s.links[d]);
    LiftRuns(s, d, cs);
    var s' := After(s, Lift(d, cs));
    var e := Library(Lib.Step(d, Lib.Dial(s'.links[d].caller.code)), true);
    assert InVxi11(Lib.At(s'.lib, d)) && Enabled(s', e);
    Append(s, Lift(d, cs), e);
    assert !Lib.At(After(s, Lift(d, cs) + [e]).lib, d).Dialling?;
  }

  /**
    In every reachable state: a VXI-11 connect can still return, and the mutex be
    released, if and only if it is not lost.
   */
  lemma ConnectCanReturnIffNotLost(es: seq<Step>, d: Lib.Tid)
    requires CanRun(Start(), es) && d in After(Start(), es).links
    ensures CanReturn(After(Start(), es), d) <==> !Link.Lost(After(Start(), es).links[d])
  {
    StartIsGood();
    RunKeepsInv(Start(), es);
    var s := After(Start(), es);
    if Link.Lost(s.links[d]) {
      forall more | CanRun(s, more) ensures Lib.At(After(s, more).lib, d).Dialling? {
        LostConnectFreezesApi(s, more, d, d);
        OnlyHolderConnects(s, d);
      }
    } else {
      UnlostCanReturn(s, d);
    }
  }

  // ---------- It happens ----------

  ghost predicate Reachable(s: State) {
    exists es :: CanRun(Start(), es) && After(Start(), es) == s
  }

  predicate Moves(s: State, e: Step, s': State) {
    |s.lib.table.slots| == SESSIONS_MAX && Enabled(s, e) && Dutiful(s, e) && Apply(s, e) == s'
  }

  lemma Extend(s: State, e: Step, s': State)
    requires Reachable(s) && Moves(s, e, s')
    ensures Reachable(s')
  {
    var es :| CanRun(Start(), es) && After(Start(), es) == s;
    Append(Start(), es, e);
  }

  lemma {:induction false} Concat(s: State, es: seq<Step>, more: seq<Step>)
    requires |s.lib.table.slots| == SESSIONS_MAX && CanRun(s, es) && CanRun(After(s, es), more)
    ensures CanRun(s, es + more) && After(s, es + more) == After(After(s, es), more)
    decreases es
  {
    if es == [] {
      assert es + more == more;
    } else {
      assert (es + more)[1..] == es[1..] + more;
      Concat(Apply(s, es[0]), es[1..], more);
    }
  }

  /** A VXI-11 connect that has just begun can get lost, whatever the rest of the state. */
  lemma FreshConnectCanDeadlock(s: State, d: Lib.Tid) returns (es: seq<Step>)
    requires |s.lib.table.slots| == SESSIONS_MAX && d in s.links && s.links[d] == Link.Start(true)
    ensures CanRun(s, es) && After(s, es) == s.(links := s.links[d := Link.DeadlockState()])
  {
    Link.DeadlockIsReachable();
    var cs :| Link.CanRun(Link.Start(true), cs) && Link.After(Link.Start(true), cs) == Link.DeadlockState();
    Link.UnfinishedHasNoFinish(Link.Start(true), cs);
    LiftRuns(s, d, cs);
    es := Lift(d, cs);
  }

  // Thread 1 calls lxi_connect, then thread 0 does and gets the mutex first.

  function Called(): State {
    State(Lib.State(Zeroed(), None, map[1 := Lib.ConnectCalled(RAW)], map[]), map[])
  }

  function Stage(mutex: Option<Lib.Tid>, pc: Lib.Pc): State {
    State(Lib.State(Zeroed(), mutex, map[1 := Lib.ConnectCalled(RAW), 0 := pc], map[]), map[])
  }

  function Connected(): State {
    State(Lib.State(SetUp(Zeroed(), 0, Vxi11Backend), Some(0),
                    map[1 := Lib.ConnectCalled(RAW), 0 := Lib.Dialling(VXI11, 0)], map[]),
          map[0 := Link.Start(true)])
  }

  lemma CallsMove()
    ensures Moves(Start(), Library(Lib.Step(1, Lib.CallConnect(RAW)), true), Called())
    ensures Moves(Called(), Library(Lib.Step(0, Lib.CallConnect(VXI11)), true), Stage(None, Lib.ConnectCalled(VXI11)))
  {
    assert Lib.Start().pcs[1 := Lib.ConnectCalled(RAW)] == Called().lib.pcs;
    assert Called().lib.pcs[0 := Lib.ConnectCalled(VXI11)] == Stage(None, Lib.ConnectCalled(VXI11)).lib.pcs;
  }

  lemma StageGoes(mutex: Option<Lib.Tid>, before: Lib.Pc, after: Lib.Pc)
    ensures Stage(mutex, before).lib.pcs[0 := after] == Stage(mutex, after).lib.pcs
  {}

  lemma LockMoves()
    ensures Moves(Stage(None, Lib.ConnectCalled(VXI11)), Library(Lib.Step(0, Lib.Lock), true),
                  Stage(Some(0), Lib.Scanning(VXI11, 0)))
  {
    StageGoes(None, Lib.ConnectCalled(VXI11), Lib.Scanning(VXI11, 0));
  }

  lemma LookMoves()
    ensures Moves(Stage(Some(0), Lib.Scanning(VXI11, 0)), Library(Lib.Step(0, Lib.Look), true),
                  Stage(Some(0), Lib.Chosen(VXI11, 0)))
  {
    StageGoes(Some(0), Lib.Scanning(VXI11, 0), Lib.Chosen(VXI11, 0));
  }

  lemma SetUpMoves()
    ensures Moves(Stage(Some(0), Lib.Chosen(VXI11, 0)), Library(Lib.Step(0, Lib.SetUpSlot), true), Connected())
  {
    assert Stage(Some(0), Lib.Chosen(VXI11, 0)).lib.pcs[0 := Lib.Dialling(VXI11, 0)] == Connected().lib.pcs;
  }

  lemma ReachScanning()
    ensures Reachable(Stage(Some(0), Lib.Scanning(VXI11, 0)))
  {
    assert CanRun(Start(), []);
    CallsMove();
    Extend(Start(), Library(Lib.Step(1, Lib.CallConnect(RAW)), true), Called());
    Extend(Called(), Library(Lib.Step(0, Lib.CallConnect(VXI11)), true), Stage(None, Lib.ConnectCalled(VXI11)));
    LockMoves();
    Extend(Stage(None, Lib.ConnectCalled(VXI11)), Library(Lib.Step(0, Lib.Lock), true),
           Stage(Some(0), Lib.Scanning(VXI11, 0)));
  }

  lemma ReachConnected()
    ensures Reachable(Connected())
  {
    ReachScanning();
    LookMoves();
    Extend(Stage(Some(0), Lib.Scanning(VXI11, 0)), Library(Lib.Step(0, Lib.Look), true),
           Stage(Some(0), Lib.Chosen(VXI11, 0)));
    SetUpMoves();
    Extend(Stage(Some(0), Lib.Chosen(VXI11, 0)), Library(Lib.Step(0, Lib.SetUpSlot), true), Connected());
  }

  function Stuck(): State { Connected().(links := map[0 := Link.DeadlockState()]) }

  /** The API can get stuck for good: no step inside the library is left, though two threads are in it. */
  lemma StuckIsReachable()
    ensures Reachable(Stuck()) && StuckBy(Stuck(), 0) && Lib.At(Stuck().lib, 1) == Lib.ConnectCalled(RAW)
  {
    StuckIsStuck();
    ReachConnected();
    var more := FreshConnectCanDeadlock(Connected(), 0);
    assert Connected().links[0 := Link.DeadlockState()] == Stuck().links;
    ReachFurther(Connected(), more);
  }

  lemma StuckIsStuck()
    ensures StuckBy(Stuck(), 0)
  {
    Link.DeadlockIsReachable();
  }

  lemma ReachFurther(s: State, more: seq<Step>)
    requires Reachable(s) && |s.lib.table.slots| == SESSIONS_MAX && CanRun(s, more)
    ensures Reachable(After(s, more))
  {
    var es :| CanRun(Start(), es) && After(Start(), es) == s;
    Concat(Start(), es, more);
  }
}
