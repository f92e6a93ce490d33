/**
  Remote procedure calls of the VXI-11 core and abort channels: the table of client
  stubs, the server's two dispatch switches, and a call from one end to the other.
 */
module RpcDispatch {
  import opened Common
  import opened Xdr
  import opened XdrStream
  import opened XdrCodec
  import opened Vxi11Messages
  import opened Delivery

  datatype Program = DeviceCore | DeviceAsync

  datatype Procedure =
    | DeviceAbort | CreateLink | DeviceWrite | DeviceRead | DeviceReadStb | DeviceTrigger | DeviceClear
    | DeviceRemote | DeviceLocal | DeviceLock | DeviceUnlock | DeviceEnableSrq | DeviceDocmd | DestroyLink
    | CreateIntrChan | DestroyIntrChan

  /** The program that declares a procedure. */
  function ProgramOf(p: Procedure): Program {
    if p.DeviceAbort? then DeviceAsync else DeviceCore
  }

  // ---------- The client's side ----------

  /** What a stub hands to clnt_call: the procedure number and the two codecs. */
  datatype Stub = Stub(number: nat, argument: MessageType, result: MessageType)

  function StubOf(p: Procedure): Stub {
    match p
    case DeviceAbort => Stub(1, LinkType, ErrorType)
    case CreateLink => Stub(10, CreateLinkParmsType, CreateLinkRespType)
    case DeviceWrite => Stub(11, WriteParmsType, WriteRespType)
    case DeviceRead => Stub(12, ReadParmsType, ReadRespType)
    case DeviceReadStb => Stub(13, GenericParmsType, ReadStbRespType)
    case DeviceTrigger => Stub(14, GenericParmsType, ErrorType)
    case DeviceClear => Stub(15, GenericParmsType, ErrorType)
    case DeviceRemote => Stub(16, GenericParmsType, ErrorType)
    case DeviceLocal => Stub(17, GenericParmsType, ErrorType)
    case DeviceLock => Stub(18, LockParmsType, ErrorType)
    case DeviceUnlock => Stub(19, LinkType, ErrorType)
    case DeviceEnableSrq => Stub(20, EnableSrqParmsType, ErrorType)
    case DeviceDocmd => Stub(22, DocmdParmsType, DocmdRespType)
    case DestroyLink => Stub(23, LinkType, ErrorType)
    case CreateIntrChan => Stub(25, RemoteFuncType, ErrorType)
    case DestroyIntrChan => Stub(26, VoidType, ErrorType)
  }

  /** Every stub uses the number that src/vxi11core.h declares, and no number is declared twice. */
  lemma NumbersAsDeclared(p: Procedure, q: Procedure)
    ensures StubOf(p).number ==
            match p
            case DeviceAbort => 1 case CreateLink => 10 case DeviceWrite => 11 case DeviceRead => 12
            case DeviceReadStb => 13 case DeviceTrigger => 14 case DeviceClear => 15 case DeviceRemote => 16
            case DeviceLocal => 17 case DeviceLock => 18 case DeviceUnlock => 19 case DeviceEnableSrq => 20
            case DeviceDocmd => 22 case DestroyLink => 23 case CreateIntrChan => 25 case DestroyIntrChan => 26
    ensures StubOf(p).number == StubOf(q).number <==> p == q
  {}

  /** Every stub uses the codecs of the types it is declared with. */
  lemma CodecsAsDeclared(p: Procedure)
    ensures StubOf(p).argument.LinkType? <==> p in {DeviceAbort, DeviceUnlock, DestroyLink}
    ensures StubOf(p).argument.GenericParmsType? <==>
            p in {DeviceReadStb, DeviceTrigger, DeviceClear, DeviceRemote, DeviceLocal}
    ensures StubOf(p).argument.CreateLinkParmsType? <==> p == CreateLink
    ensures StubOf(p).argument.WriteParmsType? <==> p == DeviceWrite
    ensures StubOf(p).argument.ReadParmsType? <==> p == DeviceRead
    ensures StubOf(p).argument.LockParmsType? <==> p == DeviceLock
    ensures StubOf(p).argument.EnableSrqParmsType? <==> p == DeviceEnableSrq
    ensures StubOf(p).argument.DocmdParmsType? <==> p == DeviceDocmd
    ensures StubOf(p).argument.RemoteFuncType? <==> p == CreateIntrChan
    ensures StubOf(p).argument.VoidType? <==> p == DestroyIntrChan
    ensures StubOf(p).result ==
            match p
            case CreateLink => CreateLinkRespType case DeviceWrite => WriteRespType case DeviceRead => ReadRespType
            case DeviceReadStb => ReadStbRespType case DeviceDocmd => DocmdRespType case _ => ErrorType
  {}

  // ---------- The server's side ----------

  datatype Case =
    | NullProcedure
    | NoProcedure
    | Local(handler: Procedure, argument: MessageType, result: MessageType)

  function CoreSwitch(number: nat): Case {
    match number
    case 0 => NullProcedure
    case 10 => Local(CreateLink, CreateLinkParmsType, CreateLinkRespType)
    case 11 => Local(DeviceWrite, WriteParmsType, WriteRespType)
    case 12 => Local(DeviceRead, ReadParmsType, ReadRespType)
    case 13 => Local(DeviceReadStb, GenericParmsType, ReadStbRespType)
    case 14 => Local(DeviceTrigger, GenericParmsType, ErrorType)
    case 15 => Local(DeviceClear, GenericParmsType, ErrorType)
    case 16 => Local(DeviceRemote, GenericParmsType, ErrorType)
    case 17 => Local(DeviceLocal, GenericParmsType, ErrorType)
    case 18 => Local(DeviceLock, LockParmsType, ErrorType)
    case 19 => Local(DeviceUnlock, LinkType, ErrorType)
    case 20 => Local(DeviceEnableSrq, EnableSrqParmsType, ErrorType)
    case 22 => Local(DeviceDocmd, DocmdParmsType, DocmdRespType)
    case 23 => Local(DestroyLink, LinkType, ErrorType)
    case 25 => Local(CreateIntrChan, RemoteFuncType, ErrorType)
    case 26 => Local(DestroyIntrChan, VoidType, ErrorType)
    case _ => NoProcedure
  }

  function AsyncSwitch(number: nat): Case {
    match number
    case 0 => NullProcedure
    case 1 => Local(DeviceAbort, LinkType, ErrorType)
    case _ => NoProcedure
  }

  function Switch(program: Program, number: nat): Case {
    if program.DeviceCore? then CoreSwitch(number) else AsyncSwitch(number)
  }

  /**
    The two tables agree: a number selects a handler of a program exactly when some
    stub of that program uses it, and then with that stub's own codecs.
   */
  lemma SwitchMatchesStubs(program: Program, number: nat, p: Procedure)
    ensures Switch(program, number) == Local(p, StubOf(p).argument, StubOf(p).result) <==>
            ProgramOf(p) == program && StubOf(p).number == number
    ensures Switch(program, number).NullProcedure? <==> number == 0
  {}

  lemma LocalCaseIsAStub(program: Program, number: nat)
    ensures var c := Switch(program, number);
      c.Local? ==> ProgramOf(c.handler) == program && StubOf(c.handler) == Stub(number, c.argument, c.result)
  {}

  /** What a handler returns and leaves in `result`. */
  datatype Answer = Answer(retval: int, result: Message)

  type Handlers = (Procedure, Message) -> Answer

  /** Each handler fills the result struct of its own procedure. */
  ghost predicate ResultsTyped(h: Handlers) {
    forall p, m :: TypeOf(h(p, m).result) == StubOf(p).result && WellTyped(h(p, m).result)
  }

  datatype Reply = NoReply | Success(body: seq<byte>) | ProcUnavailable | GarbageArguments | SystemError

  datatype Invocation = Invocation(handler: Procedure, argument: Message)

  datatype Served = Served(reply: Reply, called: Option<Invocation>)

  /** svc_sendreply with the result codec: a result that cannot be encoded is a system error. */
  function SendReply(result: Message, room: nat, granted: bool): Reply
    requires WellTyped(result)
  {
    var put := Written(result, room, granted);
    if put.ok then Success(put.out) else SystemError
  }

  /** Behind the switch: fetch the arguments, call the handler, reply. */
  function ServeLocal(p: Procedure, argument: MessageType, request: seq<byte>, h: Handlers,
                      room: nat, getInline: bool, putInline: bool): Served
    requires ResultsTyped(h)
  {
    match Read(argument, request, getInline)
    case None => Served(GarbageArguments, None)
    case Some(m) => Served(AnswerReply(h(p, m), room, putInline), Some(Invocation(p, m)))
  }

  function AnswerReply(answer: Answer, room: nat, putInline: bool): Reply
    requires WellTyped(answer.result)
  {
    if answer.retval > 0 then SendReply(answer.result, room, putInline) else NoReply
  }

  function Serve(program: Program, number: nat, request: seq<byte>, h: Handlers,
                 room: nat, getInline: bool, putInline: bool): Served
    requires ResultsTyped(h)
  {
    match Switch(program, number)
    case NullProcedure => Served(Success([]), None)
    case NoProcedure => Served(ProcUnavailable, None)
    case Local(p, argument, _) => ServeLocal(p, argument, request, h, room, getInline, putInline)
  }

  /** svc_getargs into a cleared argument struct. */
  method GetArguments(xdrArgument: MessageType, request: seq<byte>, getInline: bool)
      returns (argument: Option<Message>)
    ensures argument == Read(xdrArgument, request, getInline)
  {
    var incoming := new Decoder(request);
    var l := LayoutOf(xdrArgument);
    var ok := incoming.GetAll(l, getInline);
    FillMessageIsGet(l, request, getInline);
    if !ok {
      return None;
    }
    ghost var got := FillMessage(l, request, getInline);
    assert [] + got.fields == got.fields;
    return Some(FromMembers(xdrArgument, incoming.objp));
  }

  /** svc_sendreply, and svcerr_systemerr when it fails. */
  method WriteReply(xdrResult: MessageType, result: Message, room: nat, putInline: bool) returns (reply: Reply)
    requires TypeOf(result) == xdrResult && WellTyped(result)
    ensures reply == SendReply(result, room, putInline)
  {
    var outgoing := new Encoder(room);
    var ok := outgoing.PutAll(LayoutOf(xdrResult), Members(result), putInline);
    reply := if ok then Success(outgoing.out) else SystemError;
  }

  method Dispatch(local: Procedure, xdrArgument: MessageType, xdrResult: MessageType, request: seq<byte>,
                  h: Handlers, room: nat, getInline: bool, putInline: bool)
      returns (reply: Reply, called: Option<Invocation>)
    requires ResultsTyped(h) && StubOf(local).result == xdrResult
    ensures Served(reply, called) == ServeLocal(local, xdrArgument, request, h, room, getInline, putInline)
  {
    var argument := GetArguments(xdrArgument, request, getInline);
    if argument.None? {
      return GarbageArguments, None;
    }
    var answer := h(local, argument.value);
    called, reply := Some(Invocation(local, argument.value)), NoReply;
    if answer.retval > 0 {
      reply := WriteReply(xdrResult, answer.result, room, putInline);
    }
  }

  method DeviceAsync1(number: nat, request: seq<byte>, h: Handlers, room: nat, getInline: bool, putInline: bool)
      returns (reply: Reply, called: Option<Invocation>)
    requires ResultsTyped(h)
    ensures Served(reply, called) == Serve(DeviceAsync, number, request, h, room, getInline, putInline)
  {
    var xdrArgument, xdrResult, local;
    match number {
      case 0 => return Success([]), None;
      case 1 => xdrArgument, xdrResult, local := LinkType, ErrorType, DeviceAbort;
      case _ => return ProcUnavailable, None;
    }
    reply, called := Dispatch(local, xdrArgument, xdrResult, request, h, room, getInline, putInline);
  }

  method DeviceCore1(number: nat, request: seq<byte>, h: Handlers, room: nat, getInline: bool, putInline: bool)
      returns (reply: Reply, called: Option<Invocation>)
    requires ResultsTyped(h)
    ensures Served(reply, called) == Serve(DeviceCore, number, request, h, room, getInline, putInline)
  {
    var xdrArgument, xdrResult, local;
    match number {
      case 0 => return Success([]), None;
      case 10 => xdrArgument, xdrResult, local := CreateLinkParmsType, CreateLinkRespType, CreateLink;
      case 11 => xdrArgument, xdrResult, local := WriteParmsType, WriteRespType, DeviceWrite;
      case 12 => xdrArgument, xdrResult, local := ReadParmsType, ReadRespType, DeviceRead;
      case 13 => xdrArgument, xdrResult, local := GenericParmsType, ReadStbRespType, DeviceReadStb;
      case 14 => xdrArgument, xdrResult, local := GenericParmsType, ErrorType, DeviceTrigger;
      case 15 => xdrArgument, xdrResult, local := GenericParmsType, ErrorType, DeviceClear;
      case 16 => xdrArgument, xdrResult, local := GenericParmsType, ErrorType, DeviceRemote;
      case 17 => xdrArgument, xdrResult, local := GenericParmsType, ErrorType, DeviceLocal;
      case 18 => xdrArgument, xdrResult, local := LockParmsType, ErrorType, DeviceLock;
      case 19 => xdrArgument, xdrResult, local := LinkType, ErrorType, DeviceUnlock;
      case 20 => xdrArgument, xdrResult, local := EnableSrqParmsType, ErrorType, DeviceEnableSrq;
      case 22 => xdrArgument, xdrResult, local := DocmdParmsType, DocmdRespType, DeviceDocmd;
      case 23 => xdrArgument, xdrResult, local := LinkType, ErrorType, DestroyLink;
      case 25 => xdrArgument, xdrResult, local := RemoteFuncType, ErrorType, CreateIntrChan;
      case 26 => xdrArgument, xdrResult, local := VoidType, ErrorType, DestroyIntrChan;
      case _ => return ProcUnavailable, None;
    }
    reply, called := Dispatch(local, xdrArgument, xdrResult, request, h, room, getInline, putInline);
  }

  // ---------- What the server lets through ----------

  /** A number no stub of the program uses reaches no handler; zero is acknowledged, others are refused. */
  lemma UnknownProcedureReachesNoHandler(
      program: Program, number: nat, request: seq<byte>, h: Handlers, room: nat, getInline: bool, putInline: bool)
    requires ResultsTyped(h)
    requires forall p :: ProgramOf(p) == program ==> StubOf(p).number != number
    ensures Serve(program, number, request, h, room, getInline, putInline) ==
            Served(if number == 0 then Success([]) else ProcUnavailable, None)
  {
    LocalCaseIsAStub(program, number);
    SwitchMatchesStubs(program, number, CreateLink);
  }

  /**
    A handler that runs is the one whose program and number were called, exactly once,
    on the message the request starts with; the reply can only report its own answer.
   */
  lemma HandlerRunsOnlyForItsOwnCall(
      program: Program, number: nat, request: seq<byte>, h: Handlers, room: nat, getInline: bool, putInline: bool)
    requires ResultsTyped(h)
    ensures var s := Serve(program, number, request, h, room, getInline, putInline);
      match s.called
      case None => s.reply in {Success([]), ProcUnavailable, GarbageArguments}
      case Some(call) =>
        && ProgramOf(call.handler) == program && StubOf(call.handler).number == number
        && Read(StubOf(call.handler).argument, request, getInline) == Some(call.argument)
        && (s.reply.NoReply? <==> h(call.handler, call.argument).retval <= 0)
  {
    LocalCaseIsAStub(program, number);
  }

  // ---------- A call from end to end ----------

  /** Room for the request and the reply, and whether each of the four streams grants inline space. */
  datatype Transport = Transport(
    requestRoom: nat, replyRoom: nat, clientPuts: bool, serverGets: bool, serverPuts: bool, clientGets: bool)

  datatype Status = Done(result: Message) | CantEncode | CantDecode | TimedOut | Refused(reply: Reply)

  datatype Completed = Completed(status: Status, called: Option<Invocation>)

  /** The client's reading of a reply. */
  function Receive(p: Procedure, reply: Reply, granted: bool): Status {
    match reply
    case NoReply => TimedOut
    case Success(body) =>
      (match Read(StubOf(p).result, body, granted) case None => CantDecode case Some(r) => Done(r))
    case _ => Refused(reply)
  }

  /** A request that was sent: the server's work and the client's reading of its reply. */
  function Exchange(p: Procedure, request: seq<byte>, program: Program, h: Handlers, t: Transport): Completed
    requires ResultsTyped(h)
  {
    var s := Serve(program, StubOf(p).number, request, h, t.replyRoom, t.serverGets, t.serverPuts);
    Completed(Receive(p, s.reply, t.clientGets), s.called)
  }

  /** clnt_call from a stub over a handle for the given program. */
  function Call(p: Procedure, m: Message, program: Program, h: Handlers, t: Transport): Completed
    requires ResultsTyped(h) && TypeOf(m) == StubOf(p).argument && WellTyped(m)
  {
    var put := Written(m, t.requestRoom, t.clientPuts);
    if put.ok then Exchange(p, put.out, program, h, t) else Completed(CantEncode, None)
  }

  /** No result has a boolean or a bounded member. */
  lemma ResultsAreSendable(p: Procedure, r: Message)
    requires TypeOf(r) == StubOf(p).result && WellTyped(r)
    ensures Sendable(r)
  {
    OnlySrqHandleIsBounded(r);
    var ks, fs := LayoutOf(TypeOf(r)).kinds, Members(r);
    forall i | 0 <= i < |ks| ensures Canonical(ks[i], fs[i]) {
      assert !ks[i].Bool?;
    }
  }

  /** The way back: the client decodes exactly the handler's result if and only if it was given room. */
  lemma ResultComesBack(p: Procedure, r: Message, room: nat, putInline: bool, getInline: bool)
    requires TypeOf(r) == StubOf(p).result && WellTyped(r)
    ensures WithinBounds(r)
    ensures Receive(p, SendReply(r, room, putInline), getInline) ==
            if |Encoding(r)| <= room then Done(r) else Refused(SystemError)
  {
    ResultsAreSendable(p, r);
    SendableIsReadExactly(r, room, putInline, getInline);
  }

  /** What a call completes with when the argument could be sent. */
  function Outcome(answer: Answer, room: nat): Status
    requires WellTyped(answer.result) && WithinBounds(answer.result)
  {
    if answer.retval <= 0 then TimedOut
    else if |Encoding(answer.result)| > room then Refused(SystemError)
    else Done(answer.result)
  }

  lemma ServedByOwnHandler(
      p: Procedure, request: seq<byte>, h: Handlers, room: nat, getInline: bool, putInline: bool)
    requires ResultsTyped(h)
    ensures Serve(ProgramOf(p), StubOf(p).number, request, h, room, getInline, putInline) ==
            ServeLocal(p, StubOf(p).argument, request, h, room, getInline, putInline)
  {
    SwitchMatchesStubs(ProgramOf(p), StubOf(p).number, p);
  }

  /** A request that decodes to x is answered by the procedure's own handler on x. */
  lemma ExchangeCompletes(p: Procedure, x: Message, request: seq<byte>, h: Handlers, t: Transport)
    requires ResultsTyped(h)
    requires Read(StubOf(p).argument, request, t.serverGets) == Some(x)
    ensures WithinBounds(h(p, x).result)
    ensures Exchange(p, request, ProgramOf(p), h, t) ==
            Completed(Outcome(h(p, x), t.replyRoom), Some(Invocation(p, x)))
  {
    ServedByOwnHandler(p, request, h, t.replyRoom, t.serverGets, t.serverPuts);
    ResultComesBack(p, h(p, x).result, t.replyRoom, t.serverPuts, t.clientGets);
  }

  /**
    End to end, for every procedure, argument, handler and transport: the procedure's
    handler, and no other, receives the client's argument as delivered if and only if it
    is within its bounds and found room; and the client gets exactly the handler's
    result if and only if the handler agreed to reply and the result found room.
   */
  lemma CallIsEndToEnd(p: Procedure, m: Message, h: Handlers, t: Transport)
    requires ResultsTyped(h) && TypeOf(m) == StubOf(p).argument && WellTyped(m)
    ensures var x := Delivered(m, t.clientPuts, t.serverGets);
      && WithinBounds(h(p, x).result)
      && Call(p, m, ProgramOf(p), h, t) ==
         if WithinBounds(m) && |Encoding(m)| <= t.requestRoom
         then Completed(Outcome(h(p, x), t.replyRoom), Some(Invocation(p, x)))
         else Completed(CantEncode, None)
  {
    var x := Delivered(m, t.clientPuts, t.serverGets);
    ResultsAreSendable(p, h(p, x).result);
    if WithinBounds(m) && |Encoding(m)| <= t.requestRoom {
      SentCallCompletes(p, m, h, t);
    } else {
      UnsentCallFails(p, m, h, t);
    }
  }

  lemma UnsentCallFails(p: Procedure, m: Message, h: Handlers, t: Transport)
    requires ResultsTyped(h) && TypeOf(m) == StubOf(p).argument && WellTyped(m)
    requires !WithinBounds(m) || |Encoding(m)| > t.requestRoom
    ensures Call(p, m, ProgramOf(p), h, t) == Completed(CantEncode, None)
  {
    MessageIsDelivered(m, t.requestRoom, t.clientPuts, t.serverGets);
  }

  lemma SentCallCompletes(p: Procedure, m: Message, h: Handlers, t: Transport)
    requires ResultsTyped(h) && TypeOf(m) == StubOf(p).argument && WellTyped(m)
    requires WithinBounds(m) && |Encoding(m)| <= t.requestRoom
    ensures var x := Delivered(m, t.clientPuts, t.serverGets);
      && WithinBounds(h(p, x).result)
      && Call(p, m, ProgramOf(p), h, t) == Completed(Outcome(h(p, x), t.replyRoom), Some(Invocation(p, x)))
  {
    MessageIsDelivered(m, t.requestRoom, t.clientPuts, t.serverGets);
    ExchangeCompletes(p, Delivered(m, t.clientPuts, t.serverGets), Written(m, t.requestRoom, t.clientPuts).out, h, t);
  }

  /** With booleans 0 or 1 the handler receives exactly the client's argument, whichever paths the codecs take. */
  lemma PlainCallIsExact(p: Procedure, m: Message, h: Handlers, t: Transport)
    requires ResultsTyped(h) && TypeOf(m) == StubOf(p).argument && Sendable(m) && |Encoding(m)| <= t.requestRoom
    ensures WithinBounds(h(p, m).result)
    ensures Call(p, m, ProgramOf(p), h, t) == Completed(Outcome(h(p, m), t.replyRoom), Some(Invocation(p, m)))
  {
    CallIsEndToEnd(p, m, h, t);
    DeliveredExactlyIff(m, t.clientPuts, t.serverGets);
  }

  /** A request cut short anywhere is refused and reaches no handler. */
  lemma TruncatedRequestReachesNoHandler(p: Procedure, m: Message, h: Handlers, t: Transport, n: nat)
    requires ResultsTyped(h) && TypeOf(m) == StubOf(p).argument && WellTyped(m)
    requires Written(m, t.requestRoom, t.clientPuts).ok && n < |Written(m, t.requestRoom, t.clientPuts).out|
    ensures Exchange(p, Written(m, t.requestRoom, t.clientPuts).out[..n], ProgramOf(p), h, t) ==
            Completed(Refused(GarbageArguments), None)
  {
    var request := Written(m, t.requestRoom, t.clientPuts).out[..n];
    TruncatedIsNotRead(m, t.requestRoom, t.clientPuts, t.serverGets, n);
    ServedByOwnHandler(p, request, h, t.replyRoom, t.serverGets, t.serverPuts);
  }

  /** A stub used over the other program's channel reaches no handler at all. */
  lemma WrongChannelReachesNoHandler(p: Procedure, m: Message, program: Program, h: Handlers, t: Transport)
    requires ResultsTyped(h) && TypeOf(m) == StubOf(p).argument && WellTyped(m)
    requires program != ProgramOf(p)
    ensures Call(p, m, program, h, t) in {Completed(CantEncode, None), Completed(Refused(ProcUnavailable), None)}
  {
    OtherSwitchRefuses(program, p);
  }

  lemma OtherSwitchRefuses(program: Program, p: Procedure)
    requires program != ProgramOf(p)
    ensures Switch(program, StubOf(p).number).NoProcedure?
  {}
}
