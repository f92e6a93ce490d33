/**
  The session table as the library keeps it: a static array of slots updated in
  place by the API calls.  Every method is tied to the value-level operation of
  module Sessions, about which the invariants are proved.
 */
module SessionTable {
  import opened Common
  import opened Sessions

  const LXI_OK := 0

  class SessionTable {
    const session: array<Slot>
    var next: Block        // malloc's next block
    var freed: seq<Block>  // blocks passed to free
    var open: set<Block>   // blocks with a backend connection

    ghost predicate Valid() { session.Length == SESSIONS_MAX }

    ghost function View(): (t: Table)
      reads this, session
      ensures |t.slots| == session.Length
    {
      Table(session[..], next, freed, open)
    }

    constructor ()
      ensures Valid() && fresh(session) && View() == Zeroed()
    {
      session := new Slot[SESSIONS_MAX](_ => Slot(false, false, None, None));
      next, freed, open := 0, [], {};
      new;
      assert session[..] == Zeroed().slots;
    }

    method LxiInit() returns (code: int)
      requires Valid()
      modifies session
      ensures View() == Init(old(View())) && code == 0
      ensures forall j | 0 <= j < SESSIONS_MAX :: !session[j].isAllocated && !session[j].isConnected
    {
      var i := 0;
      while i < SESSIONS_MAX
        invariant 0 <= i <= SESSIONS_MAX
        invariant forall j | 0 <= j < i ::
          session[j] == old(session[j]).(isAllocated := false, isConnected := false)
        invariant forall j | i <= j < SESSIONS_MAX :: session[j] == old(session[j])
      {
        session[i] := session[i].(isAllocated := false);
        session[i] := session[i].(isConnected := false);
        i := i + 1;
      }
      assert session[..] == Init(old(View())).slots;
      return LXI_OK;
    }

    /** `status` is what the backend's connect call returns. */
    method LxiConnect(protocol: Protocol, status: int) returns (code: int, result: ConnectResult)
      requires Valid()
      modifies this, session
      ensures (View(), result) == Connect(old(View()), protocol, status)
      ensures code == result.Code()
      ensures if HasFree(old(View())) && (protocol == VXI11 || protocol == RAW) && status == 0
              then 0 <= code < SESSIONS_MAX && !old(session[..])[code].isAllocated
                   && (forall j | 0 <= j < code :: old(session[..])[j].isAllocated)
                   && session[code].backend == Some(if protocol == VXI11 then Vxi11Backend else TcpBackend)
              else code == -1
    {
      ConnectCode(View(), protocol, status);
      var available := false;
      var i := 0;
      while i < SESSIONS_MAX
        invariant 0 <= i <= SESSIONS_MAX && !available
        invariant FirstFree(session[..], 0) == FirstFree(session[..], i)
      {
        if !session[i].isAllocated {
          available := true;
          break;
        }
        i := i + 1;
      }
      assert i == FirstFree(old(session[..]), 0);
      if !available {
        return LXI_ERROR, TooManySessions;
      }
      match protocol {
        case VXI11 => Allocate(i, Vxi11Backend);
        case RAW => Allocate(i, TcpBackend);
        case HISLIP | Other(_) => return LXI_ERROR, Unsupported;
      }
      if status != 0 {
        if session[i].data.Some? {
          freed := freed + [session[i].data.value];
        }
        return LXI_ERROR, BackendFailed;
      }
      open := open + {session[i].data.value};
      session[i] := session[i].(isAllocated := true);
      session[i] := session[i].(isConnected := true);
      assert View().slots == Connect(old(View()), protocol, status).0.slots;
      return i, Connected(i);
    }

    /** Sets the slot's function pointers and mallocs its data block. */
    method Allocate(i: nat, b: Backend)
      requires Valid() && i < SESSIONS_MAX
      modifies this, session
      ensures View() == SetUp(old(View()), i, b)
    {
      session[i] := session[i].(backend := Some(b));
      session[i] := session[i].(data := Some(next));
      next := next + 1;
      assert session[..] == SetUp(old(View()), i, b).slots;
    }

    /** `past` is what `allocated` reads as one slot past the end of the array. */
    method IsValidSession(device: int, past: bool) returns (status: bool)
      requires Valid()
      ensures status == ValidSession(View(), device, past)
    {
      status := true;
      if device < 0 {
        status := false;
      } else if device > SESSIONS_MAX {
        status := false;
      } else {
        var isAllocated := if device < session.Length then session[device].isAllocated else past;
        if !isAllocated {
          status := false;
        }
      }
    }

    /** No code is returned where the program is undefined: the slot it goes on with is not in the array. */
    method LxiDisconnect(device: int, past: bool) returns (code: Option<int>)
      requires Valid()
      modifies this, session
      ensures match Disconnect(old(View()), device, past)
              case Undefined => code == None
              case Defined(t, ok) => View() == t && code == Some(if ok then 0 else -1)
    {
      var valid := IsValidSession(device, past);
      if !valid {
        return Some(LXI_ERROR);
      }
      if device >= session.Length {
        return None;
      }
      if session[device].isConnected {
        if session[device].data.Some? {
          open := open - {session[device].data.value};
        }
      }
      if session[device].data.Some? {
        freed := freed + [session[device].data.value];
      }
      session[device] := session[device].(isConnected := false);
      session[device] := session[device].(isAllocated := false);
      assert session[..] == DisconnectLocked(old(View()), device).slots;
      return Some(LXI_OK);
    }

    /**
      lxi_send and lxi_receive: `count` is what the backend returns.  `used` is the
      backend and block the transfer was handed to.
     */
    method Transfer(device: int, past: bool, count: int) returns (code: Option<int>, used: Option<Session>)
      requires Valid()
      ensures used == if device in Handles(View()) then Some(Handles(View())[device]) else None
      ensures code == if Stray(device, past) then None
                      else Some(if used.Some? && count >= 0 then count else -1)
    {
      var valid := IsValidSession(device, past);
      if !valid {
        return Some(LXI_ERROR), None;
      }
      if device >= session.Length {
        return None, None;
      }
      used := Some(Session(session[device].backend, session[device].data));
      if count < 0 {
        return Some(LXI_ERROR), used;
      }
      return Some(count), used;
    }
  }
}
