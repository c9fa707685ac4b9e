/**
 The helper's event handlers as they are: flag bits and the child's pid in one record,
 read and assigned by the handlers, each of which is shown to take the step that the
 life cycle describes.
 */
module LifecycleHelper {

  import opened Lifecycle

  datatype Signal = SIGHUP | SIGTERM | SIGINT | SIGPIPE | SIGCHLD

  /** What recvmsg and the parser made of the bytes on the socket. */
  datatype Received = ReceiveError | Truncated | IoctlResponse | Malformed | RunCommand

  class Helper {
    var sessionRef: bool
    var outsideRef: bool
    var haveForked: bool
    var child: nat              // 0: none
    var fusePtr: bool

    // What the kernel knows about the marker file system, the session's namespace and
    // the child, and what it has carried over the socket.
    var mountedOutside: bool
    var namespaceAlive: bool
    var collected: ChildEnd
    var clones: nat
    var sent: seq<Header>

    function Abstract(): State
      reads this
    {
      State(sessionRef, outsideRef, haveForked, child != 0, fusePtr,
            mountedOutside, namespaceAlive, collected, clones, sent)
    }

    constructor ()
      ensures Abstract() == INITIAL
    {
      sessionRef, outsideRef, haveForked, child, fusePtr := false, true, false, 0, true;
      mountedOutside, namespaceAlive, collected, clones, sent := true, false, StillRunning, 0, [];
    }

    method RemoveOutsideRef()
      modifies this`outsideRef
      ensures !outsideRef
    {
      outsideRef := false;
    }

    method SendHeader(h: Header)
      modifies this`sent
      ensures Abstract() == Send(old(Abstract()), h)
    {
      if outsideRef {
        sent := sent + [h];
      }
    }

    method UmountfsHasHup() returns (hup: bool)
      ensures hup == HasHup(Abstract())
    {
      hup := !mountedOutside && !namespaceAlive;
    }

    /** waitpid(child, &status, WNOHANG), when end has become of the child; exited is WIFEXITED(status). */
    method Waitpid(end: ChildEnd) returns (pid: int, exited: bool)
      requires child != 0
      modifies this`collected
      ensures pid == child <==> old(collected) == StillRunning && end != StillRunning
      ensures pid == child ==> collected == end && exited == end.Exited?
      ensures pid != child ==> collected == old(collected)
    {
      if collected != StillRunning {
        return -1, false;
      }
      if end == StillRunning {
        return 0, false;
      }
      collected := end;
      return child, end.Exited?;
    }

    method SigfdEvent(signal: Signal, end: ChildEnd)
      modifies this`outsideRef, this`child, this`collected, this`sent
      ensures signal.SIGCHLD? ==> Abstract() == Step(old(Abstract()), SignalChild(end))
      ensures signal.SIGPIPE? ==> Abstract() == Step(old(Abstract()), SignalPipe)
      ensures !signal.SIGCHLD? && !signal.SIGPIPE? ==> Abstract() == Step(old(Abstract()), SignalIgnored)
    {
      if signal.SIGHUP? || signal.SIGTERM? || signal.SIGINT? {
      } else if signal.SIGPIPE? {
        RemoveOutsideRef();
      } else if signal.SIGCHLD? {
        if child == 0 {
          return;
        }
        var hup := UmountfsHasHup();
        if hup {
          return;
        }
        var status, exited := Waitpid(end);
        if status == child && exited {
          child := 0;
          SendHeader(GotSigchld);
        }
      }
    }

    /** pid is what clone answers, if it is called. */
    method HandleMessage(pid: int)
      requires pid == -1 || pid > 0
      modifies this
      ensures Abstract() == Step(old(Abstract()), SocketCommand(pid != -1))
    {
      if haveForked {
        return;
      }
      haveForked := true;
      if pid == -1 {
        return;
      }
      clones, namespaceAlive, collected := clones + 1, true, StillRunning;
      child := pid;
      mountedOutside := false;
      sessionRef := true;
    }

    method SocketEvent(hup: bool, readable: bool, received: Received, pid: int)
      requires pid == -1 || pid > 0
      modifies this
      ensures hup ==> Abstract() == Step(old(Abstract()), SocketHup)
      ensures !hup && readable && received.RunCommand? ==>
                Abstract() == Step(old(Abstract()), SocketCommand(pid != -1))
      ensures !hup && !(readable && received.RunCommand?) ==> Abstract() == Step(old(Abstract()), SocketOther)
    {
      if hup {
        RemoveOutsideRef();
      } else if readable {
        match received
        case ReceiveError | Truncated | IoctlResponse | Malformed => return;
        case RunCommand => HandleMessage(pid);
      }
    }

    method NotifyUmount()
      modifies this`sessionRef, this`sent
      ensures Abstract() == Send(old(Abstract()).(sessionRef := false), GotUmount)
    {
      sessionRef := false;
      SendHeader(GotUmount);
    }

    method FuseEvent(hup: bool)
      requires fusePtr
      modifies this`sessionRef, this`sent, this`fusePtr
      ensures Abstract() == Step(old(Abstract()), if hup then FuseHup else FuseReadable)
    {
      if hup {
        NotifyUmount();
        fusePtr := false;
      }
    }

    /** card_send_modeset_ioctl; carried is whether sendmsg succeeds, if it is called. */
    method SendModesetIoctl(carried: bool) returns (refused: bool)
      modifies this`sent
      ensures refused <==> sent == old(sent)
      ensures Abstract() == Step(old(Abstract()), ClientIoctl(carried))
    {
      if !outsideRef {
        return true;
      }
      if !carried {
        return true;
      }
      sent := sent + [ModesetRequest];
      return false;
    }

    method Dispatch(e: Event)
      requires Enabled(Abstract(), e)
      modifies this
      ensures Abstract() == Step(old(Abstract()), e)
    {
      match e
      case SignalIgnored => SigfdEvent(SIGHUP, StillRunning);
      case SignalPipe => SigfdEvent(SIGPIPE, StillRunning);
      case SignalChild(end) => SigfdEvent(SIGCHLD, end);
      case SocketHup => SocketEvent(true, false, ReceiveError, -1);
      case SocketCommand(cloned) => SocketEvent(false, true, RunCommand, if cloned then 1 else -1);
      case SocketOther => SocketEvent(false, true, Malformed, -1);
      case FuseHup => FuseEvent(true);
      case FuseReadable => FuseEvent(false);
      case ClientIoctl(carried) => var refused := SendModesetIoctl(carried);
      case NamespaceEmpties => namespaceAlive := false;
    }

    /** The main loop over the events that epoll_wait reports. */
    method MainLoop(events: seq<Event>) returns (handled: nat)
      modifies this
      ensures Abstract() == Run(old(Abstract()), events)
      ensures handled <= |events| && (handled < |events| ==> !Looping(Abstract()))
    {
      hide Step;
      var i := 0;
      assert events[0..] == events;
      while (sessionRef || outsideRef) && i < |events|
        invariant 0 <= i <= |events|
        invariant Run(Abstract(), events[i..]) == Run(old(Abstract()), events)
      {
        if Enabled(Abstract(), events[i]) {
          Dispatch(events[i]);
        }
        i := i + 1;
      }
      EndedStaysEnded(Abstract(), events[i..]);
      handled := i;
    }
  }

  /** After the loop has ended, and when there are no more events, a run stays where it is. */
  lemma {:induction false} EndedStaysEnded(s: State, events: seq<Event>)
    requires !Looping(s) || events == []
    ensures Run(s, events) == s
    decreases |events|
  {
    if events != [] {
      EndedStaysEnded(s, events[1..]);
    }
  }
}
