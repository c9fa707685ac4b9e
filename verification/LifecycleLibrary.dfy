/**
 The library's event handlers as they are, on the session's record.  A user's callback
 may call session_free before it returns; frees says whether it does.
 */
module LifecycleLibrary {

  import opened Lifecycle

  /** What recvmsg gave: an error, end of file, less than a header, or a message. */
  datatype Received = ReceiveError | EndOfFile | TooShort | Arrived(h: Header)

  class Session {
    const onSigchld: bool       // whether the user has given the callback
    var fdPtr: bool             // whether the descriptor is registered
    var freed: bool
    var exits: nat
    var unregistrations: nat
    var sigchlds: nat

    function Abstract(): Library
      reads this
    {
      Library(onSigchld, fdPtr, freed, unregistrations, exits, sigchlds)
    }

    constructor (onSigchld: bool)
      ensures Abstract() == Opened(onSigchld)
    {
      this.onSigchld := onSigchld;
      fdPtr, freed, exits, unregistrations, sigchlds := true, false, 0, 0, 0;
    }

    method UnregisterFd()
      modifies this`unregistrations
      ensures unregistrations == old(unregistrations) + 1
    {
      unregistrations := unregistrations + 1;
    }

    /** session_free. */
    method FreeSession()
      modifies this
      ensures Abstract() == Free(old(Abstract()))
    {
      if freed {
        return;
      }
      if fdPtr {
        UnregisterFd();
        fdPtr := false;
      }
      freed := true;
    }

    method OnExit(frees: bool)
      modifies this
      ensures var told := old(Abstract()).(exits := old(exits) + 1);
        Abstract() == if frees then Free(told) else told
    {
      exits := exits + 1;
      if frees {
        FreeSession();
      }
    }

    method Hup(frees: bool)
      modifies this
      ensures Abstract() == HungUp(old(Abstract()), frees)
    {
      OnExit(frees);
      UnregisterFd();
      fdPtr := false;
    }

    method HandleEvent(h: Header, frees: bool)
      modifies this
      ensures Abstract() == Handle(old(Abstract()), h, frees)
    {
      match h
      case GotSigchld =>
        if onSigchld {
          sigchlds := sigchlds + 1;
          if frees {
            FreeSession();
          }
        }
      case GotUmount => Hup(frees);
      case ModesetRequest =>
        if frees {
          FreeSession();
        }
    }

    /** Called by the event loop only as long as the descriptor is registered. */
    method SocketEvent(hup: bool, readable: bool, received: Received, frees: bool)
      requires fdPtr
      modifies this
      ensures hup || (readable && received.EndOfFile?) ==> Abstract() == LibraryNext(old(Abstract()), Broken(frees))
      ensures !hup && readable && received.Arrived? ==>
        Abstract() == LibraryNext(old(Abstract()), Message(received.h, frees))
      ensures !hup && (!readable || received.ReceiveError? || received.TooShort?) ==> Abstract() == old(Abstract())
    {
      if hup {
        Hup(frees);
      } else if readable {
        match received
        case ReceiveError => return;
        case EndOfFile => Hup(frees);
        case TooShort => return;
        case Arrived(h) => HandleEvent(h, frees);
      }
    }

    /** The user's event loop: nothing is dispatched to an unregistered descriptor. */
    method EventLoop(events: seq<LibraryEvent>)
      modifies this
      ensures Abstract() == LibraryRun(old(Abstract()), events)
    {
      hide LibraryNext;
      assert events[0..] == events;
      for i := 0 to |events|
        invariant LibraryRun(Abstract(), events[i..]) == LibraryRun(old(Abstract()), events)
      {
        assert events[i..][1..] == events[i + 1..];
        Dispatch(events[i]);
      }
    }

    method Dispatch(e: LibraryEvent)
      modifies this
      ensures Abstract() == LibraryNext(old(Abstract()), e)
    {
      match e
      case Message(h, frees) =>
        if fdPtr {
          SocketEvent(false, true, Arrived(h), frees);
        }
      case Broken(frees) =>
        if fdPtr {
          SocketEvent(true, false, ReceiveError, frees);
        }
      case UserFrees => FreeSession();
    }
  }
}
