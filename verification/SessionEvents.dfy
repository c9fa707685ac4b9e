/**
 The life of a session read off the events alone: when the user is lost, whether a command
 was started, when the loop ends, what has been sent, and what the user has been told.
 */
module SessionEvents {

  import opened Lifecycle
  import opened Options

  /** A hangup of the socket, or a send on it that failed. */
  predicate Loss(e: Event)
  {
    e == SocketHup || e == SignalPipe
  }

  /** What follows the first command, if it comes while the user is there and clone succeeds. */
  function AfterClone(events: seq<Event>): Option<seq<Event>>
  {
    if events == [] || Loss(events[0]) then None
    else if events[0].SocketCommand? then if events[0].cloned then Some(events[1..]) else None
    else AfterClone(events[1..])
  }

  /** The namespace has become empty, and then the hangup of the marker has been seen. */
  predicate Umounted(events: seq<Event>, emptied: bool)
  {
    if events == [] then false
    else if emptied && events[0] == FuseHup then true
    else Umounted(events[1..], emptied || events[0] == NamespaceEmpties)
  }

  /** The same, before the user is lost. */
  predicate UmountedInTime(events: seq<Event>, emptied: bool)
  {
    if events == [] || Loss(events[0]) then false
    else if emptied && events[0] == FuseHup then true
    else UmountedInTime(events[1..], emptied || events[0] == NamespaceEmpties)
  }

  /** The child is found to have exited before anything happened that keeps it from being found. */
  predicate ExitedInTime(events: seq<Event>)
  {
    if events == [] || Loss(events[0]) || events[0] == NamespaceEmpties || events[0] == SignalChild(Killed) then false
    else events[0] == SignalChild(Exited) || ExitedInTime(events[1..])
  }

  /** The client ioctls that were carried over the socket before the user was lost. */
  function Carried(events: seq<Event>): nat
  {
    if events == [] || Loss(events[0]) then 0
    else (if events[0] == ClientIoctl(true) then 1 else 0) + Carried(events[1..])
  }

  // ----- the user -----

  lemma OutsideStep(s: State, e: Event)
    ensures Next(s, e).outsideRef <==> s.outsideRef && !Loss(e)
  {
    hide HasHup;
    match e
    case SocketHup =>
    case SignalPipe =>
    case _ =>
  }

  lemma {:induction false} OutsideHeld(s: State, events: seq<Event>)
    ensures Run(s, events).outsideRef <==> s.outsideRef && SocketHup !in events && SignalPipe !in events
    decreases |events|
  {
    hide Next;
    if events != [] {
      OutsideStep(s, events[0]);
      OutsideHeld(Next(s, events[0]), events[1..]);
      assert events == [events[0]] + events[1..];
    }
  }

  /** The outside reference is lost by a hangup of the socket or a SIGPIPE, and by nothing else. */
  lemma OutsideLostExactly(events: seq<Event>)
    ensures Run(INITIAL, events).outsideRef <==> SocketHup !in events && SignalPipe !in events
  {
    OutsideHeld(INITIAL, events);
  }

  // ----- after the clone -----

  /** A session is running: started, and its end not noticed. */
  predicate Running(s: State)
  {
    Invariant(s) && s.clones == 1 && s.fuseRegistered && s.sessionRef && s.haveForked
  }

  lemma OneStep(s: State, e: Event)
    requires Running(s)
    ensures var t := Next(s, e); var ends := !s.namespaceAlive && e == FuseHup;
      && Invariant(t) && t.clones == 1 && t.haveForked
      && (ends <==> !t.fuseRegistered) && (ends <==> !t.sessionRef)
      && t.namespaceAlive == (s.namespaceAlive && e != NamespaceEmpties)
      && t.outsideRef == (s.outsideRef && !Loss(e))
      && (GotUmount in t.sent <==> GotUmount in s.sent || (ends && s.outsideRef))
      && (GotSigchld in t.sent <==>
            || GotSigchld in s.sent
            || (s.collected == StillRunning && s.namespaceAlive && s.outsideRef && e == SignalChild(Exited)))
      && (t.collected == StillRunning <==>
            && s.collected == StillRunning
            && !(s.namespaceAlive && (e == SignalChild(Exited) || e == SignalChild(Killed))))
  {
    hide Count, Ordered;
    NextKeepsInvariant(s, e);
  }

  lemma {:induction false} Finished(s: State, events: seq<Event>)
    requires Invariant(s) && !s.fuseRegistered && s.clones == 1
    ensures var t := Run(s, events);
      && Invariant(t) && !t.fuseRegistered && t.clones == 1
      && (GotUmount in t.sent <==> GotUmount in s.sent)
      && (GotSigchld in t.sent <==> GotSigchld in s.sent)
    decreases |events|
  {
    hide Count, Ordered;
    if events != [] {
      NextKeepsInvariant(s, events[0]);
      Finished(Next(s, events[0]), events[1..]);
    }
  }

  lemma {:induction false} Runs(s: State, events: seq<Event>)
    requires Running(s)
    ensures var t := Run(s, events);
      && t.clones == 1
      && (!t.fuseRegistered <==> Umounted(events, !s.namespaceAlive))
      && (GotUmount in t.sent <==>
            GotUmount in s.sent || (s.outsideRef && UmountedInTime(events, !s.namespaceAlive)))
      && (GotSigchld in t.sent <==>
            || GotSigchld in s.sent
            || (s.outsideRef && s.collected == StillRunning && s.namespaceAlive && ExitedInTime(events)))
    decreases |events|
  {
    hide Next, Invariant;
    if events != [] {
      OneStep(s, events[0]);
      var t := Next(s, events[0]);
      if t.fuseRegistered {
        Runs(t, events[1..]);
      } else {
        Finished(t, events[1..]);
      }
    }
  }

  // ----- before the clone -----

  /** Nothing has been started, and nothing will be any more. */
  lemma {:induction false} NeverStarted(s: State, events: seq<Event>)
    requires s.clones == 0 && s.fuseRegistered && !s.sessionRef && !s.child && s.mountedOutside
    requires s.haveForked || !s.outsideRef
    ensures var t := Run(s, events);
      && t.clones == 0 && t.fuseRegistered
      && (GotUmount in t.sent <==> GotUmount in s.sent)
      && (GotSigchld in t.sent <==> GotSigchld in s.sent)
    decreases |events|
  {
    if events != [] {
      NeverStarted(Next(s, events[0]), events[1..]);
    }
  }

  /** The helper waits for a command. */
  predicate Waiting(s: State)
  {
    && Invariant(s) && s.clones == 0 && s.outsideRef && !s.haveForked && s.fuseRegistered && !s.sessionRef
    && !s.namespaceAlive && s.collected == StillRunning
    && GotUmount !in s.sent && GotSigchld !in s.sent
  }

  lemma WaitingStep(s: State, e: Event)
    requires Waiting(s)
    ensures var t := Next(s, e);
      && (Loss(e) || e == SocketCommand(false) ==>
            && t.clones == 0 && t.fuseRegistered && !t.sessionRef && !t.child && t.mountedOutside
            && (t.haveForked || !t.outsideRef) && t.sent == s.sent)
      && (e == SocketCommand(true) ==>
            Running(t) && t.namespaceAlive && t.outsideRef && t.collected == StillRunning && t.sent == s.sent)
      && (!Loss(e) && !e.SocketCommand? ==> Waiting(t))
  {
    hide Count, Ordered;
    NextKeepsInvariant(s, e);
  }

  lemma {:induction false} FromTheStart(s: State, events: seq<Event>)
    requires Waiting(s)
    ensures var t := Run(s, events); var after := AfterClone(events);
      && t.clones == (if after.Some? then 1 else 0)
      && (!t.fuseRegistered <==> after.Some? && Umounted(after.value, false))
      && (GotUmount in t.sent <==> after.Some? && UmountedInTime(after.value, false))
      && (GotSigchld in t.sent <==> after.Some? && ExitedInTime(after.value))
    decreases |events|
  {
    hide Next, Invariant, Running;
    if events != [] {
      var e, t := events[0], Next(s, events[0]);
      WaitingStep(s, e);
      if Loss(e) || e == SocketCommand(false) {
        NeverStarted(t, events[1..]);
      } else if e == SocketCommand(true) {
        Runs(t, events[1..]);
      } else {
        FromTheStart(t, events[1..]);
      }
    }
  }

  lemma InitialWaits()
    ensures Waiting(INITIAL)
  {
  }

  // ----- results -----

  /** A session is started exactly by the first command, if the user is still there and clone succeeds. */
  lemma StartedByFirstCommand(events: seq<Event>)
    ensures Run(INITIAL, events).clones == if AfterClone(events).Some? then 1 else 0
  {
    hide Waiting;
    InitialWaits();
    FromTheStart(INITIAL, events);
  }

  /**
   The loop goes on exactly as long as the user is there, or a session has been started and
   not been followed by its namespace becoming empty and the hangup of the marker.
   */
  lemma LoopGoesOnExactly(events: seq<Event>)
    ensures Looping(Run(INITIAL, events)) <==>
      || (SocketHup !in events && SignalPipe !in events)
      || (AfterClone(events).Some? && !Umounted(AfterClone(events).value, false))
  {
    hide Waiting, Run;
    InitialWaits();
    FromTheStart(INITIAL, events);
    OutsideHeld(INITIAL, events);
    LoopEndsExactly(events);
  }

  /**
   What has been sent: the child's exit, the session's end and the client's ioctls, each
   exactly if it happened before the user was lost.
   */
  lemma SentExactly(events: seq<Event>)
    ensures var sent, after := Run(INITIAL, events).sent, AfterClone(events);
      && Count(sent, GotSigchld) == (if after.Some? && ExitedInTime(after.value) then 1 else 0)
      && Count(sent, GotUmount) == (if after.Some? && UmountedInTime(after.value, false) then 1 else 0)
      && Count(sent, ModesetRequest) == Carried(events)
  {
    hide Waiting, Run, Count, Ordered;
    InitialWaits();
    FromTheStart(INITIAL, events);
    ReportsAtMostOnce(events);
    NotCounted(Run(INITIAL, events).sent, GotSigchld);
    NotCounted(Run(INITIAL, events).sent, GotUmount);
    CarriedCounted(INITIAL, events);
    NothingCounted();
  }

  lemma NothingCounted()
    ensures Count([], ModesetRequest) == 0
  {
  }

  lemma SentByStep(s: State, e: Event)
    requires s.outsideRef
    ensures var sent := Next(s, e).sent;
      if e == ClientIoctl(true) then sent == s.sent + [ModesetRequest]
      else sent == s.sent || sent == s.sent + [GotSigchld] || sent == s.sent + [GotUmount]
  {
    hide HasHup, Enabled;
    match e
    case SignalChild(end) =>
    case FuseHup =>
    case ClientIoctl(carried) => assert Enabled(s, e) by { Possible(s, e); }
    case _ =>
  }

  lemma Possible(s: State, e: Event)
    requires e.ClientIoctl?
    ensures Enabled(s, e)
  {
  }

  lemma CarriedStep(s: State, e: Event)
    requires s.outsideRef
    ensures Count(Next(s, e).sent, ModesetRequest) ==
      Count(s.sent, ModesetRequest) + if e == ClientIoctl(true) then 1 else 0
    ensures Next(s, e).outsideRef <==> !Loss(e)
  {
    hide Count, Next;
    OutsideStep(s, e);
    SentByStep(s, e);
    CountAppend(s.sent, ModesetRequest, GotSigchld);
    CountAppend(s.sent, ModesetRequest, GotUmount);
    CountAppend(s.sent, ModesetRequest, ModesetRequest);
  }

  lemma {:induction false} CarriedCounted(s: State, events: seq<Event>)
    requires s.outsideRef
    ensures Count(Run(s, events).sent, ModesetRequest) == Count(s.sent, ModesetRequest) + Carried(events)
    decreases |events|
  {
    hide Count, Next;
    if events != [] {
      CarriedStep(s, events[0]);
      var t := Next(s, events[0]);
      if Loss(events[0]) {
        OutsideStaysLost(t, events[1..]);
      } else {
        CarriedCounted(t, events[1..]);
      }
    }
  }

  // ----- what the user is told -----

  /** The library hears of the session's end. */
  predicate Ends(e: LibraryEvent)
  {
    e.Broken? || (e.Message? && e.h == GotUmount)
  }

  /** The user's callback, if this calls one, or the user frees the session. */
  predicate Frees(wantsSigchld: bool, e: LibraryEvent)
  {
    match e
    case UserFrees => true
    case Broken(frees) => frees
    case Message(h, frees) => frees && (h == GotSigchld ==> wantsSigchld)
  }

  /** How often on_exit is called: once, if the end is heard of before the user frees the session. */
  function ExitsTold(wantsSigchld: bool, events: seq<LibraryEvent>): nat
  {
    if events == [] then 0
    else if Ends(events[0]) then 1
    else if Frees(wantsSigchld, events[0]) then 0
    else ExitsTold(wantsSigchld, events[1..])
  }

  /** How often on_sigchld is called: for every GOT_SIGCHLD up to there. */
  function SigchldsTold(wantsSigchld: bool, events: seq<LibraryEvent>): nat
  {
    if events == [] || Ends(events[0]) then 0
    else
      (if wantsSigchld && events[0].Message? && events[0].h == GotSigchld then 1 else 0)
      + (if Frees(wantsSigchld, events[0]) then 0 else SigchldsTold(wantsSigchld, events[1..]))
  }

  lemma {:induction false} NothingHeard(l: Library, events: seq<LibraryEvent>)
    requires !l.registered
    ensures var t := LibraryRun(l, events);
      !t.registered && t.exits == l.exits && t.sigchlds == l.sigchlds
    decreases |events|
  {
    if events != [] {
      NothingHeard(LibraryNext(l, events[0]), events[1..]);
    }
  }

  lemma {:induction false} Heard(l: Library, events: seq<LibraryEvent>)
    requires l.registered && !l.freed
    ensures var t := LibraryRun(l, events);
      && t.exits == l.exits + ExitsTold(l.wantsSigchld, events)
      && t.sigchlds == l.sigchlds + SigchldsTold(l.wantsSigchld, events)
    decreases |events|
  {
    if events != [] {
      var t := LibraryNext(l, events[0]);
      if t.registered {
        Heard(t, events[1..]);
      } else {
        NothingHeard(t, events[1..]);
      }
    }
  }

  /**
   The user is told of the session's end exactly if it is heard of before the session is
   freed, and of every exit that is heard of before either, if the callback was given.
   */
  lemma UserToldExactly(wantsSigchld: bool, events: seq<LibraryEvent>)
    ensures var l := LibraryRun(Opened(wantsSigchld), events);
      l.exits == ExitsTold(wantsSigchld, events) && l.sigchlds == SigchldsTold(wantsSigchld, events)
  {
    Heard(Opened(wantsSigchld), events);
  }
}
