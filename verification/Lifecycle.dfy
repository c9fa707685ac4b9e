/**
 The life of one session: two reference flags, at most one fork, and signals, socket
 events and the umount notification arriving in any order.  Facts about the operating
 system that the helper depends on are part of the state: whether the marker file
 system is still mounted outside the session's namespace, whether the namespace has
 processes, and which end of the child waitpid has told already.
 */
module Lifecycle {

  datatype Header = GotSigchld | GotUmount | ModesetRequest

  /** What has become of the child: waitpid tells its end once, and answers -1 from then on. */
  datatype ChildEnd = StillRunning | Exited | Killed

  datatype Event =
    | SignalIgnored
    | SignalPipe
    | SignalChild(end: ChildEnd)    // what has become of the child by then
    | SocketHup
    | SocketCommand(cloned: bool)   // whether clone succeeds
    | SocketOther
    | FuseHup
    | FuseReadable
    | ClientIoctl(carried: bool)    // whether sendmsg succeeds
    | NamespaceEmpties

  datatype State = State(
    sessionRef: bool, outsideRef: bool, haveForked: bool, child: bool, fuseRegistered: bool,
    mountedOutside: bool, namespaceAlive: bool, collected: ChildEnd, clones: nat, sent: seq<Header>)

  const INITIAL: State := State(false, true, false, false, true, true, false, StillRunning, 0, [])

  /** poll() on the FUSE descriptor: the marker is mounted nowhere any more. */
  predicate HasHup(s: State)
  {
    !s.mountedOutside && !s.namespaceAlive
  }

  /** The condition of the main loop. */
  predicate Looping(s: State)
  {
    s.sessionRef || s.outsideRef
  }

  predicate Enabled(s: State, e: Event)
  {
    match e
    case FuseHup => s.fuseRegistered && HasHup(s)
    case FuseReadable => s.fuseRegistered
    case NamespaceEmpties => s.namespaceAlive
    case _ => true
  }

  function Send(s: State, h: Header): State
  {
    if s.outsideRef then s.(sent := s.sent + [h]) else s
  }

  function Step(s: State, e: Event): State
  {
    match e
    case SignalIgnored => s
    case SignalPipe => s.(outsideRef := false)
    case SignalChild(end) =>
      if !s.child || HasHup(s) || s.collected != StillRunning || end == StillRunning then s
      else if end == Killed then s.(collected := Killed)
      else Send(s.(child := false, collected := Exited), GotSigchld)
    case SocketHup => s.(outsideRef := false)
    case SocketCommand(cloned) =>
      if s.haveForked then s
      else if !cloned then s.(haveForked := true)
      else s.(haveForked := true, child := true, sessionRef := true,
              mountedOutside := false, namespaceAlive := true, collected := StillRunning, clones := s.clones + 1)
    case SocketOther => s
    case FuseHup => Send(s.(sessionRef := false), GotUmount).(fuseRegistered := false)
    case FuseReadable => s
    case ClientIoctl(carried) => if carried then Send(s, ModesetRequest) else s
    case NamespaceEmpties => s.(namespaceAlive := false)
  }

  /** A run: events that cannot occur, and events after the loop has ended, have no effect. */
  function Next(s: State, e: Event): State
  {
    if Looping(s) && Enabled(s, e) then Step(s, e) else s
  }

  function Run(s: State, events: seq<Event>): State
    decreases |events|
  {
    if events == [] then s else Run(Next(s, events[0]), events[1..])
  }

  function Count(sent: seq<Header>, h: Header): nat
  {
    if sent == [] then 0 else (if sent[0] == h then 1 else 0) + Count(sent[1..], h)
  }

  lemma {:induction false} CountAppend(sent: seq<Header>, h: Header, x: Header)
    ensures Count(sent + [x], h) == Count(sent, h) + (if x == h then 1 else 0)
  {
    if sent == [] {
      assert [x][1..] == [];
    } else {
      CountAppend(sent[1..], h, x);
      assert (sent + [x])[1..] == sent[1..] + [x];
    }
  }

  /** A report of the child's exit never follows the report that the session has ended. */
  predicate Ordered(sent: seq<Header>)
  {
    forall i, j | 0 <= i < j < |sent| :: sent[i] == GotUmount ==> sent[j] != GotSigchld
  }

  predicate Invariant(s: State)
  {
    && s.clones == (if s.mountedOutside then 0 else 1)
    && (s.clones == 1 ==> s.haveForked)
    && (s.child <==> s.clones == 1 && s.collected != Exited)
    && (s.collected != StillRunning ==> s.clones == 1)
    && (s.namespaceAlive ==> s.sessionRef && s.clones == 1)
    && (s.sessionRef ==> s.fuseRegistered && s.clones == 1)
    && (!s.fuseRegistered ==> HasHup(s))
    && Count(s.sent, GotSigchld) <= (if s.collected == Exited then 1 else 0)
    && Count(s.sent, GotUmount) + (if s.fuseRegistered then 1 else 0) <= 1
    && (GotUmount in s.sent ==> HasHup(s))
    && Ordered(s.sent)
    && (s.outsideRef ==>
          && Count(s.sent, GotSigchld) == (if s.collected == Exited then 1 else 0)
          && Count(s.sent, GotUmount) + (if s.fuseRegistered then 1 else 0) == 1)
  }

  lemma InitialInvariant()
    ensures Invariant(INITIAL)
  {
  }

  lemma NextKeepsInvariant(s: State, e: Event)
    requires Invariant(s)
    ensures Invariant(Next(s, e))
  {
    hide Count;
    forall x: Header, h: Header
      ensures Count(s.sent + [x], h) == Count(s.sent, h) + (if x == h then 1 else 0)
    {
      CountAppend(s.sent, h, x);
    }
  }

  lemma {:induction false} RunKeepsInvariant(s: State, events: seq<Event>)
    requires Invariant(s)
    ensures Invariant(Run(s, events))
    decreases |events|
  {
    hide Invariant, Next;
    if events != [] {
      NextKeepsInvariant(s, events[0]);
      RunKeepsInvariant(Next(s, events[0]), events[1..]);
    }
  }

  lemma {:induction false} RunAppend(s: State, p: seq<Event>, q: seq<Event>)
    ensures Run(s, p + q) == Run(Run(s, p), q)
    decreases |p|
  {
    hide Next;
    if p == [] {
      assert p + q == q;
    } else {
      RunAppend(Next(s, p[0]), p[1..], q);
      assert (p + q)[1..] == p[1..] + q;
    }
  }

  // ----- safety over all event sequences -----

  /**
   At most one clone, at most one report of the child's exit and one of the session's
   end, in that order only; and the session's end is reported only when it has ended.
   */
  lemma ReportsAtMostOnce(events: seq<Event>)
    ensures var s := Run(INITIAL, events);
      && s.clones <= 1
      && Count(s.sent, GotSigchld) <= s.clones
      && Count(s.sent, GotUmount) <= s.clones
      && Ordered(s.sent)
      && (GotUmount in s.sent ==> !s.namespaceAlive && s.clones == 1)
  {
    hide Count;
    InitialInvariant();
    RunKeepsInvariant(INITIAL, events);
    var s := Run(INITIAL, events);
    NotCounted(s.sent, GotUmount);
  }

  lemma {:induction false} NotCounted(sent: seq<Header>, h: Header)
    ensures Count(sent, h) > 0 <==> h in sent
  {
    if sent != [] {
      NotCounted(sent[1..], h);
      assert h in sent <==> sent[0] == h || h in sent[1..];
    }
  }

  /** The first end of the child that waitpid tells in a run: it is asked on SIGCHLD before the umount only. */
  function FirstEnd(s: State, events: seq<Event>): ChildEnd
    decreases |events|
  {
    if events == [] then StillRunning
    else if events[0].SignalChild? && events[0].end != StillRunning && s.child && !HasHup(s) && Looping(s) then
      events[0].end
    else FirstEnd(Next(s, events[0]), events[1..])
  }

  lemma {:induction false} CollectedFirst(s: State, events: seq<Event>)
    requires Invariant(s)
    ensures Run(s, events).collected == if s.collected == StillRunning then FirstEnd(s, events) else s.collected
    decreases |events|
  {
    hide Count, Ordered;
    if events != [] {
      NextKeepsInvariant(s, events[0]);
      CollectedFirst(Next(s, events[0]), events[1..]);
    }
  }

  /**
   While the user is there nothing is lost: the child's end has been reported exactly when
   the first end that waitpid told was an exit, the session's end exactly when the umount
   was noticed.
   */
  lemma NothingLostBeforeHup(events: seq<Event>)
    requires Run(INITIAL, events).outsideRef
    ensures var s := Run(INITIAL, events);
      && (GotSigchld in s.sent <==> FirstEnd(INITIAL, events) == Exited)
      && (GotUmount in s.sent <==> !s.fuseRegistered)
  {
    hide Count, Ordered;
    InitialInvariant();
    RunKeepsInvariant(INITIAL, events);
    CollectedFirst(INITIAL, events);
    var s := Run(INITIAL, events);
    NotCounted(s.sent, GotSigchld);
    NotCounted(s.sent, GotUmount);
  }

  /** A child that a signal has killed is collected without a report, and no report of it ever follows. */
  lemma KilledNeverReported(events: seq<Event>, more: seq<Event>)
    requires FirstEnd(INITIAL, events) == Killed
    ensures var t := Run(INITIAL, events + more);
      t.child && GotSigchld !in t.sent
  {
    hide Count, Ordered;
    InitialInvariant();
    CollectedFirst(INITIAL, events);
    RunKeepsInvariant(INITIAL, events);
    CollectedFirst(Run(INITIAL, events), more);
    RunAppend(INITIAL, events, more);
    RunKeepsInvariant(INITIAL, events + more);
    NotCounted(Run(INITIAL, events + more).sent, GotSigchld);
  }

  /** The helper does not leave its loop while the session has processes. */
  lemma LoopOutlivesSession(events: seq<Event>)
    ensures var s := Run(INITIAL, events);
      s.namespaceAlive ==> Looping(s)
  {
    InitialInvariant();
    RunKeepsInvariant(INITIAL, events);
  }

  /** It does leave once the user is gone and, if a session was started, its end has been noticed. */
  lemma LoopEndsExactly(events: seq<Event>)
    ensures var s := Run(INITIAL, events);
      !Looping(s) <==> !s.outsideRef && (s.clones == 1 ==> !s.fuseRegistered)
  {
    InitialInvariant();
    RunKeepsInvariant(INITIAL, events);
    StartedExactly(events);
  }

  /** The session reference is held exactly from the clone to the umount notification. */
  lemma StartedExactly(events: seq<Event>)
    ensures var s := Run(INITIAL, events);
      s.sessionRef <==> s.clones == 1 && s.fuseRegistered
  {
    HeldFrom(INITIAL, events);
  }

  lemma {:induction false} HeldFrom(s: State, events: seq<Event>)
    requires Invariant(s) && (s.sessionRef <==> s.clones == 1 && s.fuseRegistered)
    ensures var t := Run(s, events);
      t.sessionRef <==> t.clones == 1 && t.fuseRegistered
    decreases |events|
  {
    hide Count, Ordered;
    if events != [] {
      NextKeepsInvariant(s, events[0]);
      HeldFrom(Next(s, events[0]), events[1..]);
    }
  }

  /** A lost outside reference never comes back, and nothing is sent without it. */
  lemma {:induction false} OutsideStaysLost(s: State, events: seq<Event>)
    requires !s.outsideRef
    ensures !Run(s, events).outsideRef && Run(s, events).sent == s.sent
    decreases |events|
  {
    if events != [] {
      OutsideStaysLost(Next(s, events[0]), events[1..]);
    }
  }

  lemma SilentAfterLoss(events: seq<Event>, more: seq<Event>)
    requires !Run(INITIAL, events).outsideRef
    ensures var t := Run(INITIAL, events + more);
      !t.outsideRef && t.sent == Run(INITIAL, events).sent
  {
    RunAppend(INITIAL, events, more);
    OutsideStaysLost(Run(INITIAL, events), more);
  }

  /** Once the namespace is empty and unmounted outside, no exit of the child is reported any more. */
  lemma {:induction false} NoSigchldAfterHup(s: State, events: seq<Event>)
    requires Invariant(s) && HasHup(s)
    ensures HasHup(Run(s, events)) && Count(Run(s, events).sent, GotSigchld) == Count(s.sent, GotSigchld)
    decreases |events|
  {
    hide Count, Ordered;
    if events != [] {
      var t := Next(s, events[0]);
      CountAppend(s.sent, GotSigchld, GotUmount);
      CountAppend(s.sent, GotSigchld, ModesetRequest);
      NextKeepsInvariant(s, events[0]);
      NoSigchldAfterHup(t, events[1..]);
    }
  }

  // ----- the library at the other end of the socket -----

  datatype Library = Library(
    wantsSigchld: bool, registered: bool, freed: bool, unregistrations: nat, exits: nat, sigchlds: nat)

  /** frees: the user's callback, if this calls one, calls session_free. */
  datatype LibraryEvent = Message(h: Header, frees: bool) | Broken(frees: bool) | UserFrees

  function Opened(wantsSigchld: bool): Library
  {
    Library(wantsSigchld, true, false, 0, 0, 0)
  }

  function Unregister(l: Library): Library
  {
    l.(registered := false, unregistrations := l.unregistrations + 1)
  }

  /** session_free: unregisters what is still registered. */
  function Free(l: Library): Library
  {
    if l.freed then l else (if l.registered then Unregister(l) else l).(freed := true)
  }

  /** on_exit is called first, and the descriptor is unregistered after it, whatever it did. */
  function HungUp(l: Library, frees: bool): Library
  {
    var told := l.(exits := l.exits + 1);
    Unregister(if frees then Free(told) else told)
  }

  function Handle(l: Library, h: Header, frees: bool): Library
  {
    match h
    case GotSigchld =>
      if !l.wantsSigchld then l
      else
        var told := l.(sigchlds := l.sigchlds + 1);
        if frees then Free(told) else told
    case GotUmount => HungUp(l, frees)
    case ModesetRequest => if frees then Free(l) else l
  }

  /** Events of the socket stop when the descriptor is unregistered. */
  function LibraryNext(l: Library, e: LibraryEvent): Library
  {
    match e
    case Message(h, frees) => if l.registered then Handle(l, h, frees) else l
    case Broken(frees) => if l.registered then HungUp(l, frees) else l
    case UserFrees => Free(l)
  }

  function LibraryRun(l: Library, events: seq<LibraryEvent>): Library
    decreases |events|
  {
    if events == [] then l else LibraryRun(LibraryNext(l, events[0]), events[1..])
  }

  /** The user frees the session from within on_exit. */
  predicate FreesInExit(l: Library, e: LibraryEvent)
  {
    l.registered && ((e.Message? && e.h == GotUmount && e.frees) || (e.Broken? && e.frees))
  }

  predicate NeverFreesInExit(l: Library, events: seq<LibraryEvent>)
    decreases |events|
  {
    events == [] || (!FreesInExit(l, events[0]) && NeverFreesInExit(LibraryNext(l, events[0]), events[1..]))
  }

  predicate LibraryInvariant(l: Library)
  {
    && (l.registered ==> l.unregistrations == 0 && l.exits == 0 && !l.freed)
    && (!l.registered ==> 1 <= l.unregistrations <= 2)
    && l.exits <= 1
  }

  lemma {:induction false} LibraryKeeps(l: Library, events: seq<LibraryEvent>)
    requires LibraryInvariant(l)
    ensures var l' := LibraryRun(l, events);
      && LibraryInvariant(l')
      && (l'.unregistrations == 2 <==> l.unregistrations == 2 || !NeverFreesInExit(l, events))
    decreases |events|
  {
    if events != [] {
      LibraryKeeps(LibraryNext(l, events[0]), events[1..]);
    }
  }

  /**
   Whatever messages arrive and whenever the user frees the session, on_exit is called
   at most once; and the descriptor is unregistered at most once if and only if the
   user never frees the session from within on_exit.
   */
  lemma UnregisteredOnceExactly(wantsSigchld: bool, events: seq<LibraryEvent>)
    ensures var l := LibraryRun(Opened(wantsSigchld), events);
      && l.exits <= 1
      && (l.unregistrations == 0 <==> l.registered)
      && (l.unregistrations <= 1 <==> NeverFreesInExit(Opened(wantsSigchld), events))
  {
    LibraryKeeps(Opened(wantsSigchld), events);
  }

  /** Freeing it there does unregister twice, the second time from freed memory. */
  lemma FreeInExitUnregistersTwice(wantsSigchld: bool)
    ensures LibraryRun(Opened(wantsSigchld), [Message(GotUmount, true)]).unregistrations == 2
  {
    assert [Message(GotUmount, true)][1..] == [];
  }

  // ----- both processes -----

  datatype System = System(helper: State, library: Library, received: nat)

  datatype SystemEvent = HelperEvent(e: Event) | Receive(frees: bool) | SocketBroken(frees: bool) | UserFreesSession

  function Started(wantsSigchld: bool): System
  {
    System(INITIAL, Opened(wantsSigchld), 0)
  }

  /** What a step of the system is for the library. */
  function LibraryEvents(y: System, e: SystemEvent): seq<LibraryEvent>
  {
    match e
    case HelperEvent(_) => []
    case Receive(frees) =>
      if !y.library.registered || y.received >= |y.helper.sent| then []
      else [Message(y.helper.sent[y.received], frees)]
    case SocketBroken(frees) => [Broken(frees)]
    case UserFreesSession => [UserFrees]
  }

  function SystemNext(y: System, e: SystemEvent): System
  {
    var library := LibraryRun(y.library, LibraryEvents(y, e));
    match e
    case HelperEvent(h) => y.(helper := Next(y.helper, h))
    case Receive(_) =>
      System(y.helper, library, y.received + |LibraryEvents(y, e)|)
    case SocketBroken(_) => y.(library := library)
    case UserFreesSession => y.(library := library)
  }

  function SystemRun(y: System, events: seq<SystemEvent>): System
    decreases |events|
  {
    if events == [] then y else SystemRun(SystemNext(y, events[0]), events[1..])
  }

  /** What a run of the system is for the library. */
  function Delivered(y: System, events: seq<SystemEvent>): seq<LibraryEvent>
    decreases |events|
  {
    if events == [] then [] else LibraryEvents(y, events[0]) + Delivered(SystemNext(y, events[0]), events[1..])
  }

  lemma {:induction false} LibraryRunAppend(l: Library, p: seq<LibraryEvent>, q: seq<LibraryEvent>)
    ensures LibraryRun(l, p + q) == LibraryRun(LibraryRun(l, p), q)
    decreases |p|
  {
    hide LibraryNext;
    if p == [] {
      assert p + q == q;
    } else {
      LibraryRunAppend(LibraryNext(l, p[0]), p[1..], q);
      assert (p + q)[1..] == p[1..] + q;
    }
  }

  lemma {:induction false} LibraryInSystem(y: System, events: seq<SystemEvent>)
    ensures SystemRun(y, events).library == LibraryRun(y.library, Delivered(y, events))
    decreases |events|
  {
    hide LibraryNext, Next;
    if events != [] {
      LibraryInSystem(SystemNext(y, events[0]), events[1..]);
      LibraryRunAppend(y.library, LibraryEvents(y, events[0]), Delivered(SystemNext(y, events[0]), events[1..]));
    }
  }

  /** The library has heard of no more exits than the helper has reported up to there. */
  predicate SystemInvariant(y: System)
  {
    && Invariant(y.helper)
    && y.received <= |y.helper.sent|
    && y.library.sigchlds <= Count(y.helper.sent[..y.received], GotSigchld)
  }

  lemma {:induction false} CountPrefix(sent: seq<Header>, k: nat, h: Header)
    requires k <= |sent|
    ensures Count(sent[..k], h) <= Count(sent, h)
  {
    if k > 0 {
      CountPrefix(sent[1..], k - 1, h);
      assert sent[..k][1..] == sent[1..][..k - 1];
    }
  }

  lemma SentGrows(s: State, e: Event)
    ensures s.sent <= Next(s, e).sent
  {
    hide HasHup, Enabled, Looping;
    match e
    case SignalChild(end) =>
    case FuseHup =>
    case ClientIoctl(carried) =>
    case _ =>
  }

  lemma OneEvent(l: Library, e: LibraryEvent)
    ensures LibraryRun(l, [e]) == LibraryNext(l, e)
  {
    assert [e][1..] == [];
  }

  lemma SystemNextKeepsInvariant(y: System, e: SystemEvent)
    requires SystemInvariant(y)
    ensures SystemInvariant(SystemNext(y, e))
  {
    hide Count, Invariant, Next, LibraryRun;
    match e
    case HelperEvent(h) =>
      NextKeepsInvariant(y.helper, h);
      SentGrows(y.helper, h);
      assert Next(y.helper, h).sent[..y.received] == y.helper.sent[..y.received];
    case Receive(frees) =>
      if y.library.registered && y.received < |y.helper.sent| {
        var h := y.helper.sent[y.received];
        OneEvent(y.library, Message(h, frees));
        CountAppend(y.helper.sent[..y.received], GotSigchld, h);
        assert y.helper.sent[..y.received + 1] == y.helper.sent[..y.received] + [h];
      } else {
        NoEvent(y.library);
      }
    case SocketBroken(frees) => OneEvent(y.library, Broken(frees));
    case UserFreesSession => OneEvent(y.library, UserFrees);
  }

  lemma NoEvent(l: Library)
    ensures LibraryRun(l, []) == l
  {
  }

  lemma {:induction false} SystemRunKeepsInvariant(y: System, events: seq<SystemEvent>)
    requires SystemInvariant(y)
    ensures SystemInvariant(SystemRun(y, events))
    decreases |events|
  {
    hide SystemInvariant, SystemNext;
    if events != [] {
      SystemNextKeepsInvariant(y, events[0]);
      SystemRunKeepsInvariant(SystemNext(y, events[0]), events[1..]);
    }
  }

  /**
   Whatever the interleaving of both processes and the user, the user is told at most
   once that the session is over and at most once that the child has exited, and the
   descriptor is unregistered at most once exactly if the user never frees the session
   from within on_exit.
   */
  lemma UserToldAtMostOnce(wantsSigchld: bool, events: seq<SystemEvent>)
    ensures var y := Started(wantsSigchld); var l := SystemRun(y, events).library;
      && l.exits <= 1 && l.sigchlds <= 1
      && (l.unregistrations <= 1 <==> NeverFreesInExit(y.library, Delivered(y, events)))
  {
    hide Count;
    var y0 := Started(wantsSigchld);
    InitialInvariant();
    assert INITIAL.sent[..0] == [];
    CountNothing();
    SystemRunKeepsInvariant(y0, events);
    var y := SystemRun(y0, events);
    CountPrefix(y.helper.sent, y.received, GotSigchld);
    LibraryInSystem(y0, events);
    UnregisteredOnceExactly(wantsSigchld, Delivered(y0, events));
  }

  lemma CountNothing()
    ensures Count([], GotSigchld) == 0
  {
  }
}
