/**
 Modeset ioctls forwarded to the user and not answered yet.  Entries are linked in front
 of a list; releasing one frees it but leaves it linked.  An event is safe when it
 touches no freed entry; this module proves what safe runs keep and says exactly when
 safety can still be relied on.
 */
module PendingList {

  import opened Bytes
  import opened Kernel

  datatype Entry = Entry(unique: nat, len: nat, released: bool)

  /** What return_success and return_error write to the kernel. */
  datatype FinalReply = FinalReply(unique: nat, result: int, payload: seq<Byte>)

  datatype State = State(waiting: seq<Entry>, replies: seq<FinalReply>)

  datatype Event =
    | Request(unique: nat, buf: seq<Byte>, pageFlip: bool, gotMemory: bool, refused: bool)
    | Response(unique: nat, result: int, buf: seq<Byte>)

  const INITIAL: State := State([], [])

  /** The first entry for this ioctl, or the end of the list. */
  function Find(waiting: seq<Entry>, unique: nat): (k: nat)
    ensures k <= |waiting|
    ensures k < |waiting| ==> waiting[k].unique == unique
    ensures forall j | 0 <= j < k :: waiting[j].unique != unique
  {
    if waiting == [] || waiting[0].unique == unique then 0 else 1 + Find(waiting[1..], unique)
  }

  /** How many entries from the head of the list an event reads or writes. */
  function Touched(s: State, e: Event): (n: nat)
    ensures n <= |s.waiting|
  {
    match e
    case Request(_, _, pageFlip, gotMemory, _) => if pageFlip || !gotMemory || s.waiting == [] then 0 else 1
    case Response(unique, _, _) =>
      var k := Find(s.waiting, unique);
      if k < |s.waiting| then k + 1 else k
  }

  predicate Safe(s: State, e: Event)
  {
    forall j | 0 <= j < Touched(s, e) :: !s.waiting[j].released
  }

  function Answer(s: State, unique: nat, result: int, payload: seq<Byte>): State
  {
    s.(replies := s.replies + [FinalReply(unique, result, payload)])
  }

  function Release(s: State, k: nat): State
    requires k < |s.waiting|
  {
    s.(waiting := s.waiting[k := s.waiting[k].(released := true)])
  }

  function Step(s: State, e: Event): State
  {
    match e
    case Request(unique, buf, pageFlip, gotMemory, refused) =>
      if pageFlip || !gotMemory then Answer(s, unique, EINVAL, buf)
      else
        var listed := s.(waiting := [Entry(unique, |buf|, false)] + s.waiting);
        if refused then Answer(Release(listed, 0), unique, EINVAL, buf) else listed
    case Response(unique, result, buf) =>
      var k := Find(s.waiting, unique);
      if k == |s.waiting| then s
      else if |buf| == s.waiting[k].len then Release(Answer(s, unique, result, buf), k)
      else Release(Answer(s, unique, EINVAL, Zeros(s.waiting[k].len)), k)
  }

  predicate SafeRun(s: State, events: seq<Event>)
    decreases |events|
  {
    events == [] || (Safe(s, events[0]) && SafeRun(Step(s, events[0]), events[1..]))
  }

  function Run(s: State, events: seq<Event>): State
    decreases |events|
  {
    if events == [] then s else Run(Step(s, events[0]), events[1..])
  }

  // ----- every request gets one final reply -----

  /** An ioctl and the length it came with. */
  datatype Ticket = Ticket(unique: nat, len: nat)

  function Requested(events: seq<Event>): multiset<Ticket>
  {
    if events == [] then multiset{}
    else if events[0].Request? then multiset{Ticket(events[0].unique, |events[0].buf|)} + Requested(events[1..])
    else Requested(events[1..])
  }

  function Answered(replies: seq<FinalReply>): multiset<Ticket>
  {
    if replies == [] then multiset{}
    else multiset{Ticket(replies[0].unique, |replies[0].payload|)} + Answered(replies[1..])
  }

  /** Forwarded and not answered. */
  function Pending(waiting: seq<Entry>): multiset<Ticket>
  {
    if waiting == [] then multiset{}
    else if waiting[0].released then Pending(waiting[1..])
    else multiset{Ticket(waiting[0].unique, waiting[0].len)} + Pending(waiting[1..])
  }

  lemma {:induction false} AnsweredAppend(replies: seq<FinalReply>, r: FinalReply)
    ensures Answered(replies + [r]) == Answered(replies) + multiset{Ticket(r.unique, |r.payload|)}
  {
    if replies == [] {
      assert [r][1..] == [];
    } else {
      assert (replies + [r])[1..] == replies[1..] + [r];
      AnsweredAppend(replies[1..], r);
    }
  }

  lemma {:induction false} PendingRelease(waiting: seq<Entry>, k: nat)
    requires k < |waiting| && !waiting[k].released
    ensures Pending(waiting[k := waiting[k].(released := true)]) + multiset{Ticket(waiting[k].unique, waiting[k].len)}
         == Pending(waiting)
  {
    if k > 0 {
      PendingRelease(waiting[1..], k - 1);
      assert waiting[k := waiting[k].(released := true)][1..] ==
             waiting[1..][k - 1 := waiting[1..][k - 1].(released := true)];
    }
  }

  lemma PendingPush(w: Entry, waiting: seq<Entry>)
    ensures Pending([w] + waiting) ==
      Pending(waiting) + if w.released then multiset{} else multiset{Ticket(w.unique, w.len)}
  {
    assert ([w] + waiting)[1..] == waiting;
  }

  lemma RequestedOne(e: Event)
    ensures Requested([e]) == if e.Request? then multiset{Ticket(e.unique, |e.buf|)} else multiset{}
  {
    assert [e][1..] == [];
  }

  /** An answer at its own length turns a waiting ioctl into an answered one. */
  lemma AnsweredMoves(s: State, k: nat, result: int, payload: seq<Byte>)
    requires k < |s.waiting| && !s.waiting[k].released && |payload| == s.waiting[k].len
    ensures var t := Release(Answer(s, s.waiting[k].unique, result, payload), k);
      Answered(t.replies) + Pending(t.waiting) == Answered(s.replies) + Pending(s.waiting)
  {
    hide Answered, Pending;
    var w := s.waiting[k];
    AnsweredAppend(s.replies, FinalReply(w.unique, result, payload));
    PendingRelease(s.waiting, k);
  }

  lemma RequestConserves(s: State, e: Event)
    requires e.Request?
    ensures Answered(Step(s, e).replies) + Pending(Step(s, e).waiting) ==
            Answered(s.replies) + Pending(s.waiting) + multiset{Ticket(e.unique, |e.buf|)}
  {
    hide Answered, Pending, Find;
    var w := Entry(e.unique, |e.buf|, false);
    if e.pageFlip || !e.gotMemory {
      AnsweredAppend(s.replies, FinalReply(e.unique, EINVAL, e.buf));
    } else {
      PendingPush(w, s.waiting);
      if e.refused {
        AnsweredMoves(s.(waiting := [w] + s.waiting), 0, EINVAL, e.buf);
      }
    }
  }

  lemma ResponseConserves(s: State, e: Event)
    requires e.Response? && Safe(s, e)
    ensures Answered(Step(s, e).replies) + Pending(Step(s, e).waiting) == Answered(s.replies) + Pending(s.waiting)
  {
    hide Answered, Pending;
    var k := Find(s.waiting, e.unique);
    if k < |s.waiting| {
      var n := s.waiting[k].len;
      if |e.buf| == n {
        AnsweredMoves(s, k, e.result, e.buf);
      } else {
        AnsweredMoves(s, k, EINVAL, Zeros(n));
      }
    }
  }

  lemma StepConserves(s: State, e: Event)
    requires Safe(s, e)
    ensures Answered(Step(s, e).replies) + Pending(Step(s, e).waiting) ==
            Answered(s.replies) + Pending(s.waiting) + Requested([e])
  {
    hide Answered, Pending, Requested, Step, Safe;
    RequestedOne(e);
    if e.Request? {
      RequestConserves(s, e);
    } else {
      ResponseConserves(s, e);
    }
  }

  lemma {:induction false} RunConserves(s: State, events: seq<Event>)
    requires SafeRun(s, events)
    ensures Answered(Run(s, events).replies) + Pending(Run(s, events).waiting) ==
            Answered(s.replies) + Pending(s.waiting) + Requested(events)
    decreases |events|
  {
    hide Step, Safe, Answered, Pending;
    if events != [] {
      StepConserves(s, events[0]);
      RunConserves(Step(s, events[0]), events[1..]);
      RequestedOne(events[0]);
    }
  }

  /**
   In a safe run, whatever the order of requests and of right, short or unknown
   responses, every request has been answered once, at its own length, or is still
   waiting.
   */
  lemma EveryRequestAnsweredOnce(events: seq<Event>)
    requires SafeRun(INITIAL, events)
    ensures var s := Run(INITIAL, events);
      Answered(s.replies) + Pending(s.waiting) == Requested(events)
  {
    RunConserves(INITIAL, events);
  }

  lemma {:induction false} ReplyAmongAnswered(replies: seq<FinalReply>, r: FinalReply)
    requires r in replies
    ensures Ticket(r.unique, |r.payload|) in Answered(replies)
  {
    if replies[0] != r {
      assert r in replies[1..];
      ReplyAmongAnswered(replies[1..], r);
    }
  }

  /** So every final reply of a safe run has the length that a request for this ioctl came with. */
  lemma RepliesHaveAskedLength(events: seq<Event>, r: FinalReply)
    requires SafeRun(INITIAL, events) && r in Run(INITIAL, events).replies
    ensures Ticket(r.unique, |r.payload|) in Requested(events)
  {
    EveryRequestAnsweredOnce(events);
    ReplyAmongAnswered(Run(INITIAL, events).replies, r);
  }

  // ----- how long the list can be relied on -----

  predicate Clean(s: State)
  {
    forall w | w in s.waiting :: !w.released
  }

  /** A unique that no entry has. */
  function Unlisted(waiting: seq<Entry>): (u: nat)
    ensures forall w | w in waiting :: w.unique < u
  {
    if waiting == [] then 0
    else
      var u := Unlisted(waiting[1..]);
      if waiting[0].unique < u then u else waiting[0].unique + 1
  }

  lemma {:induction false} NotFound(waiting: seq<Entry>, unique: nat)
    requires forall w | w in waiting :: w.unique < unique
    ensures Find(waiting, unique) == |waiting|
  {
    if waiting != [] {
      assert waiting[0] in waiting;
      NotFound(waiting[1..], unique);
    }
  }

  /** Whatever happens next is safe exactly as long as the list holds no released entry. */
  lemma SafeWhateverComes(s: State)
    ensures Clean(s) <==> forall e: Event :: Safe(s, e)
  {
    if !Clean(s) {
      var w :| w in s.waiting && w.released;
      var k :| 0 <= k < |s.waiting| && s.waiting[k] == w;
      var e := Response(Unlisted(s.waiting), 0, []);
      NotFound(s.waiting, e.unique);
      assert !Safe(s, e);
    }
  }

  /** The event answers an entry of the list, or takes back the one it has just made. */
  predicate Releases(s: State, e: Event)
  {
    match e
    case Request(_, _, pageFlip, gotMemory, refused) => !pageFlip && gotMemory && refused
    case Response(unique, _, _) => Find(s.waiting, unique) < |s.waiting|
  }

  lemma CleanUntilRelease(s: State, e: Event)
    ensures Clean(Step(s, e)) <==> Clean(s) && !Releases(s, e)
  {
    hide Find;
    if Releases(s, e) {
      var k := if e.Response? then Find(s.waiting, e.unique) else 0;
      assert Step(s, e).waiting[k].released;
    } else if e.Request? && !e.pageFlip && e.gotMemory {
      assert forall w | w in s.waiting :: w in Step(s, e).waiting;
    }
  }

  predicate ReleasesNothing(s: State, events: seq<Event>)
    decreases |events|
  {
    events == [] || (!Releases(s, events[0]) && ReleasesNothing(Step(s, events[0]), events[1..]))
  }

  lemma {:induction false} CleanRun(s: State, events: seq<Event>)
    ensures Clean(Run(s, events)) <==> Clean(s) && ReleasesNothing(s, events)
    decreases |events|
  {
    hide Clean, Releases, Step;
    if events != [] {
      CleanUntilRelease(s, events[0]);
      CleanRun(Step(s, events[0]), events[1..]);
    }
  }

  /**
   Entries are meant to be unlinked when they are released, but are not.  So the list can
   be relied on, whatever comes next, exactly as long as no response has been matched and
   no send has failed since the card was opened.
   */
  lemma ReliableExactly(events: seq<Event>)
    ensures (forall e: Event :: Safe(Run(INITIAL, events), e)) <==> ReleasesNothing(INITIAL, events)
  {
    SafeWhateverComes(Run(INITIAL, events));
    CleanRun(INITIAL, events);
  }

  function Listed(waiting: seq<Entry>): multiset<Ticket>
  {
    if waiting == [] then multiset{}
    else multiset{Ticket(waiting[0].unique, waiting[0].len)} + Listed(waiting[1..])
  }

  lemma {:induction false} PendingAmongListed(waiting: seq<Entry>)
    ensures Pending(waiting) <= Listed(waiting)
    ensures (forall w | w in waiting :: !w.released) <==> Pending(waiting) == Listed(waiting)
  {
    if waiting != [] {
      var ticket, rest := Ticket(waiting[0].unique, waiting[0].len), waiting[1..];
      PendingAmongListed(rest);
      assert forall w :: w in waiting <==> w == waiting[0] || w in rest;
      if waiting[0].released {
        assert Listed(waiting)[ticket] > Pending(waiting)[ticket];
      } else {
        assert Pending(waiting) - multiset{ticket} == Pending(rest);
        assert Listed(waiting) - multiset{ticket} == Listed(rest);
      }
    }
  }

  /** The listed ioctls are the unanswered ones exactly as long as nothing has been released. */
  lemma ListedArePendingExactly(events: seq<Event>)
    ensures var waiting := Run(INITIAL, events).waiting;
      Listed(waiting) == Pending(waiting) <==> ReleasesNothing(INITIAL, events)
  {
    CleanRun(INITIAL, events);
    PendingAmongListed(Run(INITIAL, events).waiting);
  }

  /**
   One ioctl forwarded and answered is enough: every later response, and every later
   request that gets as far as the list, touches freed memory.
   */
  lemma RoundTripPoisons(s: State, unique: nat, buf: seq<Byte>, result: int, answer: seq<Byte>, e: Event)
    ensures
      var t := Run(s, [Request(unique, buf, false, true, false), Response(unique, result, answer)]);
      Safe(t, e) <==> e.Request? && (e.pageFlip || !e.gotMemory)
  {
    var request, response := Request(unique, buf, false, true, false), Response(unique, result, answer);
    var u := Step(s, request);
    var t := Step(u, response);
    assert [request, response][1..] == [response] && [response][1..] == [];
    assert Run(s, [request, response]) == Run(u, [response]) == Run(t, []) == t;
    assert t.waiting[0].released;
    assert e.Response? ==> Touched(t, e) > 0;
  }

  function Forwarded(unique: nat): Event
  {
    Request(unique, [], false, true, false)
  }

  /** So the run of two ioctls, one after the other, is already unsafe. */
  lemma TwoIoctlsUnsafe()
    ensures !SafeRun(INITIAL, [Forwarded(1), Response(1, 0, []), Forwarded(2)])
  {
    var first, answer, second := Forwarded(1), Response(1, 0, []), Forwarded(2);
    RoundTripPoisons(INITIAL, 1, [], 0, [], second);
    assert [first, answer, second][1..] == [answer, second] && [answer, second][1..] == [second];
    assert [first, answer][1..] == [answer] && [answer][1..] == [];
    var u := Step(INITIAL, first);
    var t := Step(u, answer);
    assert Run(INITIAL, [first, answer]) == Run(u, [answer]) == Run(t, []) == t;
    assert !SafeRun(t, [second]);
    assert !SafeRun(u, [answer, second]);
  }
}
