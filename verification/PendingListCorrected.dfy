/**
 The list of waiting ioctls as it was meant to be: an entry that is released is also
 unlinked.  Every event is then safe, and every run answers each request once.
 */
module PendingListCorrected {

  import opened Bytes
  import opened Kernel
  import opened PendingList

  function Unlink(s: State, k: nat): State
    requires k < |s.waiting|
  {
    s.(waiting := s.waiting[..k] + s.waiting[k + 1..])
  }

  function CorrectedStep(s: State, e: Event): State
  {
    match e
    case Request(unique, buf, pageFlip, gotMemory, refused) =>
      if pageFlip || !gotMemory then Answer(s, unique, EINVAL, buf)
      else
        var listed := s.(waiting := [Entry(unique, |buf|, false)] + s.waiting);
        if refused then Answer(Unlink(listed, 0), unique, EINVAL, buf) else listed
    case Response(unique, result, buf) =>
      var k := Find(s.waiting, unique);
      if k == |s.waiting| then s
      else if |buf| == s.waiting[k].len then Unlink(Answer(s, unique, result, buf), k)
      else Unlink(Answer(s, unique, EINVAL, Zeros(s.waiting[k].len)), k)
  }

  function CorrectedRun(s: State, events: seq<Event>): State
    decreases |events|
  {
    if events == [] then s else CorrectedRun(CorrectedStep(s, events[0]), events[1..])
  }

  function Pushed(s: State, w: Entry): State
  {
    s.(waiting := [w] + s.waiting)
  }

  lemma UnlinkPushed(s: State, w: Entry)
    ensures Unlink(Pushed(s, w), 0) == s
  {
    var listed := [w] + s.waiting;
    assert listed[..0] + listed[1..] == s.waiting;
  }

  /** A refused request leaves the list as it was. */
  lemma RequestStep(s: State, unique: nat, buf: seq<Byte>, pageFlip: bool, gotMemory: bool, refused: bool)
    ensures CorrectedStep(s, Request(unique, buf, pageFlip, gotMemory, refused)) ==
      if pageFlip || !gotMemory || refused then Answer(s, unique, EINVAL, buf)
      else Pushed(s, Entry(unique, |buf|, false))
  {
    UnlinkPushed(s, Entry(unique, |buf|, false));
  }

  // ----- safety -----

  lemma CleanIsSafe(s: State, e: Event)
    requires Clean(s)
    ensures Safe(s, e)
  {
    hide Touched;
    assert forall j | 0 <= j < |s.waiting| :: s.waiting[j] in s.waiting;
  }

  lemma StepStaysClean(s: State, e: Event)
    requires Clean(s)
    ensures Clean(CorrectedStep(s, e))
  {
    hide Find;
  }

  lemma {:induction false} RunStaysClean(s: State, events: seq<Event>)
    requires Clean(s)
    ensures Clean(CorrectedRun(s, events))
    decreases |events|
  {
    hide Clean, CorrectedStep;
    if events != [] {
      StepStaysClean(s, events[0]);
      RunStaysClean(CorrectedStep(s, events[0]), events[1..]);
    }
  }

  /** After any run, no event can touch a freed entry. */
  lemma AlwaysSafe(events: seq<Event>, e: Event)
    ensures Safe(CorrectedRun(INITIAL, events), e)
  {
    RunStaysClean(INITIAL, events);
    CleanIsSafe(CorrectedRun(INITIAL, events), e);
  }

  // ----- every request gets one final reply -----

  lemma ListedCons(w: Entry, rest: seq<Entry>)
    ensures Listed([w] + rest) == multiset{Ticket(w.unique, w.len)} + Listed(rest)
  {
    assert ([w] + rest)[1..] == rest;
  }

  lemma {:induction false} ListedAppend(p: seq<Entry>, q: seq<Entry>)
    ensures Listed(p + q) == Listed(p) + Listed(q)
    decreases |p|
  {
    hide Listed;
    if p == [] {
      ListedNone();
      assert p + q == q;
    } else {
      var w, rest := p[0], p[1..];
      assert p == [w] + rest;
      ListedCons(w, rest);
      ListedAppend(rest, q);
      ListedCons(w, rest + q);
      assert p + q == [w] + (rest + q);
      AddedLeft(multiset{Ticket(w.unique, w.len)}, Listed(rest), Listed(q));
    }
  }

  lemma ListedNone()
    ensures Listed([]) == multiset{}
  {
  }

  lemma AddedLeft(a: multiset<Ticket>, b: multiset<Ticket>, c: multiset<Ticket>)
    ensures a + (b + c) == a + b + c
  {
  }

  lemma ListedOne(w: Entry)
    ensures Listed([w]) == multiset{Ticket(w.unique, w.len)}
  {
    assert [w][1..] == [];
  }

  lemma ListedUnlink(waiting: seq<Entry>, k: nat)
    requires k < |waiting|
    ensures Listed(waiting[..k] + waiting[k + 1..]) + multiset{Ticket(waiting[k].unique, waiting[k].len)}
         == Listed(waiting)
  {
    hide Listed;
    ListedOne(waiting[k]);
    ListedAppend(waiting[..k], waiting[k + 1..]);
    ListedAppend([waiting[k]], waiting[k + 1..]);
    ListedAppend(waiting[..k], [waiting[k]] + waiting[k + 1..]);
    assert waiting == waiting[..k] + ([waiting[k]] + waiting[k + 1..]);
  }

  lemma StepConserves(s: State, e: Event)
    ensures Answered(CorrectedStep(s, e).replies) + Listed(CorrectedStep(s, e).waiting) ==
            Answered(s.replies) + Listed(s.waiting) + Requested([e])
  {
    hide Answered, Listed, Requested, Find;
    RequestedOne(e);
    match e
    case Request(u, buf, pageFlip, gotMemory, refused) =>
      AnsweredAppend(s.replies, FinalReply(u, EINVAL, buf));
      ListedOne(Entry(u, |buf|, false));
      ListedAppend([Entry(u, |buf|, false)], s.waiting);
      var listed := [Entry(u, |buf|, false)] + s.waiting;
      assert listed[..0] + listed[1..] == s.waiting;
    case Response(u, result, buf) =>
      var k := Find(s.waiting, u);
      if k < |s.waiting| {
        AnsweredAppend(s.replies, FinalReply(u, result, buf));
        AnsweredAppend(s.replies, FinalReply(u, EINVAL, Zeros(s.waiting[k].len)));
        ListedUnlink(s.waiting, k);
        assert s.waiting[k].unique == u;
      }
  }

  lemma {:induction false} RunConserves(s: State, events: seq<Event>)
    ensures Answered(CorrectedRun(s, events).replies) + Listed(CorrectedRun(s, events).waiting) ==
            Answered(s.replies) + Listed(s.waiting) + Requested(events)
    decreases |events|
  {
    hide CorrectedStep, Answered, Listed;
    if events != [] {
      StepConserves(s, events[0]);
      RunConserves(CorrectedStep(s, events[0]), events[1..]);
      RequestedOne(events[0]);
    }
  }

  /**
   In every run, under every interleaving of requests and of right, short or unknown
   responses, the listed ioctls are exactly the requests that have not been answered,
   and every other request has been answered once, at its own length.
   */
  lemma EveryRequestAnsweredOnce(events: seq<Event>)
    ensures var s := CorrectedRun(INITIAL, events);
      Answered(s.replies) + Listed(s.waiting) == Requested(events)
  {
    RunConserves(INITIAL, events);
  }

  /** So every final reply has the length that a request for this ioctl came with. */
  lemma RepliesHaveAskedLength(events: seq<Event>, r: FinalReply)
    requires r in CorrectedRun(INITIAL, events).replies
    ensures Ticket(r.unique, |r.payload|) in Requested(events)
  {
    EveryRequestAnsweredOnce(events);
    ReplyAmongAnswered(CorrectedRun(INITIAL, events).replies, r);
  }

  // ----- the list as written agrees as long as it is safe -----

  /** The entries that have not been released. */
  function Live(waiting: seq<Entry>): seq<Entry>
  {
    if waiting == [] then []
    else if waiting[0].released then Live(waiting[1..])
    else [waiting[0]] + Live(waiting[1..])
  }

  function LiveState(s: State): State
  {
    s.(waiting := Live(s.waiting))
  }

  lemma {:induction false} LivePrefix(waiting: seq<Entry>, k: nat)
    requires k <= |waiting| && forall j | 0 <= j < k :: !waiting[j].released
    ensures Live(waiting) == waiting[..k] + Live(waiting[k..])
  {
    if k > 0 {
      assert forall j | 0 <= j < k - 1 :: waiting[1..][j] == waiting[j + 1];
      LivePrefix(waiting[1..], k - 1);
      assert waiting[1..][k - 1..] == waiting[k..];
      assert waiting[..k] == [waiting[0]] + waiting[1..][..k - 1];
    }
  }

  lemma {:induction false} FindBehind(p: seq<Entry>, q: seq<Entry>, unique: nat)
    requires forall j | 0 <= j < |p| :: p[j].unique != unique
    ensures Find(p + q, unique) == |p| + Find(q, unique)
  {
    if p == [] {
      assert p + q == q;
    } else {
      FindBehind(p[1..], q, unique);
      assert (p + q)[1..] == p[1..] + q;
    }
  }

  /** A safe response finds the same entry among the live ones, and releasing it is unlinking it there. */
  lemma LiveFind(waiting: seq<Entry>, unique: nat)
    requires var k := Find(waiting, unique);
      forall j | 0 <= j < |waiting| && j <= k :: !waiting[j].released
    ensures var k := Find(waiting, unique); var live := Live(waiting);
      && Find(live, unique) == k
      && (k == |waiting| <==> k == |live|)
      && (k < |waiting| ==>
            && live[k] == waiting[k]
            && Live(waiting[k := waiting[k].(released := true)]) == live[..k] + live[k + 1..])
  {
    hide Find;
    var k := Find(waiting, unique);
    LivePrefix(waiting, k);
    FindBehind(waiting[..k], Live(waiting[k..]), unique);
    if k < |waiting| {
      var released := waiting[k := waiting[k].(released := true)];
      LivePrefix(released, k);
      assert waiting[k..][1..] == released[k..][1..] == waiting[k + 1..];
      assert Live(waiting[k..]) == [waiting[k]] + Live(waiting[k + 1..]);
      FindFirst(Live(waiting[k..]), unique);
      assert released[..k] == waiting[..k];
    } else {
      FindFirst([], unique);
      assert waiting[k..] == [];
    }
  }

  lemma FindFirst(waiting: seq<Entry>, unique: nat)
    ensures waiting == [] || waiting[0].unique == unique ==> Find(waiting, unique) == 0
  {
  }

  lemma SafeStepAgrees(s: State, e: Event)
    requires Safe(s, e)
    ensures LiveState(Step(s, e)) == CorrectedStep(LiveState(s), e)
  {
    match e
    case Request(u, buf, pageFlip, gotMemory, refused) =>
      var listed := [Entry(u, |buf|, false)] + s.waiting;
      assert listed[1..] == s.waiting;
      assert listed[0 := listed[0].(released := true)][1..] == s.waiting;
      var live := [Entry(u, |buf|, false)] + Live(s.waiting);
      assert live[..0] + live[1..] == Live(s.waiting);
    case Response(u, result, buf) =>
      LiveFind(s.waiting, u);
  }

  /** A safe run of the list as written gives the same replies and the same waiting ioctls. */
  lemma {:induction false} SafeRunAgrees(s: State, events: seq<Event>)
    requires SafeRun(s, events)
    ensures LiveState(Run(s, events)) == CorrectedRun(LiveState(s), events)
    decreases |events|
  {
    hide Step, Safe, CorrectedStep, LiveState;
    if events != [] {
      SafeStepAgrees(s, events[0]);
      SafeRunAgrees(Step(s, events[0]), events[1..]);
    }
  }
}
