/**
 What is replied: the exact words of every reply, and the reply that each request and each
 response leads to, for the list with the unlink and for safe runs of the list as written.
 */
module PendingListReplies {

  import opened Bytes
  import opened Kernel
  import opened PendingList
  import opened PendingListCorrected

  /** -EINVAL, with which the client's ioctl fails. */
  const FAILURE: int := -22

  predicate Forwards(e: Event)
  {
    e.Request? && !e.pageFlip && e.gotMemory && !e.refused
  }

  /** The answer to an ioctl of this length. */
  function AnswerTo(len: nat, e: Event): (r: FinalReply)
    requires e.Response?
  {
    if |e.buf| == len then FinalReply(e.unique, e.result, e.buf) else FinalReply(e.unique, FAILURE, Zeros(len))
  }

  /** The reply to a request that is not forwarded carries the request's own bytes. */
  predicate RefusalOf(e: Event, r: FinalReply)
  {
    e.Request? && !Forwards(e) && r == FinalReply(e.unique, FAILURE, e.buf)
  }

  /** The request of this ioctl was forwarded, and the response is for it. */
  predicate AnswerFor(request: Event, response: Event, r: FinalReply)
  {
    && Forwards(request) && response.Response? && request.unique == response.unique
    && r == AnswerTo(|request.buf|, response)
  }

  /** A reply has one of two causes: a request that was refused, or a response to an earlier, forwarded one. */
  ghost predicate Justified(events: seq<Event>, r: FinalReply)
  {
    || (exists i | 0 <= i < |events| :: RefusalOf(events[i], r))
    || (exists i, j | 0 <= i < j < |events| :: AnswerFor(events[i], events[j], r))
  }

  predicate ForwardedAs(e: Event, w: Entry)
  {
    Forwards(e) && w.unique == e.unique && w.len == |e.buf|
  }

  /** A listed ioctl has been forwarded with the length that is listed. */
  ghost predicate Known(events: seq<Event>, w: Entry)
  {
    exists i | 0 <= i < |events| :: ForwardedAs(events[i], w)
  }

  lemma JustifiedLater(events: seq<Event>, e: Event, r: FinalReply)
    requires Justified(events, r)
    ensures Justified(events + [e], r)
  {
    hide RefusalOf, AnswerFor;
    var later := events + [e];
    assert forall i | 0 <= i < |events| :: later[i] == events[i];
    if i :| 0 <= i < |events| && RefusalOf(events[i], r) {
      assert RefusalOf(later[i], r);
    } else {
      var i, j :| 0 <= i < j < |events| && AnswerFor(events[i], events[j], r);
      assert AnswerFor(later[i], later[j], r);
    }
  }

  lemma KnownLater(events: seq<Event>, e: Event, w: Entry)
    requires Known(events, w)
    ensures Known(events + [e], w)
  {
    hide ForwardedAs;
    var i :| 0 <= i < |events| && ForwardedAs(events[i], w);
    assert (events + [e])[i] == events[i];
  }

  /** What a step adds to the replies. */
  lemma ReplyAdded(s: State, e: Event)
    ensures var t := CorrectedStep(s, e); var k := Find(s.waiting, e.unique);
      && (e.Request? && !Forwards(e) ==>
            t.replies == s.replies + [FinalReply(e.unique, FAILURE, e.buf)] && t.waiting == s.waiting)
      && (Forwards(e) ==>
            t.replies == s.replies && t.waiting == [Entry(e.unique, |e.buf|, false)] + s.waiting)
      && (e.Response? && k < |s.waiting| ==>
            && t.replies == s.replies + [AnswerTo(s.waiting[k].len, e)]
            && t.waiting == s.waiting[..k] + s.waiting[k + 1..])
      && (e.Response? && k == |s.waiting| ==> t == s)
  {
    hide Find;
    if e.Request? {
      RequestStep(s, e.unique, e.buf, e.pageFlip, e.gotMemory, e.refused);
    }
  }

  ghost predicate AllJustified(events: seq<Event>, s: State)
  {
    && (forall w | w in s.waiting :: Known(events, w))
    && (forall r | r in s.replies :: Justified(events, r))
  }

  lemma StepJustified(events: seq<Event>, s: State, e: Event)
    requires AllJustified(events, s)
    ensures AllJustified(events + [e], CorrectedStep(s, e))
  {
    hide Find, CorrectedStep, Known, Justified, AnswerTo;
    var t := CorrectedStep(s, e);
    var later := events + [e];
    ReplyAdded(s, e);
    forall w | w in s.waiting
      ensures Known(later, w)
    {
      KnownLater(events, e, w);
    }
    forall r | r in s.replies
      ensures Justified(later, r)
    {
      JustifiedLater(events, e, r);
    }
    var k := Find(s.waiting, e.unique);
    if Forwards(e) {
      NewKnown(events, e);
    } else if e.Request? {
      RefusalJustified(events, e);
    } else if k < |s.waiting| {
      assert s.waiting[k] in s.waiting && s.waiting[k].unique == e.unique;
      AnswerJustified(events, e, s.waiting[k]);
    }
  }

  lemma NewKnown(events: seq<Event>, e: Event)
    requires Forwards(e)
    ensures Known(events + [e], Entry(e.unique, |e.buf|, false))
  {
    assert ForwardedAs((events + [e])[|events|], Entry(e.unique, |e.buf|, false));
  }

  lemma RefusalJustified(events: seq<Event>, e: Event)
    requires e.Request? && !Forwards(e)
    ensures Justified(events + [e], FinalReply(e.unique, FAILURE, e.buf))
  {
    assert RefusalOf((events + [e])[|events|], FinalReply(e.unique, FAILURE, e.buf));
  }

  lemma AnswerJustified(events: seq<Event>, e: Event, w: Entry)
    requires Known(events, w) && e.Response? && w.unique == e.unique
    ensures Justified(events + [e], AnswerTo(w.len, e))
  {
    var later := events + [e];
    var i :| 0 <= i < |events| && ForwardedAs(events[i], w);
    assert AnswerFor(later[i], later[|events|], AnswerTo(w.len, e));
  }

  lemma {:induction false} RunJustified(events: seq<Event>)
    ensures AllJustified(events, CorrectedRun(INITIAL, events))
    decreases |events|
  {
    hide AllJustified, CorrectedStep;
    if events == [] {
      NothingToJustify();
    } else {
      var before, e := events[..|events| - 1], events[|events| - 1];
      assert events == before + [e];
      RunJustified(before);
      RunSnoc(INITIAL, before, e);
      StepJustified(before, CorrectedRun(INITIAL, before), e);
    }
  }

  lemma NothingToJustify()
    ensures AllJustified([], INITIAL)
  {
  }

  lemma {:induction false} RunAppend(s: State, p: seq<Event>, q: seq<Event>)
    ensures CorrectedRun(s, p + q) == CorrectedRun(CorrectedRun(s, p), q)
    decreases |p|
  {
    hide CorrectedStep;
    if p == [] {
      assert p + q == q;
    } else {
      RunAppend(CorrectedStep(s, p[0]), p[1..], q);
      assert (p + q)[1..] == p[1..] + q;
    }
  }

  lemma RunSnoc(s: State, p: seq<Event>, e: Event)
    ensures CorrectedRun(s, p + [e]) == CorrectedStep(CorrectedRun(s, p), e)
  {
    RunAppend(s, p, [e]);
    assert [e][1..] == [];
  }

  /**
   Every reply of every run is the exact result and bytes of a response of the right length
   to a forwarded request, or fails with -22, carrying the request's own bytes if it was not
   forwarded and zeros of its length if the response has another one.
   */
  lemma RepliesJustified(events: seq<Event>, r: FinalReply)
    requires r in CorrectedRun(INITIAL, events).replies
    ensures Justified(events, r)
  {
    RunJustified(events);
  }

  /** So it is, as long as the list as written is safe. */
  lemma SafeRepliesJustified(events: seq<Event>, r: FinalReply)
    requires SafeRun(INITIAL, events) && r in Run(INITIAL, events).replies
    ensures Justified(events, r)
  {
    SafeRunAgrees(INITIAL, events);
    RepliesJustified(events, r);
  }

  /** A request that is not forwarded is replied to at once, and nothing else happens. */
  lemma RefusedAtOnce(events: seq<Event>, e: Event)
    requires e.Request? && !Forwards(e)
    ensures var s := CorrectedRun(INITIAL, events);
      CorrectedRun(INITIAL, events + [e]) == s.(replies := s.replies + [FinalReply(e.unique, FAILURE, e.buf)])
  {
    RunSnoc(INITIAL, events, e);
    ReplyAdded(CorrectedRun(INITIAL, events), e);
  }

  // ----- from a request to its answer -----

  /** No other event is about this ioctl. */
  predicate Silent(events: seq<Event>, unique: nat)
  {
    forall e | e in events :: e.unique != unique
  }

  /** The newest entry for this ioctl is at k. */
  predicate FirstAt(waiting: seq<Entry>, k: nat, w: Entry)
  {
    k < |waiting| && waiting[k] == w && forall j | 0 <= j < k :: waiting[j].unique != w.unique
  }

  lemma FirstFound(waiting: seq<Entry>, k: nat, w: Entry)
    requires FirstAt(waiting, k, w)
    ensures Find(waiting, w.unique) == k && k < |waiting| && waiting[k] == w
  {
    hide Find;
    var f := Find(waiting, w.unique);
    assert f <= k;
  }

  lemma OthersKeep(s: State, e: Event, k: nat, w: Entry) returns (k': nat)
    requires FirstAt(s.waiting, k, w) && e.unique != w.unique
    ensures FirstAt(CorrectedStep(s, e).waiting, k', w)
  {
    hide Find, CorrectedStep, AnswerTo;
    ReplyAdded(s, e);
    var f := Find(s.waiting, e.unique);
    k' := if Forwards(e) then k + 1 else if e.Response? && f < k then k - 1 else k;
  }

  lemma {:induction false} StaysListed(s: State, events: seq<Event>, k: nat, w: Entry) returns (k': nat)
    requires FirstAt(s.waiting, k, w) && Silent(events, w.unique)
    ensures FirstAt(CorrectedRun(s, events).waiting, k', w)
    decreases |events|
  {
    hide CorrectedStep, FirstAt;
    k' := k;
    if events != [] {
      k' := OthersKeep(s, events[0], k, w);
      k' := StaysListed(CorrectedStep(s, events[0]), events[1..], k', w);
    }
  }

  /**
   An ioctl that is forwarded is answered by the first response to it, whatever comes before
   and in between: with its result and its bytes if their length is right, and else with
   failure and zeros.
   */
  lemma AnsweredByResponse(before: seq<Event>, request: Event, between: seq<Event>, response: Event)
    requires Forwards(request) && response.Response? && response.unique == request.unique
    requires Silent(between, request.unique)
    ensures var waiting := before + [request] + between;
      CorrectedRun(INITIAL, waiting + [response]).replies
      == CorrectedRun(INITIAL, waiting).replies + [AnswerTo(|request.buf|, response)]
  {
    hide CorrectedStep, CorrectedRun, Find, AnswerTo;
    var w := Entry(request.unique, |request.buf|, false);
    var s0 := CorrectedRun(INITIAL, before);
    ReplyAdded(s0, request);
    var s1 := CorrectedStep(s0, request);
    assert FirstAt(s1.waiting, 0, w);
    var k := StaysListed(s1, between, 0, w);
    var s2 := CorrectedRun(s1, between);
    FirstFound(s2.waiting, k, w);
    ReplyAdded(s2, response);
    RunSnoc(INITIAL, before, request);
    RunAppend(INITIAL, before + [request], between);
    RunSnoc(INITIAL, before + [request] + between, response);
  }

  /** One ioctl, answered by seven and two bytes. */
  lemma OneRoundTrip()
    ensures Run(INITIAL, [Request(1, [9, 9], false, true, false), Response(1, 7, [5, 6])]).replies
         == [FinalReply(1, 7, [5, 6])]
  {
    var events := [Request(1, [9, 9], false, true, false), Response(1, 7, [5, 6])];
    assert events[1..] == [Response(1, 7, [5, 6])] && events[1..][1..] == [];
  }
}
