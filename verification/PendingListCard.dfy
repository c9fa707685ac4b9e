/**
 The card's list of waiting ioctls as it is linked in memory: next pointers, and for each
 entry the address of the pointer that leads to it.  Every access to an entry is shown to
 be to one that has not been freed, as long as the event is safe.
 */
module PendingListCard {

  import opened Bytes
  import opened Kernel
  import opened PendingList
  import opened PendingListCorrected

  /** The address of a pointer to an entry: the card's own, or the next field of another entry. */
  datatype Address = ListHead | NextOf(w: Wait)

  class Wait {
    var next: Wait?
    var prevP: Address
    var unique: nat
    var bufferLen: nat
    var freed: bool

    constructor (unique: nat, bufferLen: nat)
      ensures this.unique == unique && this.bufferLen == bufferLen && !freed
    {
      this.unique, this.bufferLen := unique, bufferLen;
      next, prevP, freed := null, ListHead, false;
    }
  }

  ghost function Values(entries: seq<Wait>): (r: seq<Entry>)
    reads entries`unique, entries`bufferLen, entries`freed
    ensures |r| == |entries|
    ensures forall i | 0 <= i < |r| :: r[i] == Entry(entries[i].unique, entries[i].bufferLen, entries[i].freed)
  {
    if entries == [] then []
    else [Entry(entries[0].unique, entries[0].bufferLen, entries[0].freed)] + Values(entries[1..])
  }

  ghost function Head(entries: seq<Wait>): Wait?
  {
    if entries == [] then null else entries[0]
  }

  /** next leads through the entries in order; prevP holds the address of the pointer that leads to each. */
  ghost predicate Linked(entries: seq<Wait>, from: Address)
    reads entries`next, entries`prevP
  {
    entries == [] ||
    (&& entries[0] !in entries[1..]
     && entries[0].prevP == from
     && entries[0].next == Head(entries[1..])
     && Linked(entries[1..], NextOf(entries[0])))
  }

  lemma {:induction false} LinkedDistinct(entries: seq<Wait>, from: Address, k: nat)
    requires Linked(entries, from) && k < |entries|
    ensures forall i | 0 <= i < |entries| && i != k :: entries[i] != entries[k]
  {
    if k > 0 {
      LinkedDistinct(entries[1..], NextOf(entries[0]), k - 1);
    }
  }

  /** The links of the entry at i, seen from its neighbours. */
  ghost predicate LinksAt(entries: seq<Wait>, from: Address, i: int)
    requires 0 <= i < |entries|
    reads entries`next, entries`prevP
  {
    && entries[i].next == (if i + 1 < |entries| then entries[i + 1] else null)
    && entries[i].prevP == (if i == 0 then from else NextOf(entries[i - 1]))
  }

  lemma {:induction false} LinkedAt(entries: seq<Wait>, from: Address, i: nat)
    requires Linked(entries, from) && i < |entries|
    ensures LinksAt(entries, from, i)
  {
    if i > 0 {
      LinkedAt(entries[1..], NextOf(entries[0]), i - 1);
    }
  }

  lemma {:induction false} LinkedFromAll(entries: seq<Wait>, from: Address)
    requires forall i, j | 0 <= i < j < |entries| :: entries[i] != entries[j]
    requires forall i | 0 <= i < |entries| :: LinksAt(entries, from, i)
    ensures Linked(entries, from)
  {
    if entries != [] {
      var rest := entries[1..];
      forall i | 0 <= i < |rest|
        ensures LinksAt(rest, NextOf(entries[0]), i)
      {
        assert LinksAt(entries, from, i + 1);
      }
      LinkedFromAll(rest, NextOf(entries[0]));
      assert LinksAt(entries, from, 0);
    }
  }

  /** The entries have these values if each has. */
  lemma Pointwise(entries: seq<Wait>, values: seq<Entry>)
    requires |values| == |entries|
    requires forall i | 0 <= i < |entries| ::
      values[i] == Entry(entries[i].unique, entries[i].bufferLen, entries[i].freed)
    ensures Values(entries) == values
  {
    hide Values;
  }

  class Card {
    var ioctlsWaiting: Wait?
    var replies: seq<FinalReply>
    ghost var entries: seq<Wait>

    ghost predicate Valid()
      reads this`ioctlsWaiting, this`entries, entries`next, entries`prevP
    {
      ioctlsWaiting == Head(entries) && Linked(entries, ListHead)
    }

    ghost function Abstract(): State
      reads this, entries
    {
      State(Values(entries), replies)
    }

    constructor ()
      ensures Valid() && Abstract() == INITIAL
    {
      ioctlsWaiting, replies, entries := null, [], [];
    }

    method IoctlWaitNew(unique: nat, bufferLen: nat, gotMemory: bool) returns (w: Wait?)
      requires Valid() && (gotMemory && entries != [] ==> !entries[0].freed)
      modifies this`ioctlsWaiting, this`entries, entries
      ensures Valid() && (w == null <==> !gotMemory)
      ensures w == null ==> entries == old(entries) && Abstract() == old(Abstract())
      ensures w != null ==>
        && fresh(w) && !w.freed && entries == [w] + old(entries)
        && Abstract() == Pushed(old(Abstract()), Entry(unique, bufferLen, false))
    {
      hide Values;
      if !gotMemory {
        return null;
      }
      ghost var was := entries;
      assert was != [] ==> Linked(was[1..], NextOf(was[0]));
      w := new Wait(unique, bufferLen);
      var next := ioctlsWaiting;
      w.next := next;
      w.prevP := ListHead;
      ioctlsWaiting := w;
      if next != null {
        next.prevP := NextOf(w);
      }
      assert was != [] ==> Linked(was[1..], NextOf(was[0]));
      assert Linked(was, NextOf(w));
      entries := [w] + entries;
      assert entries[1..] == was;
      assert w !in entries[1..];
      assert w.prevP == ListHead;
      assert w.next == Head(was);
      assert Linked(entries, ListHead);
      Pointwise(entries, [Entry(unique, bufferLen, false)] + old(Values(entries)));
    }

    /** Gives the entry back to the allocator, and nothing else. */
    method IoctlWaitFree(w: Wait)
      requires !w.freed
      modifies w`freed
      ensures w.freed
    {
      w.freed := true;
    }

    /** The same for the entry at k in the list. */
    method Release(w: Wait, ghost k: nat)
      requires Valid() && k < |entries| && entries[k] == w && !w.freed
      modifies w`freed
      ensures Valid() && k < |Values(entries)|
      ensures Abstract() == PendingList.Release(old(Abstract()), k)
    {
      hide Values;
      LinkedDistinct(entries, ListHead, k);
      IoctlWaitFree(w);
      Pointwise(entries, old(Values(entries))[k := Entry(w.unique, w.bufferLen, true)]);
    }

    method ReturnReply(unique: nat, result: int, buf: seq<Byte>)
      modifies this`replies
      ensures Abstract() == Answer(old(Abstract()), unique, result, buf)
    {
      replies := replies + [FinalReply(unique, result, buf)];
    }

    method Modeset(unique: nat, buf: seq<Byte>, pageFlip: bool, gotMemory: bool, refused: bool)
      requires Valid() && Safe(Abstract(), Request(unique, buf, pageFlip, gotMemory, refused))
      modifies this, entries
      ensures Valid()
      ensures Abstract() == Step(old(Abstract()), Request(unique, buf, pageFlip, gotMemory, refused))
    {
      hide Values, Valid;
      if pageFlip {
        ReturnReply(unique, EINVAL, buf);
        return;
      }
      assert entries != [] && gotMemory ==> !Abstract().waiting[0].released;
      var w := IoctlWaitNew(unique, |buf|, gotMemory);
      if w == null {
        ReturnReply(unique, EINVAL, buf);
        return;
      }
      if refused {
        Release(w, 0);
        ReturnReply(unique, EINVAL, buf);
      }
    }

    /** The loop of card_modeset_ioctl_response: the first entry with this unique, if there is one. */
    method FindWaiting(unique: nat) returns (w: Wait?, ghost k: nat)
      requires Valid() && Safe(Abstract(), Response(unique, 0, []))
      ensures k == Find(Values(entries), unique)
      ensures w == if k < |entries| then entries[k] else null
      ensures w != null ==> !w.freed
    {
      hide Values, Find;
      ghost var values := Values(entries);
      ghost var found := Find(values, unique);
      w, k := ioctlsWaiting, 0;
      while w != null && w.unique != unique
        invariant 0 <= k <= found && k <= |entries| && w == Head(entries[k..])
        invariant k < |entries| ==> Linked(entries[k..], entries[k].prevP)
        invariant w != null ==> !w.freed
        decreases |entries| - k
      {
        assert values[k].unique == w.unique;
        assert entries[k..][1..] == entries[k + 1..];
        w := w.next;
        k := k + 1;
        assert k < |entries| ==> k < Touched(Abstract(), Response(unique, 0, [])) && !values[k].released;
      }
    }

    method ModesetIoctlResponse(unique: nat, result: int, buf: seq<Byte>)
      requires Valid() && Safe(Abstract(), Response(unique, result, buf))
      modifies this`replies, entries
      ensures Valid() && entries == old(entries)
      ensures Abstract() == Step(old(Abstract()), Response(unique, result, buf))
    {
      hide Values, Find, Valid;
      var w, k := FindWaiting(unique);
      if w == null {
        return;
      }
      if |buf| != w.bufferLen {
        ReturnReply(unique, EINVAL, Zeros(w.bufferLen));
        Release(w, k);
        return;
      }
      ReturnReply(unique, result, buf);
      Release(w, k);
    }

    // ----- with the missing unlink -----

    /** What next and prev_p are kept for: *prev_p = next, next->prev_p = prev_p. */
    method Unlink(w: Wait, ghost k: nat)
      requires Valid() && k < |entries| && entries[k] == w
      modifies this`ioctlsWaiting, this`entries, entries`next, entries`prevP
      ensures Valid()
      ensures entries == old(entries)[..k] + old(entries)[k + 1..]
    {
      hide Linked;
      ghost var was := entries;
      AllDistinct(was, ListHead);
      forall i | 0 <= i < |was|
        ensures LinksAt(was, ListHead, i)
      {
        LinkedAt(was, ListHead, i);
      }
      assert LinksAt(was, ListHead, k);
      assert k > 0 ==> LinksAt(was, ListHead, k - 1);
      assert k + 1 < |was| ==> LinksAt(was, ListHead, k + 1);
      match w.prevP {
        case ListHead => ioctlsWaiting := w.next;
        case NextOf(v) => v.next := w.next;
      }
      if w.next != null {
        w.next.prevP := w.prevP;
      }
      entries := was[..k] + was[k + 1..];
      forall i | 0 <= i < |entries|
        ensures LinksAt(entries, ListHead, i)
      {
        assert old(LinksAt(was, ListHead, if i < k then i else i + 1));
      }
      LinkedFromAll(entries, ListHead);
      HeadOfRest(was, k);
    }

    method UnlinkAndFree(w: Wait, ghost k: nat)
      requires Valid() && k < |entries| && entries[k] == w && !w.freed
      modifies this`ioctlsWaiting, this`entries, entries
      ensures Valid() && w.freed
      ensures entries == old(entries)[..k] + old(entries)[k + 1..]
      ensures Abstract() == PendingListCorrected.Unlink(old(Abstract()), k)
    {
      hide Values, Linked;
      AllDistinct(entries, ListHead);
      Unlink(w, k);
      IoctlWaitFree(w);
      Pointwise(entries, old(Values(entries))[..k] + old(Values(entries))[k + 1..]);
    }

    /** The label e_send: the newest entry is given back. */
    method Refuse(w: Wait, unique: nat, buf: seq<Byte>)
      requires Valid() && entries != [] && entries[0] == w && !w.freed
      modifies this, entries
      ensures Valid() && |old(Values(entries))| > 0
      ensures Abstract() == Answer(PendingListCorrected.Unlink(old(Abstract()), 0), unique, EINVAL, buf)
    {
      hide Values, Valid, PendingListCorrected.Unlink;
      UnlinkAndFree(w, 0);
      ReturnReply(unique, EINVAL, buf);
    }

    method ModesetCorrected(unique: nat, buf: seq<Byte>, pageFlip: bool, gotMemory: bool, refused: bool)
      requires Valid() && Clean(Abstract())
      modifies this, entries
      ensures Valid() && Clean(Abstract())
      ensures Abstract() == CorrectedStep(old(Abstract()), Request(unique, buf, pageFlip, gotMemory, refused))
    {
      hide Values, Valid, Clean, CorrectedStep, Pushed, PendingListCorrected.Unlink, Answer, Head, Linked;
      ghost var s := Abstract();
      RequestStep(s, unique, buf, pageFlip, gotMemory, refused);
      StepStaysClean(s, Request(unique, buf, pageFlip, gotMemory, refused));
      CleanHead(s);
      if pageFlip {
        ReturnReply(unique, EINVAL, buf);
        return;
      }
      var w := IoctlWaitNew(unique, |buf|, gotMemory);
      if w == null {
        ReturnReply(unique, EINVAL, buf);
        return;
      }
      if refused {
        UnlinkPushed(s, Entry(unique, |buf|, false));
        Refuse(w, unique, buf);
      }
    }

    method ModesetIoctlResponseCorrected(unique: nat, result: int, buf: seq<Byte>)
      requires Valid() && Clean(Abstract())
      modifies this, entries
      ensures Valid() && Clean(Abstract())
      ensures Abstract() == CorrectedStep(old(Abstract()), Response(unique, result, buf))
    {
      hide Values, Find, Valid, Clean, Safe;
      StepStaysClean(Abstract(), Response(unique, result, buf));
      CleanIsSafe(Abstract(), Response(unique, 0, []));
      var w, k := FindWaiting(unique);
      if w == null {
        return;
      }
      if |buf| != w.bufferLen {
        ReturnReply(unique, EINVAL, Zeros(w.bufferLen));
        UnlinkAndFree(w, k);
        return;
      }
      ReturnReply(unique, result, buf);
      UnlinkAndFree(w, k);
    }
  }

  lemma AllDistinct(entries: seq<Wait>, from: Address)
    requires Linked(entries, from)
    ensures forall i, j | 0 <= i < j < |entries| :: entries[i] != entries[j]
  {
    hide Linked;
    forall k: nat | k < |entries|
      ensures forall i | 0 <= i < |entries| && i != k :: entries[i] != entries[k]
    {
      LinkedDistinct(entries, from, k);
    }
  }

  lemma CleanHead(s: State)
    requires Clean(s)
    ensures s.waiting != [] ==> !s.waiting[0].released
  {
  }

  lemma HeadOfRest(entries: seq<Wait>, k: nat)
    requires k < |entries|
    ensures Head(entries[..k] + entries[k + 1..]) ==
      if k > 0 then entries[0] else if |entries| > 1 then entries[1] else null
  {
  }
}
