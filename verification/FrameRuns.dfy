/** What every interleaving of requests, responses and thread passes keeps. */
module FrameRuns {
  import opened Binary
  import opened BdpWire
  import opened FrameQueue
  import opened Sequences

  // ---------- the invariant, piece by piece ----------

  /** Queue order is the order in which the requests were accepted. */
  ghost predicate IdsOk(q: seq<Entry>, n: nat)
  {
    && (forall i :: 0 <= i < |q| ==> q[i].id < n)
    && (forall i, j :: 0 <= i < j < |q| ==> q[i].id < q[j].id)
  }

  ghost predicate EntryOk(e: Entry)
  {
    && e.info.header.seqNum == 1 + e.id % 255
    && e.info.retry <= RETRY_MAX
    && WellFormed(e.info.Bytes())
  }

  ghost predicate EntriesOk(q: seq<Entry>)
  {
    forall i :: 0 <= i < |q| ==> EntryOk(q[i])
  }

  /** An active frame has no earlier frame of its device before it: it is the first of its device, and it
      is the only active one. */
  ghost predicate OrderOk(q: seq<Entry>)
  {
    forall i, j :: 0 <= i < j < |q| && q[j].info.active ==> q[i].info.devNum != q[j].info.devNum
  }

  function SendsOf(info: FrameInfo): (n: nat)
  {
    if info.active then info.retry + 1 else 0
  }

  ghost predicate Queued(q: seq<Entry>, id: nat)
  {
    exists i :: 0 <= i < |q| && q[i].id == id
  }

  /** How often each frame has been handed to svsBdpFrameSend. */
  ghost predicate SendsOk(q: seq<Entry>, log: seq<Event>, n: nat)
  {
    && (forall i :: 0 <= i < |q| ==> Count(log, Sends, q[i].id) == SendsOf(q[i].info))
    && (forall id: nat :: Count(log, Sends, id) <= 1 + RETRY_MAX)
    && (forall id: nat :: id >= n ==> Count(log, Sends, id) == 0)
  }

  /** Every accepted frame is either still queued or has left exactly once. */
  ghost predicate LeavesOk(q: seq<Entry>, log: seq<Event>, n: nat)
  {
    forall id: nat :: Count(log, Leaves, id) == (if id < n && !Queued(q, id) then 1 else 0)
  }

  /** A client hears of a frame at most once, and only when a response took it from the queue. */
  ghost predicate NoticesOk(log: seq<Event>)
  {
    forall id: nat :: Count(log, Notices, id) <= Count(log, Answers, id) <= Count(log, Leaves, id)
  }

  ghost predicate Increasing(ids: seq<nat>)
  {
    forall i, j :: 0 <= i < j < |ids| ==> ids[i] < ids[j]
  }

  /** First transmissions to a device happen in queue order, and idle frames come after them. */
  ghost predicate FirstsOk(q: seq<Entry>, log: seq<Event>)
  {
    forall devNum: nat ::
      && Increasing(Firsts(log, devNum))
      && forall i, x :: 0 <= i < |q| && !q[i].info.active && q[i].info.devNum == devNum && x in Firsts(log, devNum)
           ==> x < q[i].id
  }

  ghost predicate SentOk(log: seq<Event>)
  {
    forall i :: 0 <= i < |log| && log[i].Sent? ==> WellFormed(log[i].frame)
  }

  /** How often a frame has been sent by the time it leaves. */
  predicate ReasonFits(reason: Reason, sends: nat)
  {
    match reason
    case Answered => true
    case NoResponseDue => sends == 1
    case Exhausted => sends == 1 + RETRY_MAX
  }

  ghost predicate ReasonsOk(log: seq<Event>)
  {
    forall i :: 0 <= i < |log| && log[i].Left? ==> ReasonFits(log[i].reason, Count(log, Sends, log[i].id))
  }

  ghost predicate Inv(q: seq<Entry>, log: seq<Event>, n: nat)
  {
    && IdsOk(q, n)
    && EntriesOk(q)
    && OrderOk(q)
    && SendsOk(q, log, n)
    && LeavesOk(q, log, n)
    && NoticesOk(log)
    && FirstsOk(q, log)
    && SentOk(log)
    && ReasonsOk(log)
  }

  ghost predicate ServerInv(s: Server)
  {
    && |s.queue| <= ACTIVE_MAX
    && s.seqNum == 1 + s.nextId % 255
    && Inv(s.queue, s.log, s.nextId)
  }

  // ---------- a frame leaves ----------

  lemma WithoutAt(q: seq<Entry>, i: nat, k: nat)
    requires i < |q| && k < |q| - 1
    ensures Without(q, i)[k] == q[if k < i then k else k + 1]
  {
  }

  lemma QueuedWithout(q: seq<Entry>, i: nat, id: nat, n: nat)
    requires IdsOk(q, n) && i < |q|
    ensures Queued(Without(q, i), id) <==> Queued(q, id) && id != q[i].id
  {
    var r := Without(q, i);
    if Queued(q, id) && id != q[i].id {
      var k :| 0 <= k < |q| && q[k].id == id;
      assert r[if k < i then k else k - 1].id == id;
    }
    if Queued(r, id) {
      var k :| 0 <= k < |r| && r[k].id == id;
      WithoutAt(q, i, k);
    }
  }

  lemma LeaveOrder(q: seq<Entry>, i: nat, n: nat)
    requires IdsOk(q, n) && OrderOk(q) && i < |q|
    ensures IdsOk(Without(q, i), n) && OrderOk(Without(q, i))
  {
    var r := Without(q, i);
    forall k | 0 <= k < |r| ensures r[k] == q[if k < i then k else k + 1] { WithoutAt(q, i, k); }
  }

  lemma LeaveEntries(q: seq<Entry>, i: nat)
    requires EntriesOk(q) && i < |q|
    ensures EntriesOk(Without(q, i))
  {
    forall k | 0 <= k < |q| - 1 ensures EntryOk(Without(q, i)[k]) { WithoutAt(q, i, k); }
  }

  lemma CountsAppend(log: seq<Event>, ev: Event)
    ensures forall kind, id: nat ::
              Count(log + [ev], kind, id) == Count(log, kind, id) + (if Is(ev, kind, id) then 1 else 0)
  {
    forall kind, id: nat
      ensures Count(log + [ev], kind, id) == Count(log, kind, id) + (if Is(ev, kind, id) then 1 else 0)
    {
      CountAppend(log, ev, kind, id);
    }
  }

  /** The counting part of a departure. */
  lemma LeaveCounts(q: seq<Entry>, log: seq<Event>, n: nat, i: nat, e: Event)
    requires SendsOk(q, log, n) && LeavesOk(q, log, n) && NoticesOk(log) && IdsOk(q, n)
    requires i < |q| && e.Left? && e.id == q[i].id
    ensures var r, log' := Without(q, i), log + [e];
            SendsOk(r, log', n) && LeavesOk(r, log', n) && NoticesOk(log')
  {
    var r := Without(q, i);
    CountsAppend(log, e);
    forall k | 0 <= k < |r| ensures r[k] == q[if k < i then k else k + 1] { WithoutAt(q, i, k); }
    forall id: nat ensures Queued(r, id) <==> Queued(q, id) && id != q[i].id { QueuedWithout(q, i, id, n); }
    assert Queued(q, q[i].id);
  }

  lemma LeaveFirsts(q: seq<Entry>, log: seq<Event>, i: nat, e: Event)
    requires FirstsOk(q, log) && i < |q| && e.Left?
    ensures FirstsOk(Without(q, i), log + [e])
  {
    var r := Without(q, i);
    forall k | 0 <= k < |r| ensures r[k] == q[if k < i then k else k + 1] { WithoutAt(q, i, k); }
    forall devNum: nat ensures Firsts(log + [e], devNum) == Firsts(log, devNum) { FirstsAppend(log, e, devNum); }
  }

  lemma {:induction false} LeftCounted(log: seq<Event>, i: nat)
    requires i < |log| && log[i].Left?
    ensures Count(log, Leaves, log[i].id) > 0
    decreases |log|
  {
    if i < |log| - 1 {
      LeftCounted(log[..|log| - 1], i);
    }
  }

  /** A departure fits the transmissions so far, and a frame that has left is not sent again. */
  lemma ReasonsAppend(log: seq<Event>, ev: Event)
    requires ReasonsOk(log)
    requires ev.Sent? ==> Count(log, Leaves, ev.id) == 0
    requires ev.Left? ==> ReasonFits(ev.reason, Count(log, Sends, ev.id))
    ensures ReasonsOk(log + [ev])
  {
    var log' := log + [ev];
    forall i | 0 <= i < |log'| && log'[i].Left?
      ensures ReasonFits(log'[i].reason, Count(log', Sends, log'[i].id))
    {
      CountAppend(log, ev, Sends, log'[i].id);
      if i < |log| {
        LeftCounted(log, i);
      }
    }
  }

  /** A frame leaves the queue, with the matching entry in the log. */
  lemma Leave(q: seq<Entry>, log: seq<Event>, n: nat, i: nat, reason: Reason)
    requires Inv(q, log, n) && i < |q|
    requires ReasonFits(reason, SendsOf(q[i].info))
    ensures Inv(Without(q, i), log + [Left(q[i].id, reason)], n)
  {
    var e := Left(q[i].id, reason);
    LeaveOrder(q, i, n);
    LeaveEntries(q, i);
    LeaveCounts(q, log, n, i, e);
    LeaveFirsts(q, log, i, e);
    ReasonsAppend(log, e);
  }

  // ---------- a frame is sent ----------

  lemma QueuedUpdate(q: seq<Entry>, i: nat, e: Entry, id: nat)
    requires i < |q| && e.id == q[i].id
    ensures Queued(q[i := e], id) <==> Queued(q, id)
  {
    var r := q[i := e];
    if Queued(q, id) {
      var k :| 0 <= k < |q| && q[k].id == id;
      assert r[k].id == id;
    }
    if Queued(r, id) {
      var k :| 0 <= k < |r| && r[k].id == id;
      assert q[k].id == id;
    }
  }

  /** A transmission is counted for its frame and for no other. */
  lemma SendCounted(q: seq<Entry>, log: seq<Event>, n: nat, i: nat, e: Entry, ev: Event)
    requires SendsOk(q, log, n) && IdsOk(q, n) && i < |q| && e.id == q[i].id == ev.id && ev.Sent?
    requires SendsOf(e.info) == SendsOf(q[i].info) + 1 <= 1 + RETRY_MAX
    ensures SendsOk(q[i := e], log + [ev], n)
  {
    CountsAppend(log, ev);
  }

  lemma SendLeavesNothing(q: seq<Entry>, log: seq<Event>, n: nat, i: nat, e: Entry, ev: Event)
    requires LeavesOk(q, log, n) && NoticesOk(log) && i < |q| && e.id == q[i].id && ev.Sent?
    ensures LeavesOk(q[i := e], log + [ev], n) && NoticesOk(log + [ev])
  {
    CountsAppend(log, ev);
    forall id: nat ensures Queued(q[i := e], id) <==> Queued(q, id) { QueuedUpdate(q, i, e, id); }
  }

  /** The counting part of any transmission of frame `i`. */
  lemma SendCounts(q: seq<Entry>, log: seq<Event>, n: nat, i: nat, e: Entry, first: bool)
    requires Inv(q, log, n) && i < |q| && e.id == q[i].id
    requires SendsOf(e.info) == SendsOf(q[i].info) + 1 <= 1 + RETRY_MAX
    ensures var log' := log + [Sent(e.id, q[i].info.devNum, first, q[i].info.Bytes())];
            var q' := q[i := e];
            SendsOk(q', log', n) && LeavesOk(q', log', n) && NoticesOk(log') && SentOk(log') && ReasonsOk(log')
  {
    var ev := Sent(e.id, q[i].info.devNum, first, q[i].info.Bytes());
    assert Queued(q, q[i].id);
    ReasonsAppend(log, ev);
    SendCounted(q, log, n, i, e, ev);
    SendLeavesNothing(q, log, n, i, e, ev);
    assert EntryOk(q[i]);
  }

  /** A retry: only the time stamp and the retry counter change. */
  lemma Resend(q: seq<Entry>, log: seq<Event>, n: nat, i: nat, e: Entry)
    requires Inv(q, log, n) && i < |q| && q[i].info.active && q[i].info.retry < RETRY_MAX
    requires e == q[i].(info := q[i].info.(tsentMs := e.info.tsentMs, retry := q[i].info.retry + 1))
    ensures Inv(q[i := e], log + [Sent(e.id, e.info.devNum, false, q[i].info.Bytes())], n)
  {
    var ev := Sent(e.id, e.info.devNum, false, q[i].info.Bytes());
    SendCounts(q, log, n, i, e, false);
    assert EntryOk(q[i]) && e.info.Bytes() == q[i].info.Bytes();
    forall devNum: nat ensures Firsts(log + [ev], devNum) == Firsts(log, devNum) { FirstsAppend(log, ev, devNum); }
  }

  /** A first transmission, of a frame that no earlier frame of its device precedes. */
  lemma SendFirst(q: seq<Entry>, log: seq<Event>, n: nat, i: nat, e: Entry)
    requires Inv(q, log, n) && i < |q| && !q[i].info.active
    requires e == q[i].(info := q[i].info.(active := true, tsentMs := e.info.tsentMs, retry := 0))
    requires forall k :: 0 <= k < |q| && q[k].info.devNum == e.info.devNum ==> k >= i && !q[k].info.active
    ensures Inv(q[i := e], log + [Sent(e.id, e.info.devNum, true, q[i].info.Bytes())], n)
  {
    var ev := Sent(e.id, e.info.devNum, true, q[i].info.Bytes());
    SendCounts(q, log, n, i, e, true);
    SendFirstOrder(q, n, i, e);
    SendFirstFirsts(q, log, n, i, e, ev);
  }

  lemma SendFirstOrder(q: seq<Entry>, n: nat, i: nat, e: Entry)
    requires IdsOk(q, n) && EntriesOk(q) && OrderOk(q) && i < |q|
    requires e == q[i].(info := q[i].info.(active := true, tsentMs := e.info.tsentMs, retry := 0))
    requires forall k :: 0 <= k < |q| && q[k].info.devNum == e.info.devNum ==> k >= i && !q[k].info.active
    ensures IdsOk(q[i := e], n) && EntriesOk(q[i := e]) && OrderOk(q[i := e])
  {
    assert EntryOk(q[i]) && e.info.Bytes() == q[i].info.Bytes();
  }

  lemma SendFirstFirsts(q: seq<Entry>, log: seq<Event>, n: nat, i: nat, e: Entry, ev: Event)
    requires FirstsOk(q, log) && IdsOk(q, n) && i < |q| && !q[i].info.active && e.info.active
    requires ev.Sent? && ev.first && ev.id == q[i].id && ev.devNum == q[i].info.devNum
    requires forall k :: 0 <= k < |q| && q[k].info.devNum == ev.devNum ==> k >= i
    ensures FirstsOk(q[i := e], log + [ev])
  {
    FirstsGrow(q, log, n, i, ev);
  }

  /** The new first transmission is the latest of its device, and earlier than every idle frame left. */
  lemma FirstsGrow(q: seq<Entry>, log: seq<Event>, n: nat, i: nat, ev: Event)
    requires FirstsOk(q, log) && IdsOk(q, n) && i < |q| && !q[i].info.active
    requires ev.Sent? && ev.first && ev.id == q[i].id && ev.devNum == q[i].info.devNum
    ensures forall devNum: nat :: Increasing(Firsts(log + [ev], devNum))
    ensures forall devNum: nat, k, x ::
              (0 <= k < |q| && (k > i || q[k].info.devNum != q[i].info.devNum) && !q[k].info.active
               && q[k].info.devNum == devNum && x in Firsts(log + [ev], devNum)) ==> x < q[k].id
  {
    forall devNum: nat
      ensures Firsts(log + [ev], devNum)
           == Firsts(log, devNum) + (if ev.devNum == devNum then [ev.id] else [])
      ensures Increasing(Firsts(log + [ev], devNum))
    {
      FirstsAppend(log, ev, devNum);
      if devNum == ev.devNum {
        var ids := Firsts(log, devNum);
        forall a | 0 <= a < |ids|
          ensures ids[a] < ev.id
        {
          assert ids[a] in ids;
        }
      }
    }
  }

  // ---------- one visit of the thread ----------

  ghost predicate AwaitOk(q: seq<Entry>)
  {
    forall i :: 0 <= i < |q| && q[i].info.active ==> !q[i].info.NoResponse()
  }

  /** Every visited frame that is still idle waits for an active frame of its device. */
  ghost predicate Settled(done: seq<Entry>)
  {
    forall i :: 0 <= i < |done| && !done[i].info.active ==> ActiveFor(done, done[i].info.devNum)
  }

  ghost predicate WalkInv(w: Walk, n: nat)
  {
    && Inv(w.done + w.todo, w.log, n)
    && Settled(w.done)
    && AwaitOk(w.done + w.todo)
  }

  lemma SettledGrows(done: seq<Entry>, e: Entry)
    requires Settled(done)
    requires e.info.active || ActiveFor(done, e.info.devNum)
    ensures Settled(done + [e])
  {
    var done' := done + [e];
    forall k | 0 <= k < |done'| && !done'[k].info.active
      ensures ActiveFor(done', done'[k].info.devNum)
    {
      assert ActiveFor(done, done'[k].info.devNum);
      var j :| 0 <= j < |done| && done[j].info.active && done[j].info.devNum == done'[k].info.devNum;
      assert done'[j] == done[j];
    }
  }

  /** The queue around the node being visited. */
  lemma Around(w: Walk, x: Entry)
    requires w.todo != []
    ensures var q, i, rest := w.done + w.todo, |w.done|, w.todo[1..];
            && q[i] == w.todo[0]
            && q[i := x] == (w.done + [x]) + rest
            && Without(q, i) == w.done + rest
  {
  }

  lemma AwaitKept(q: seq<Entry>, i: nat, e: Entry)
    requires AwaitOk(q) && i < |q| && !e.info.NoResponse()
    ensures AwaitOk(q[i := e])
  {
  }

  lemma AwaitDropped(q: seq<Entry>, i: nat)
    requires AwaitOk(q) && i < |q|
    ensures AwaitOk(Without(q, i))
  {
    var r := Without(q, i);
    forall k | 0 <= k < |r| ensures r[k] == q[if k < i then k else k + 1] { WithoutAt(q, i, k); }
  }

  /** Behind an idle frame there is no active one of its device. */
  lemma NoActiveBehind(w: Walk)
    requires OrderOk(w.done + w.todo) && w.todo != [] && !w.todo[0].info.active
    ensures !ActiveFor(w.todo[1..], w.todo[0].info.devNum)
  {
    var q, i, rest := w.done + w.todo, |w.done|, w.todo[1..];
    forall k | 0 <= k < |rest| && rest[k].info.active
      ensures rest[k].info.devNum != w.todo[0].info.devNum
    {
      assert q[i] == w.todo[0] && q[i + 1 + k] == rest[k];
    }
  }

  /** An idle frame that nothing blocks is the first of its device. */
  lemma UnblockedIsFirst(w: Walk, k: nat)
    requires Settled(w.done) && w.todo != [] && !w.todo[0].info.active
    requires !ActiveFor(w.done, w.todo[0].info.devNum) && !ActiveFor(w.todo[1..], w.todo[0].info.devNum)
    requires k < |w.done + w.todo| && (w.done + w.todo)[k].info.devNum == w.todo[0].info.devNum
    ensures k >= |w.done| && !(w.done + w.todo)[k].info.active
  {
    if k < |w.done| {
      assert ActiveFor(w.done, w.done[k].info.devNum);
    } else if k > |w.done| {
      assert w.todo[1..][k - |w.done| - 1] == w.todo[k - |w.done|];
    }
  }

  lemma FirstSendKeeps(clock: nat -> int, w: Walk, n: nat)
    requires WalkInv(w, n) && w.todo != [] && !w.todo[0].info.active
    requires !ActiveFor(w.done, w.todo[0].info.devNum) && !ActiveFor(w.todo[1..], w.todo[0].info.devNum)
    ensures WalkInv(FirstSend(clock, w, w.todo[0], w.todo[1..]), n)
  {
    var q, i, e, rest := w.done + w.todo, |w.done|, w.todo[0], w.todo[1..];
    var sent := e.(info := e.info.(active := true, tsentMs := clock(w.tick), retry := 0));
    Around(w, sent);
    forall k | 0 <= k < |q| && q[k].info.devNum == e.info.devNum
      ensures k >= i && !q[k].info.active
    {
      UnblockedIsFirst(w, k);
    }
    SendFirst(q, w.log, n, i, sent);
    if e.info.NoResponse() {
      var log := w.log + [Sent(e.id, e.info.devNum, true, e.info.Bytes())];
      Leave(q[i := sent], log, n, i, NoResponseDue);
      assert Without(q[i := sent], i) == Without(q, i);
      AwaitDropped(q, i);
    } else {
      AwaitKept(q, i, sent);
      SettledGrows(w.done, sent);
    }
  }

  /** One more transmission of an active frame. */
  function Again(e: Entry, now: int): (e': Entry)
  {
    e.(info := e.info.(tsentMs := now, retry := e.info.retry + 1))
  }

  lemma RetryKeeps(clock: nat -> int, w: Walk, n: nat)
    requires WalkInv(w, n) && w.todo != [] && w.todo[0].info.active && w.todo[0].info.retry < RETRY_MAX
    ensures WalkInv(Expired(clock, w, w.todo[0], w.todo[1..]), n)
  {
    var q, i, e := w.done + w.todo, |w.done|, w.todo[0];
    var again := Again(e, clock(w.tick + 1));
    var w' := Walk(w.done + [again], w.todo[1..], w.tick + 2,
                   w.log + [Sent(e.id, e.info.devNum, false, e.info.Bytes())]);
    Around(w, again);
    assert w'.done + w'.todo == q[i := again];
    assert Inv(q[i := again], w'.log, n) by { Resend(q, w.log, n, i, again); }
    assert AwaitOk(q[i := again]) by {
      assert !q[i].info.NoResponse();
      AwaitKept(q, i, again);
    }
    SettledGrows(w.done, again);
    assert Expired(clock, w, e, w.todo[1..]) == w';
  }

  lemma GiveUpKeeps(clock: nat -> int, w: Walk, n: nat)
    requires WalkInv(w, n) && w.todo != [] && w.todo[0].info.active && w.todo[0].info.retry >= RETRY_MAX
    ensures WalkInv(Expired(clock, w, w.todo[0], w.todo[1..]), n)
  {
    var q, i := w.done + w.todo, |w.done|;
    Around(w, w.todo[0]);
    assert EntryOk(q[i]);
    Leave(q, w.log, n, i, Exhausted);
    AwaitDropped(q, i);
  }

  lemma VisitKeepsInv(clock: nat -> int, w: Walk, n: nat)
    requires WalkInv(w, n) && w.todo != []
    ensures WalkInv(Visit(clock, w), n)
  {
    var e := w.todo[0];
    assert (w.done + [e]) + w.todo[1..] == w.done + w.todo;
    if !e.info.active {
      NoActiveBehind(w);
      if ActiveFor(w.done, e.info.devNum) {
        SettledGrows(w.done, e);
      } else {
        FirstSendKeeps(clock, w, n);
      }
    } else if clock(w.tick) - e.info.tsentMs >= e.info.timeoutMs {
      if e.info.retry < RETRY_MAX {
        RetryKeeps(clock, w, n);
      } else {
        GiveUpKeeps(clock, w, n);
      }
    } else {
      SettledGrows(w.done, e);
    }
  }

  lemma {:induction false} VisitAllKeepsInv(clock: nat -> int, w: Walk, n: nat)
    requires WalkInv(w, n)
    ensures WalkInv(VisitAll(clock, w), n)
    decreases |w.todo|
  {
    if w.todo != [] {
      VisitKeepsInv(clock, w, n);
      VisitAllKeepsInv(clock, Visit(clock, w), n);
    }
  }

  /** A pass hands every queued frame to svsBdpFrameSend at most once, and no other. */
  lemma {:induction false} SentOncePerPass(clock: nat -> int, w: Walk, id: nat)
    requires forall i, j :: 0 <= i < j < |w.todo| ==> w.todo[i].id != w.todo[j].id
    ensures var w' := VisitAll(clock, w);
            Count(w.log, Sends, id) <= Count(w'.log, Sends, id)
              <= Count(w.log, Sends, id) + (if Queued(w.todo, id) then 1 else 0)
    decreases |w.todo|
  {
    if w.todo != [] {
      var e, rest, w1 := w.todo[0], w.todo[1..], Visit(clock, w);
      assert w1.todo == rest;
      assert forall i, j :: 0 <= i < j < |rest| ==> rest[i] == w.todo[i + 1] && rest[j] == w.todo[j + 1];
      SentOncePerPass(clock, w1, id);
      VisitSends(clock, w, id);
      if Queued(rest, id) {
        var k :| 0 <= k < |rest| && rest[k].id == id;
        assert w.todo[k + 1].id == id && w.todo[0].id != id;
      } else if e.id == id {
        assert w.todo[0].id == id;
      }
    }
  }

  /** A visit sends the visited frame at most once and no other frame. */
  lemma VisitSends(clock: nat -> int, w: Walk, id: nat)
    requires w.todo != []
    ensures var w' := Visit(clock, w);
            Count(w.log, Sends, id) <= Count(w'.log, Sends, id)
              <= Count(w.log, Sends, id) + (if w.todo[0].id == id then 1 else 0)
  {
    var e := w.todo[0];
    var first := Sent(e.id, e.info.devNum, true, e.info.Bytes());
    CountAppend(w.log, first, Sends, id);
    CountAppend(w.log + [first], Left(e.id, NoResponseDue), Sends, id);
    CountAppend(w.log, Sent(e.id, e.info.devNum, false, e.info.Bytes()), Sends, id);
    CountAppend(w.log, Left(e.id, Exhausted), Sends, id);
  }

  // ---------- the three steps ----------

  lemma QueuedJoin(q: seq<Entry>, e: Entry, id: nat)
    ensures Queued(q + [e], id) <==> Queued(q, id) || id == e.id
  {
    var q' := q + [e];
    assert q'[|q|] == e;
    if Queued(q, id) {
      var k :| 0 <= k < |q| && q[k].id == id;
      assert q'[k].id == id;
    }
  }

  lemma JoinOrder(q: seq<Entry>, n: nat, e: Entry)
    requires IdsOk(q, n) && EntriesOk(q) && OrderOk(q) && e.id == n && EntryOk(e) && !e.info.active
    ensures IdsOk(q + [e], n + 1) && EntriesOk(q + [e]) && OrderOk(q + [e])
  {
  }

  lemma JoinCounts(q: seq<Entry>, log: seq<Event>, n: nat, e: Entry)
    requires SendsOk(q, log, n) && LeavesOk(q, log, n) && IdsOk(q, n) && e.id == n && !e.info.active
    ensures SendsOk(q + [e], log, n + 1) && LeavesOk(q + [e], log, n + 1)
  {
    forall id: nat ensures Queued(q + [e], id) <==> Queued(q, id) || id == n { QueuedJoin(q, e, id); }
    forall id: nat
      ensures Count(log, Leaves, id) == (if id < n + 1 && !Queued(q + [e], id) then 1 else 0)
    {
      assert id >= n ==> Count(log, Leaves, id) == 0;
    }
  }

  lemma JoinFirsts(q: seq<Entry>, log: seq<Event>, n: nat, e: Entry)
    requires FirstsOk(q, log) && SendsOk(q, log, n) && e.id == n
    ensures FirstsOk(q + [e], log)
  {
    FirstsKnown(q, log, n);
  }

  /** A new request joins at the end. */
  lemma Join(q: seq<Entry>, log: seq<Event>, n: nat, e: Entry)
    requires Inv(q, log, n) && e.id == n && EntryOk(e) && !e.info.active
    ensures Inv(q + [e], log, n + 1)
  {
    JoinOrder(q, n, e);
    JoinCounts(q, log, n, e);
    JoinFirsts(q, log, n, e);
  }

  /** Only accepted frames have been sent. */
  lemma FirstsKnown(q: seq<Entry>, log: seq<Event>, n: nat)
    requires SendsOk(q, log, n)
    ensures forall devNum: nat, x :: x in Firsts(log, devNum) ==> x < n
  {
    forall devNum: nat, x | x in Firsts(log, devNum)
      ensures x < n
    {
      FirstIsSent(log, devNum, x);
    }
  }

  lemma {:induction false} FirstIsSent(log: seq<Event>, devNum: nat, x: nat)
    requires x in Firsts(log, devNum)
    ensures Count(log, Sends, x) > 0
    decreases |log|
  {
    if x in Firsts(log[..|log| - 1], devNum) {
      FirstIsSent(log[..|log| - 1], devNum, x);
    }
  }

  lemma NoticeKeeps(q: seq<Entry>, log: seq<Event>, n: nat, ev: Event)
    requires Inv(q, log, n)
    requires ev.Reply? || ev.Callback?
    requires Count(log, Notices, ev.id) < Count(log, Answers, ev.id)
    ensures Inv(q, log + [ev], n)
  {
    CountsAppend(log, ev);
    ReasonsAppend(log, ev);
    forall devNum: nat ensures Firsts(log + [ev], devNum) == Firsts(log, devNum) { FirstsAppend(log, ev, devNum); }
  }

  lemma NewEntryOk(r: Request, addr: Address, id: nat, seqNum: word, nowMs: int)
    requires seqNum == 1 + id % 255
    ensures EntryOk(Entry(id, NewFrame(r, addr, seqNum, nowMs)))
  {
    var info := NewFrame(r, addr, seqNum, nowMs);
    BuiltFrame(addr, r.msgId, info.header.sockFd, r.flags, seqNum, nowMs, r.payload);
  }

  lemma TransmitKeeps(clock: nat -> int, s: Server, r: Request, lookup: Option<Address>)
    requires ServerInv(s) && AwaitOk(s.queue)
    ensures var s' := TransmitStep(clock, s, r, lookup).0; ServerInv(s') && AwaitOk(s'.queue)
  {
    if |s.queue| < ACTIVE_MAX && lookup.Some? {
      var e := Entry(s.nextId, NewFrame(r, lookup.value, s.seqNum, clock(s.tick)));
      NewEntryOk(r, lookup.value, s.nextId, s.seqNum, clock(s.tick));
      Join(s.queue, s.log, s.nextId, e);
      SequenceNumbers(s.nextId, s.nextId);
      assert TransmitStep(clock, s, r, lookup).0
          == Server(s.queue + [e], s.nextId + 1, NextSeq(s.seqNum), s.tick + 1, s.log);
    }
  }

  /** The frame leaves as answered, and its client may be told. */
  lemma AnsweredKeeps(q: seq<Entry>, log: seq<Event>, n: nat, i: nat, events: seq<Event>)
    requires Inv(q, log, n) && i < |q|
    requires events == [] || events == [Reply(q[i].id)] || events == [Callback(q[i].id)]
    ensures Inv(Without(q, i), log + [Left(q[i].id, Answered)] + events, n)
  {
    var left := Left(q[i].id, Answered);
    Leave(q, log, n, i, Answered);
    if events == [] {
      assert log + [left] + events == log + [left];
    } else {
      assert Queued(q, q[i].id);
      CountsAppend(log, left);
      NoticeKeeps(Without(q, i), log + [left], n, events[0]);
    }
  }

  lemma RespondKeeps(clock: nat -> int, s: Server, seqNum: word, msgId: byte)
    requires ServerInv(s) && AwaitOk(s.queue)
    ensures var s' := RespondStep(clock, s, seqNum, msgId); ServerInv(s') && AwaitOk(s'.queue)
  {
    var i := Find(s.queue, seqNum);
    if i < |s.queue| {
      var events := Deliver(clock, s.tick, s.queue[i], msgId).1;
      AnsweredKeeps(s.queue, s.log, s.nextId, i, events);
      AwaitDropped(s.queue, i);
    }
  }

  lemma PassKeeps(clock: nat -> int, s: Server)
    requires ServerInv(s) && AwaitOk(s.queue)
    ensures var s' := PassStep(clock, s); ServerInv(s') && AwaitOk(s'.queue) && Settled(s'.queue)
  {
    var w := Walk([], s.queue, s.tick, s.log);
    assert [] + s.queue == s.queue;
    VisitAllKeepsInv(clock, w, s.nextId);
    VisitAllShrinks(clock, w);
    var w' := VisitAll(clock, w);
    assert w'.done + [] == w'.done;
  }

  lemma {:induction false} VisitAllShrinks(clock: nat -> int, w: Walk)
    ensures |VisitAll(clock, w).done| <= |w.done| + |w.todo|
    decreases |w.todo|
  {
    if w.todo != [] {
      VisitAllShrinks(clock, Visit(clock, w));
    }
  }

  // ---------- every run ----------

  /** The invariant holds after every interleaving of requests, responses and passes. */
  lemma {:induction false} RunKeepsInv(clock: nat -> int, ops: seq<Op>)
    ensures ServerInv(Run(clock, ops)) && AwaitOk(Run(clock, ops).queue)
    decreases |ops|
  {
    if ops != [] {
      var s := Run(clock, ops[..|ops| - 1]);
      RunKeepsInv(clock, ops[..|ops| - 1]);
      match ops[|ops| - 1]
      case Transmit(r, lookup) => TransmitKeeps(clock, s, r, lookup);
      case Respond(seqNum, msgId) => RespondKeeps(clock, s, seqNum, msgId);
      case Tick => PassKeeps(clock, s);
    }
  }

  /** Each device has at most one active frame, and it is the first of its device in the queue. */
  lemma OneActivePerDevice(clock: nat -> int, ops: seq<Op>, i: nat, j: nat)
    requires var q := Run(clock, ops).queue;
             i < |q| && j < |q| && q[j].info.active && q[i].info.devNum == q[j].info.devNum
    ensures j <= i && (Run(clock, ops).queue[i].info.active ==> i == j)
  {
    RunKeepsInv(clock, ops);
  }

  /** First transmissions to a device happen in the order in which its requests were accepted. */
  lemma FirstTransmissionsInOrder(clock: nat -> int, ops: seq<Op>, devNum: nat)
    ensures Increasing(Firsts(Run(clock, ops).log, devNum))
  {
    RunKeepsInv(clock, ops);
  }

  /** No frame is handed to svsBdpFrameSend more than 1 + BDP_RETRY_MAX = 3 times. */
  lemma AtMostThreeSends(clock: nat -> int, ops: seq<Op>, id: nat)
    ensures Count(Run(clock, ops).log, Sends, id) <= 3
  {
    RunKeepsInv(clock, ops);
  }

  /** Every accepted request is either queued or has left exactly once, and its client is told at most once,
      after a response took it from the queue. */
  lemma Conservation(clock: nat -> int, ops: seq<Op>, id: nat)
    ensures var s := Run(clock, ops);
            && |s.queue| <= 255
            && (id < s.nextId ==> (Queued(s.queue, id) <==> Count(s.log, Leaves, id) == 0))
            && (id >= s.nextId ==> !Queued(s.queue, id) && Count(s.log, Leaves, id) == 0)
            && Count(s.log, Leaves, id) <= 1
            && Count(s.log, Notices, id) <= Count(s.log, Answers, id) <= Count(s.log, Leaves, id)
  {
    RunKeepsInv(clock, ops);
  }

  /** A frame that left because nobody answers had been sent once, and one that was given up three times. */
  lemma SendsByReason(clock: nat -> int, ops: seq<Op>, i: nat)
    requires var log := Run(clock, ops).log; i < |log| && log[i].Left?
    ensures var log := Run(clock, ops).log;
            var sends := Count(log, Sends, log[i].id);
            && (log[i].reason == NoResponseDue ==> sends == 1)
            && (log[i].reason == Exhausted ==> sends == 3)
            && (log[i].reason == Answered ==> sends <= 3)
  {
    RunKeepsInv(clock, ops);
  }

  // ---------- who is told ----------

  /** The answer has the request's message type or is an error report, the request asked for one, and a plain
      reply comes before the client's deadline. */
  predicate Expected(clock: nat -> int, tick: nat, e: Entry, msgId: byte)
  {
    && (msgId == e.info.header.msgId || msgId == MSG_ACK)
    && (e.info.callback != 0
        || (e.info.timeoutMs != 0 && clock(tick) < e.info.tsentClientMs + e.info.timeoutClientMs))
  }

  /** What a client gets to see. */
  function Notice(e: Entry): (ev: Event)
  {
    if e.info.callback != 0 then Callback(e.id) else Reply(e.id)
  }

  /** What a matched response causes. */
  lemma DeliveredNotice(clock: nat -> int, tick: nat, e: Entry, msgId: byte)
    ensures Deliver(clock, tick, e, msgId).1 == if Expected(clock, tick, e, msgId) then [Notice(e)] else []
  {
  }

  lemma NoticeCounted(log: seq<Event>, e: Entry, told: bool)
    requires Count(log, Notices, e.id) == 0
    ensures var log' := log + [Left(e.id, Answered)] + (if told then [Notice(e)] else []);
            Count(log', Notices, e.id) == (if told then 1 else 0) && (told ==> Notice(e) in log')
  {
    var left := log + [Left(e.id, Answered)];
    CountAppend(log, Left(e.id, Answered), Notices, e.id);
    CountAppend(left, Notice(e), Notices, e.id);
    assert left + [] == left;
  }

  lemma UntoldWhileQueued(q: seq<Entry>, log: seq<Event>, n: nat, i: nat)
    requires LeavesOk(q, log, n) && NoticesOk(log) && i < |q|
    ensures Count(log, Notices, q[i].id) == 0
  {
    assert Queued(q, q[i].id);
  }

  lemma RespondTells(clock: nat -> int, s: Server, seqNum: word, msgId: byte)
    requires IdsOk(s.queue, s.nextId) && LeavesOk(s.queue, s.log, s.nextId) && NoticesOk(s.log)
    requires Find(s.queue, seqNum) < |s.queue|
    ensures var e, s' := s.queue[Find(s.queue, seqNum)], RespondStep(clock, s, seqNum, msgId);
            && !Queued(s'.queue, e.id) && e.id < s'.nextId
            && Count(s'.log, Notices, e.id) == (if Expected(clock, s.tick, e, msgId) then 1 else 0)
            && (Expected(clock, s.tick, e, msgId) ==> Notice(e) in s'.log)
  {
    var i := Find(s.queue, seqNum);
    var e := s.queue[i];
    QueuedWithout(s.queue, i, e.id, s.nextId);
    UntoldWhileQueued(s.queue, s.log, s.nextId, i);
    DeliveredNotice(clock, s.tick, e, msgId);
    NoticeCounted(s.log, e, Expected(clock, s.tick, e, msgId));
  }

  /** A log grows by a transmission or a departure. */
  lemma GrowsSilently(log: seq<Event>, ev: Event, id: nat)
    requires ev.Sent? || ev.Left?
    ensures log <= log + [ev]
    ensures Count(log + [ev], Notices, id) == Count(log, Notices, id)
    ensures Count(log + [ev], Leaves, id) >= Count(log, Leaves, id)
  {
    CountAppend(log, ev, Notices, id);
    CountAppend(log, ev, Leaves, id);
  }

  /** A visit tells nobody anything. */
  lemma VisitTellsNobody(clock: nat -> int, w: Walk, id: nat)
    requires w.todo != []
    ensures var w' := Visit(clock, w);
            && w.log <= w'.log
            && Count(w'.log, Notices, id) == Count(w.log, Notices, id)
            && Count(w'.log, Leaves, id) >= Count(w.log, Leaves, id)
  {
    var e := w.todo[0];
    var first := Sent(e.id, e.info.devNum, true, e.info.Bytes());
    GrowsSilently(w.log, first, id);
    GrowsSilently(w.log + [first], Left(e.id, NoResponseDue), id);
    GrowsSilently(w.log, Sent(e.id, e.info.devNum, false, e.info.Bytes()), id);
    GrowsSilently(w.log, Left(e.id, Exhausted), id);
  }

  lemma {:induction false} PassTellsNobody(clock: nat -> int, w: Walk, id: nat)
    ensures var w' := VisitAll(clock, w);
            && w.log <= w'.log
            && Count(w'.log, Notices, id) == Count(w.log, Notices, id)
            && Count(w'.log, Leaves, id) >= Count(w.log, Leaves, id)
    decreases |w.todo|
  {
    if w.todo != [] {
      VisitTellsNobody(clock, w, id);
      PassTellsNobody(clock, Visit(clock, w), id);
    }
  }

  lemma RespondTellsOne(clock: nat -> int, s: Server, seqNum: word, msgId: byte, id: nat)
    requires ServerInv(s) && !Queued(s.queue, id)
    ensures var s' := RespondStep(clock, s, seqNum, msgId);
            !Queued(s'.queue, id) && s.log <= s'.log && Count(s'.log, Notices, id) == Count(s.log, Notices, id)
  {
    var i := Find(s.queue, seqNum);
    if i < |s.queue| {
      var e, left := s.queue[i], Left(s.queue[i].id, Answered);
      var events := Deliver(clock, s.tick, e, msgId).1;
      assert Queued(s.queue, e.id);
      QueuedWithout(s.queue, i, id, s.nextId);
      CountAppend(s.log, left, Notices, id);
      if events == [] {
        assert s.log + [left] + events == s.log + [left];
      } else {
        CountAppend(s.log + [left], events[0], Notices, id);
        assert s.log + [left] + events == s.log + [left] + [events[0]];
      }
    }
  }

  /** Nothing more is said about a frame that has left. */
  lemma GoneStays(clock: nat -> int, s: Server, op: Op, id: nat)
    requires ServerInv(s) && AwaitOk(s.queue) && id < s.nextId && !Queued(s.queue, id)
    ensures var s' := Apply(clock, s, op);
            && !Queued(s'.queue, id) && id < s'.nextId && s.log <= s'.log
            && Count(s'.log, Notices, id) == Count(s.log, Notices, id)
  {
    match op
    case Transmit(r, lookup) =>
      if |s.queue| < ACTIVE_MAX && lookup.Some? {
        QueuedJoin(s.queue, Entry(s.nextId, NewFrame(r, lookup.value, s.seqNum, clock(s.tick))), id);
      }
    case Respond(seqNum, msgId) =>
      RespondTellsOne(clock, s, seqNum, msgId, id);
    case Tick =>
      PassTellsNobody(clock, Walk([], s.queue, s.tick, s.log), id);
      PassKeeps(clock, s);
      assert Count(s.log, Leaves, id) == 1;
  }

  /** The frame has left, and its client has heard once or not at all. */
  ghost predicate Heard(s: Server, e: Entry, told: bool)
  {
    && !Queued(s.queue, e.id) && e.id < s.nextId
    && Count(s.log, Notices, e.id) == (if told then 1 else 0)
    && (told ==> Notice(e) in s.log)
  }

  lemma RunLast(clock: nat -> int, ops: seq<Op>, op: Op)
    ensures Run(clock, ops + [op]) == Apply(clock, Run(clock, ops), op)
  {
    assert (ops + [op])[..|ops|] == ops;
  }

  lemma HeardAtOnce(clock: nat -> int, ops: seq<Op>, seqNum: word, msgId: byte)
    requires Find(Run(clock, ops).queue, seqNum) < |Run(clock, ops).queue|
    ensures var s := Run(clock, ops);
            var e := s.queue[Find(s.queue, seqNum)];
            Heard(Run(clock, ops + [Respond(seqNum, msgId)]), e, Expected(clock, s.tick, e, msgId))
  {
    RunKeepsInv(clock, ops);
    RunLast(clock, ops, Respond(seqNum, msgId));
    RespondTells(clock, Run(clock, ops), seqNum, msgId);
  }

  lemma HeardStays(clock: nat -> int, ops: seq<Op>, op: Op, e: Entry, told: bool)
    requires Heard(Run(clock, ops), e, told)
    ensures Heard(Run(clock, ops + [op]), e, told)
  {
    RunKeepsInv(clock, ops);
    RunLast(clock, ops, op);
    GoneStays(clock, Run(clock, ops), op, e.id);
  }

  lemma {:induction false} HeardForGood(clock: nat -> int, ops: seq<Op>, later: seq<Op>, e: Entry, told: bool)
    requires Heard(Run(clock, ops), e, told)
    ensures Heard(Run(clock, ops + later), e, told)
    decreases |later|
  {
    if later == [] {
      assert ops + later == ops;
    } else {
      HeardStays(clock, ops, later[0], e, told);
      HeardForGood(clock, ops + [later[0]], later[1..], e, told);
      MoveHead(ops, later);
    }
  }

  /** A response that finds a frame tells its client exactly when it is expected, once and for all: whatever
      happens later, the client of that frame hears once in this case and never in the other. */
  lemma ClientTold(clock: nat -> int, ops: seq<Op>, seqNum: word, msgId: byte, later: seq<Op>)
    requires Find(Run(clock, ops).queue, seqNum) < |Run(clock, ops).queue|
    ensures var s, log := Run(clock, ops), Run(clock, ops + [Respond(seqNum, msgId)] + later).log;
            var e := s.queue[Find(s.queue, seqNum)];
            && Count(log, Notices, e.id) == (if Expected(clock, s.tick, e, msgId) then 1 else 0)
            && (Expected(clock, s.tick, e, msgId) ==> Notice(e) in log)
  {
    var s := Run(clock, ops);
    var e := s.queue[Find(s.queue, seqNum)];
    HeardAtOnce(clock, ops, seqNum, msgId);
    HeardForGood(clock, ops + [Respond(seqNum, msgId)], later, e, Expected(clock, s.tick, e, msgId));
  }

  // ---------- sequence numbers ----------

  lemma SequenceNumbers(a: nat, b: nat)
    ensures 1 <= 1 + a % 255 <= 255
    ensures a < b < a + 255 ==> 1 + a % 255 != 1 + b % 255
    ensures NextSeq(1 + a % 255) == 1 + (a + 1) % 255
  {
  }

  /** The number allocated to request `k`, by counting from 1. */
  function Allocated(k: nat): (s: word)
  {
    if k == 0 then 1 else NextSeq(Allocated(k - 1))
  }

  lemma {:induction false} AllocatedRemainder(k: nat)
    ensures Allocated(k) == 1 + k % 255
  {
    if k > 0 {
      AllocatedRemainder(k - 1);
      SequenceNumbers(k - 1, k - 1);
    }
  }

  /** Allocated numbers lie in 1..255 and come back after exactly 255 allocations, so any 255 consecutive ones
      are distinct. */
  lemma AllocationsRepeatIff(a: nat, b: nat)
    ensures 1 <= Allocated(a) <= 255
    ensures Allocated(a) == Allocated(b) <==> (a - b) % 255 == 0
    ensures a < b < a + 255 ==> Allocated(a) != Allocated(b)
  {
    AllocatedRemainder(a);
    AllocatedRemainder(b);
    SameRemainder(a, b);
  }

  /** Every queued frame of every run carries the number allocated to its request. */
  lemma QueuedCarryAllocated(clock: nat -> int, ops: seq<Op>, i: nat)
    requires i < |Run(clock, ops).queue|
    ensures var e := Run(clock, ops).queue[i]; e.info.header.seqNum == Allocated(e.id)
  {
    RunKeepsInv(clock, ops);
    var e := Run(clock, ops).queue[i];
    assert EntryOk(e);
    AllocatedRemainder(e.id);
  }

  lemma SameRemainder(a: nat, b: nat)
    ensures a % 255 == b % 255 <==> (a - b) % 255 == 0
  {
  }

  /** Two queued frames carry the same sequence number exactly when a multiple of 255 requests lies between
      them: it takes a frame that outlives 255 later allocations. */
  lemma SameNumberIff(clock: nat -> int, ops: seq<Op>, i: nat, j: nat)
    requires i < |Run(clock, ops).queue| && j < |Run(clock, ops).queue|
    ensures var q := Run(clock, ops).queue;
            q[i].info.header.seqNum == q[j].info.header.seqNum <==> (q[i].id - q[j].id) % 255 == 0
  {
    RunKeepsInv(clock, ops);
    var q := Run(clock, ops).queue;
    var a, b := q[i].id, q[j].id;
    assert EntryOk(q[i]) && EntryOk(q[j]);
    SameRemainder(a, b);
  }

  lemma CutsDiffer(q: seq<Entry>, n: nat, a: nat, b: nat)
    requires IdsOk(q, n) && a < b < |q|
    ensures Without(q, a) != Without(q, b)
  {
    WithoutAt(q, a, a);
    WithoutAt(q, b, a);
    assert q[a].id < q[a + 1].id;
  }

  predicate SameNumber(q: seq<Entry>, k: nat, i: nat)
    requires k < |q| && i < |q|
  {
    q[k].info.header.seqNum == q[i].info.header.seqNum
  }

  lemma FindReaches(q: seq<Entry>, i: nat)
    requires i < |q|
    ensures var f := Find(q, q[i].info.header.seqNum);
            f <= i && (f == i <==> forall k :: 0 <= k < i ==> !SameNumber(q, k, i))
  {
    var f := Find(q, q[i].info.header.seqNum);
    assert f < i ==> SameNumber(q, f, i);
  }

  lemma FindUpTo(q: seq<Entry>, n: nat, i: nat)
    requires IdsOk(q, n) && i < |q|
    ensures var f := Find(q, q[i].info.header.seqNum);
            Without(q, f) == Without(q, i) <==> forall k :: 0 <= k < i ==> !SameNumber(q, k, i)
  {
    var f := Find(q, q[i].info.header.seqNum);
    FindReaches(q, i);
    if f < i {
      CutsDiffer(q, n, f, i);
    }
  }

  lemma RespondCuts(clock: nat -> int, s: Server, seqNum: word, msgId: byte, i: nat)
    requires i < |s.queue| && s.queue[i].info.header.seqNum == seqNum
    ensures Find(s.queue, seqNum) < |s.queue|
    ensures RespondStep(clock, s, seqNum, msgId).queue == Without(s.queue, Find(s.queue, seqNum))
  {
  }

  lemma QueueOrdered(clock: nat -> int, ops: seq<Op>)
    ensures IdsOk(Run(clock, ops).queue, Run(clock, ops).nextId) && EntriesOk(Run(clock, ops).queue)
  {
    RunKeepsInv(clock, ops);
  }

  /** Exactly when a response removes the frame whose number it carries: no frame before it in the queue is a
      multiple of 255 allocations older. */
  lemma ResponseRemovesIff(clock: nat -> int, ops: seq<Op>, i: nat, msgId: byte)
    requires i < |Run(clock, ops).queue|
    ensures var s := Run(clock, ops);
            (RespondStep(clock, s, s.queue[i].info.header.seqNum, msgId).queue == Without(s.queue, i))
            <==> (forall k :: 0 <= k < i ==> (s.queue[i].id - s.queue[k].id) % 255 != 0)
  {
    hide Run, WellFormed, RespondStep, Find;
    var s := Run(clock, ops);
    RespondCuts(clock, s, s.queue[i].info.header.seqNum, msgId, i);
    QueueOrdered(clock, ops);
    FindUpTo(s.queue, s.nextId, i);
    forall k | 0 <= k < i
      ensures SameNumber(s.queue, k, i) <==> (s.queue[i].id - s.queue[k].id) % 255 == 0
    {
      SameNumberIff(clock, ops, i, k);
    }
  }

  lemma RecentDiffer(q: seq<Entry>, n: nat, k: nat, i: nat)
    requires IdsOk(q, n) && EntriesOk(q) && k < i < |q| && n <= q[k].id + 255
    ensures !SameNumber(q, k, i)
  {
    assert EntryOk(q[k]) && EntryOk(q[i]);
    SequenceNumbers(q[k].id, q[i].id);
  }

  /** While every queued frame is among the last 255 allocated, a response removes exactly the frame that
      carries its number and leaves the others in order. */
  lemma ResponseRemovesItsRequest(clock: nat -> int, ops: seq<Op>, i: nat, msgId: byte)
    requires var s := Run(clock, ops);
             i < |s.queue| && forall k :: 0 <= k < |s.queue| ==> s.nextId <= s.queue[k].id + 255
    ensures var s := Run(clock, ops);
            RespondStep(clock, s, s.queue[i].info.header.seqNum, msgId).queue == Without(s.queue, i)
  {
    var s := Run(clock, ops);
    QueueOrdered(clock, ops);
    FindUpTo(s.queue, s.nextId, i);
    forall k | 0 <= k < i
      ensures !SameNumber(s.queue, k, i)
    {
      RecentDiffer(s.queue, s.nextId, k, i);
    }
  }
}
