/** What one pass of the thread, or one response, makes of each queued frame, and exactly when. */
module FramePass {
  import opened Binary
  import opened BdpWire
  import opened FrameQueue
  import opened FrameRuns

  /** The events about one frame, in order. */
  function EventsOf(log: seq<Event>, id: nat): (events: seq<Event>)
    decreases |log|
  {
    if log == [] then []
    else EventsOf(log[..|log| - 1], id) + (if log[|log| - 1].id == id then [log[|log| - 1]] else [])
  }

  lemma EventsAppend(log: seq<Event>, e: Event, id: nat)
    ensures EventsOf(log + [e], id) == EventsOf(log, id) + (if e.id == id then [e] else [])
  {
    assert (log + [e])[..|log|] == log;
  }

  // ---------- frames a pass has not reached yet, or has left behind ----------

  ghost predicate Absent(q: seq<Entry>, id: nat)
  {
    forall k :: 0 <= k < |q| ==> q[k].id != id
  }

  lemma VisitSilent(clock: nat -> int, w: Walk, id: nat)
    requires w.todo != [] && w.todo[0].id != id
    ensures EventsOf(Visit(clock, w).log, id) == EventsOf(w.log, id)
  {
    var e := w.todo[0];
    var first := Sent(e.id, e.info.devNum, true, e.info.Bytes());
    EventsAppend(w.log, first, id);
    EventsAppend(w.log + [first], Left(e.id, NoResponseDue), id);
    EventsAppend(w.log, Sent(e.id, e.info.devNum, false, e.info.Bytes()), id);
    EventsAppend(w.log, Left(e.id, Exhausted), id);
  }

  /** The visit of another frame. */
  lemma VisitOther(clock: nat -> int, w: Walk, id: nat)
    requires w.todo != [] && w.todo[0].id != id
    ensures EventsOf(Visit(clock, w).log, id) == EventsOf(w.log, id)
    ensures var w' := Visit(clock, w);
            && w'.todo == w.todo[1..] && w.done <= w'.done && w'.tick >= w.tick
            && (w'.done == w.done || (|w'.done| == |w.done| + 1 && w'.done[|w.done|].id == w.todo[0].id))
  {
    VisitSilent(clock, w, id);
  }

  /** The rest of a pass says nothing about a frame it does not visit, keeps what it has left behind, and adds
      only frames it visits. */
  lemma {:induction false} RestOfPass(clock: nat -> int, w: Walk, id: nat)
    requires Absent(w.todo, id)
    ensures var w' := VisitAll(clock, w);
            && EventsOf(w'.log, id) == EventsOf(w.log, id)
            && w.done <= w'.done && w'.tick >= w.tick
            && forall k :: |w.done| <= k < |w'.done| ==> w'.done[k].id != id
    decreases |w.todo|
  {
    if w.todo != [] {
      VisitOther(clock, w, id);
      RestOfPass(clock, Visit(clock, w), id);
    }
  }

  /** In a sorted queue the frames behind one have larger numbers. */
  lemma Sorted(done: seq<Entry>, todo: seq<Entry>, n: nat, k: nat)
    requires IdsOk(done + todo, n) && k < |todo|
    ensures Absent(done, todo[k].id)
    ensures forall j :: 0 <= j < |todo| && j != k ==> todo[j].id != todo[k].id
    ensures forall j :: 0 <= j < |done| ==> done[j].id < todo[k].id
  {
    var q := done + todo;
    assert q[|done| + k] == todo[k];
    forall j | 0 <= j < |done| ensures done[j].id < todo[k].id { assert q[j] == done[j]; }
    forall j | 0 <= j < |todo| && j != k ensures todo[j].id != todo[k].id { assert q[|done| + j] == todo[j]; }
  }

  // ---------- an active frame ----------

  /** What a pass makes of the active frame `e` when it finds the clock at `clock(t)`. */
  ghost predicate ActiveOutcome(clock: nat -> int, t: nat, e: Entry, before: seq<Event>, after: seq<Event>,
                                q: seq<Entry>)
  {
    if clock(t) - e.info.tsentMs < e.info.timeoutMs then
      after == before && e in q
    else if e.info.retry < 2 then
      && after == before + [Sent(e.id, e.info.devNum, false, e.info.Bytes())]
      && e.(info := e.info.(tsentMs := clock(t + 1), retry := e.info.retry + 1)) in q
    else
      after == before + [Left(e.id, Exhausted)] && Absent(q, e.id)
  }

  lemma VisitActive(clock: nat -> int, w: Walk)
    requires w.todo != [] && w.todo[0].info.active && Absent(w.done, w.todo[0].id)
    ensures var e, w' := w.todo[0], Visit(clock, w);
            && ActiveOutcome(clock, w.tick, e, EventsOf(w.log, e.id), EventsOf(w'.log, e.id), w'.done)
            && w'.todo == w.todo[1..] && w'.tick > w.tick
  {
    var e, w' := w.todo[0], Visit(clock, w);
    EventsAppend(w.log, Sent(e.id, e.info.devNum, false, e.info.Bytes()), e.id);
    EventsAppend(w.log, Left(e.id, Exhausted), e.id);
    if w'.done != w.done {
      assert w'.done[|w.done|] in w'.done;
    }
  }

  lemma OutcomeStays(clock: nat -> int, t: nat, e: Entry, before: seq<Event>, after: seq<Event>,
                     q: seq<Entry>, q': seq<Entry>)
    requires ActiveOutcome(clock, t, e, before, after, q) && q <= q'
    requires forall k :: |q| <= k < |q'| ==> q'[k].id != e.id
    ensures ActiveOutcome(clock, t, e, before, after, q')
  {
    forall x | x in q ensures x in q' {
      var k :| 0 <= k < |q| && q[k] == x;
      assert q'[k] == x;
    }
    forall k | 0 <= k < |q'| && Absent(q, e.id) ensures q'[k].id != e.id {
      assert k < |q| ==> q'[k] == q[k];
    }
  }

  lemma {:induction false} ActiveInPass(clock: nat -> int, w: Walk, n: nat, k: nat) returns (t: nat)
    requires IdsOk(w.done + w.todo, n) && WalkInv(w, n) && k < |w.todo| && w.todo[k].info.active
    ensures var e, w' := w.todo[k], VisitAll(clock, w);
            && w.tick <= t < w'.tick
            && ActiveOutcome(clock, t, e, EventsOf(w.log, e.id), EventsOf(w'.log, e.id), w'.done)
    decreases |w.todo|
  {
    var e, w1 := w.todo[k], Visit(clock, w);
    Sorted(w.done, w.todo, n, k);
    if k == 0 {
      t := w.tick;
      VisitActive(clock, w);
      RestOfPass(clock, w1, e.id);
      OutcomeStays(clock, t, e, EventsOf(w.log, e.id), EventsOf(w1.log, e.id), w1.done, VisitAll(clock, w1).done);
    } else {
      VisitOther(clock, w, e.id);
      VisitKeepsInv(clock, w, n);
      t := ActiveInPass(clock, w1, n, k - 1);
    }
  }

  /** In every run a pass looks at each active frame at one of its clock readings `t`.  If the frame's timeout
      has not passed then, nothing happens to it; if it has, the frame is sent once more, or given up when it
      has been sent three times. */
  lemma ActiveFrame(clock: nat -> int, ops: seq<Op>, i: nat) returns (t: nat)
    requires i < |Run(clock, ops).queue| && Run(clock, ops).queue[i].info.active
    ensures var s := Run(clock, ops);
            var e, s' := s.queue[i], PassStep(clock, s);
            && s.tick <= t < s'.tick
            && ActiveOutcome(clock, t, e, EventsOf(s.log, e.id), EventsOf(s'.log, e.id), s'.queue)
  {
    var s := Run(clock, ops);
    StartOfPass(clock, ops);
    t := ActiveInPass(clock, Walk([], s.queue, s.tick, s.log), s.nextId, i);
  }

  lemma StartOfPass(clock: nat -> int, ops: seq<Op>)
    ensures var s := Run(clock, ops); var w := Walk([], s.queue, s.tick, s.log);
            WalkInv(w, s.nextId) && IdsOk(w.done + w.todo, s.nextId)
  {
    RunKeepsInv(clock, ops);
    var s := Run(clock, ops);
    assert [] + s.queue == s.queue;
  }

  /** Before its timeout, by every reading of the pass, a frame is left alone. */
  lemma NotBeforeTimeout(clock: nat -> int, ops: seq<Op>, i: nat)
    requires i < |Run(clock, ops).queue| && Run(clock, ops).queue[i].info.active
    requires var s := Run(clock, ops);
             forall t: nat :: s.tick <= t < PassStep(clock, s).tick ==>
               clock(t) - s.queue[i].info.tsentMs < s.queue[i].info.timeoutMs
    ensures var s := Run(clock, ops);
            var e, s' := s.queue[i], PassStep(clock, s);
            e in s'.queue && EventsOf(s'.log, e.id) == EventsOf(s.log, e.id)
  {
    var t := ActiveFrame(clock, ops, i);
  }

  /** After its timeout, by every reading of the pass, a frame is sent again or given up. */
  lemma AfterTimeout(clock: nat -> int, ops: seq<Op>, i: nat)
    requires i < |Run(clock, ops).queue| && Run(clock, ops).queue[i].info.active
    requires var s := Run(clock, ops);
             forall t: nat :: s.tick <= t < PassStep(clock, s).tick ==>
               clock(t) - s.queue[i].info.tsentMs >= s.queue[i].info.timeoutMs
    ensures var s := Run(clock, ops);
            var e, s' := s.queue[i], PassStep(clock, s);
            && (e.info.retry < 2 ==>
                  EventsOf(s'.log, e.id) == EventsOf(s.log, e.id) + [Sent(e.id, e.info.devNum, false, e.info.Bytes())])
            && (e.info.retry == 2 ==>
                  EventsOf(s'.log, e.id) == EventsOf(s.log, e.id) + [Left(e.id, Exhausted)] && !Queued(s'.queue, e.id))
  {
    var t := ActiveFrame(clock, ops, i);
  }

  // ---------- an idle frame ----------

  /** An older frame of the same device is in the queue. */
  ghost predicate HasOlder(q: seq<Entry>, e: Entry)
  {
    exists k :: 0 <= k < |q| && q[k].id < e.id && q[k].info.devNum == e.info.devNum
  }

  /** What a pass makes of the idle frame `e`, `q` being the queue it leaves: the frame waits while an older one
      of its device is there; else it is sent, and dropped at once if it is a broadcast, wants no
      acknowledgement, or has no timeout. */
  ghost predicate IdleOutcome(clock: nat -> int, t: nat, e: Entry, before: seq<Event>, after: seq<Event>, q: seq<Entry>)
  {
    var sent := before + [Sent(e.id, e.info.devNum, true, e.info.Bytes())];
    if HasOlder(q, e) then
      after == before && e in q
    else if e.info.devNum == 255 || e.info.header.flags % 2 == 1 || e.info.timeoutMs == 0 then
      after == sent + [Left(e.id, NoResponseDue)] && Absent(q, e.id)
    else
      after == sent && e.(info := e.info.(active := true, tsentMs := clock(t), retry := 0)) in q
  }

  /** Whoever is left behind in a settled walk blocks the idle frames of its device. */
  lemma BlockedIff(w: Walk, n: nat)
    requires IdsOk(w.done + w.todo, n) && Settled(w.done) && w.todo != []
    ensures ActiveFor(w.done, w.todo[0].info.devNum) <==> HasOlder(w.done, w.todo[0])
  {
    var e := w.todo[0];
    Sorted(w.done, w.todo, n, 0);
    if HasOlder(w.done, e) {
      var k :| 0 <= k < |w.done| && w.done[k].id < e.id && w.done[k].info.devNum == e.info.devNum;
      assert w.done[k].info.active || ActiveFor(w.done, w.done[k].info.devNum);
    }
    if ActiveFor(w.done, e.info.devNum) {
      var k :| 0 <= k < |w.done| && w.done[k].info.active && w.done[k].info.devNum == e.info.devNum;
      assert w.done[k].id < e.id;
    }
  }

  lemma OwnNotOlder(q: seq<Entry>, e: Entry, x: Entry)
    requires x.id == e.id
    ensures HasOlder(q + [x], e) <==> HasOlder(q, e)
  {
    var q' := q + [x];
    if HasOlder(q, e) {
      var k :| 0 <= k < |q| && q[k].id < e.id && q[k].info.devNum == e.info.devNum;
      assert q'[k] == q[k];
    }
  }

  lemma VisitIdle(clock: nat -> int, w: Walk, n: nat)
    requires IdsOk(w.done + w.todo, n) && Settled(w.done) && OrderOk(w.done + w.todo)
    requires w.todo != [] && !w.todo[0].info.active
    ensures var e, w' := w.todo[0], Visit(clock, w);
            && IdleOutcome(clock, w.tick, e, EventsOf(w.log, e.id), EventsOf(w'.log, e.id), w'.done)
            && w'.todo == w.todo[1..] && w'.tick >= w.tick
            && (!HasOlder(w'.done, e) ==> w'.tick > w.tick)
  {
    var e, w' := w.todo[0], Visit(clock, w);
    Sorted(w.done, w.todo, n, 0);
    NoActiveBehind(w);
    BlockedIff(w, n);
    var first := Sent(e.id, e.info.devNum, true, e.info.Bytes());
    EventsAppend(w.log, first, e.id);
    EventsAppend(w.log + [first], Left(e.id, NoResponseDue), e.id);
    if w'.done != w.done {
      assert w'.done == w.done + [w'.done[|w.done|]];
      OwnNotOlder(w.done, e, w'.done[|w.done|]);
      assert w'.done[|w.done|] in w'.done;
    }
  }

  lemma OlderStays(q: seq<Entry>, q': seq<Entry>, e: Entry)
    requires q <= q' && forall k :: |q| <= k < |q'| ==> q'[k].id >= e.id
    ensures HasOlder(q', e) <==> HasOlder(q, e)
  {
    if HasOlder(q, e) {
      var k :| 0 <= k < |q| && q[k].id < e.id && q[k].info.devNum == e.info.devNum;
      assert q'[k] == q[k];
    }
  }

  lemma IdleOutcomeStays(clock: nat -> int, t: nat, e: Entry, before: seq<Event>, after: seq<Event>,
                         q: seq<Entry>, q': seq<Entry>)
    requires IdleOutcome(clock, t, e, before, after, q) && q <= q'
    requires forall k :: |q| <= k < |q'| ==> q'[k].id > e.id
    ensures IdleOutcome(clock, t, e, before, after, q')
  {
    OlderStays(q, q', e);
    forall x | x in q ensures x in q' {
      var k :| 0 <= k < |q| && q[k] == x;
      assert q'[k] == x;
    }
    forall k | 0 <= k < |q'| && Absent(q, e.id) ensures q'[k].id != e.id {
      assert k < |q| ==> q'[k] == q[k];
    }
  }

  /** What the rest of a pass adds comes from behind. */
  lemma {:induction false} LaterAreYounger(clock: nat -> int, w: Walk, id: nat)
    requires forall k :: 0 <= k < |w.todo| ==> w.todo[k].id > id
    ensures var w' := VisitAll(clock, w);
            w.done <= w'.done && forall k :: |w.done| <= k < |w'.done| ==> w'.done[k].id > id
    decreases |w.todo|
  {
    if w.todo != [] {
      VisitOther(clock, w, id);
      LaterAreYounger(clock, Visit(clock, w), id);
    }
  }

  lemma YoungerBehind(done: seq<Entry>, todo: seq<Entry>, n: nat)
    requires IdsOk(done + todo, n) && todo != []
    ensures forall k :: 0 <= k < |todo[1..]| ==> todo[1..][k].id > todo[0].id
  {
    var q := done + todo;
    assert q[|done|] == todo[0];
    forall k | 0 <= k < |todo[1..]| ensures todo[1..][k].id > todo[0].id { assert q[|done| + 1 + k] == todo[1..][k]; }
  }

  lemma {:induction false} IdleInPass(clock: nat -> int, w: Walk, n: nat, k: nat) returns (t: nat)
    requires IdsOk(w.done + w.todo, n) && WalkInv(w, n) && k < |w.todo| && !w.todo[k].info.active
    ensures var e, w' := w.todo[k], VisitAll(clock, w);
            && w.tick <= t && (!HasOlder(w'.done, e) ==> t < w'.tick)
            && IdleOutcome(clock, t, e, EventsOf(w.log, e.id), EventsOf(w'.log, e.id), w'.done)
    decreases |w.todo|
  {
    var e, w1 := w.todo[k], Visit(clock, w);
    Sorted(w.done, w.todo, n, k);
    if k == 0 {
      t := w.tick;
      VisitIdle(clock, w, n);
      YoungerBehind(w.done, w.todo, n);
      RestOfPass(clock, w1, e.id);
      LaterAreYounger(clock, w1, e.id);
      var w' := VisitAll(clock, w1);
      OlderStays(w1.done, w'.done, e);
      IdleOutcomeStays(clock, t, e, EventsOf(w.log, e.id), EventsOf(w1.log, e.id), w1.done, w'.done);
    } else {
      VisitOther(clock, w, e.id);
      VisitKeepsInv(clock, w, n);
      t := IdleInPass(clock, w1, n, k - 1);
    }
  }

  /** In every run a pass sends an idle frame exactly when the queue it leaves holds no older frame of the same
      device. */
  lemma IdleFrame(clock: nat -> int, ops: seq<Op>, i: nat) returns (t: nat)
    requires i < |Run(clock, ops).queue| && !Run(clock, ops).queue[i].info.active
    ensures var s := Run(clock, ops);
            var e, s' := s.queue[i], PassStep(clock, s);
            && s.tick <= t && (!HasOlder(s'.queue, e) ==> t < s'.tick)
            && IdleOutcome(clock, t, e, EventsOf(s.log, e.id), EventsOf(s'.log, e.id), s'.queue)
  {
    var s := Run(clock, ops);
    StartOfPass(clock, ops);
    t := IdleInPass(clock, Walk([], s.queue, s.tick, s.log), s.nextId, i);
  }

  // ---------- a response ----------

  lemma AnswerEvents(log: seq<Event>, e: Entry, told: bool, id: nat)
    ensures var more := [Left(e.id, Answered)] + (if told then [Notice(e)] else []);
            EventsOf(log + [Left(e.id, Answered)] + (if told then [Notice(e)] else []), id)
              == EventsOf(log, id) + (if id == e.id then more else [])
  {
    var left := log + [Left(e.id, Answered)];
    EventsAppend(log, Left(e.id, Answered), id);
    EventsAppend(left, Notice(e), id);
    assert left + [] == left;
  }

  /** A response is about the first frame with its number and no other: that frame leaves as answered, and its
      client is told exactly if the answer is expected.  Without such a frame nothing happens. */
  lemma ResponseEvents(clock: nat -> int, s: Server, seqNum: word, msgId: byte, i: nat, id: nat)
    requires i <= |s.queue| && forall k :: 0 <= k < i ==> s.queue[k].info.header.seqNum != seqNum
    requires i < |s.queue| ==> s.queue[i].info.header.seqNum == seqNum
    ensures var s' := RespondStep(clock, s, seqNum, msgId);
            && (i == |s.queue| ==> s' == s)
            && (i < |s.queue| ==>
                  var e := s.queue[i];
                  && s'.queue == s.queue[..i] + s.queue[i + 1..]
                  && EventsOf(s'.log, id) == EventsOf(s.log, id) +
                       (if id != e.id then []
                        else if Expected(clock, s.tick, e, msgId) then [Left(id, Answered), Notice(e)]
                        else [Left(id, Answered)]))
  {
    assert Find(s.queue, seqNum) == i;
    if i < |s.queue| {
      var e := s.queue[i];
      DeliveredNotice(clock, s.tick, e, msgId);
      AnswerEvents(s.log, e, Expected(clock, s.tick, e, msgId), id);
    }
  }
}
