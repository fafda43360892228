/** Nothing stays in flight for ever: with no new requests and a clock that advances by every timeout between
    passes, a queue of n frames is empty after 3n + 1 passes, whatever responses arrive in between. */
module FrameDrain {
  import opened Binary
  import opened BdpWire
  import opened FrameQueue
  import opened FrameRuns
  import opened Sequences

  ghost predicate Monotone(clock: nat -> int)
  {
    forall a: nat, b: nat :: a <= b ==> clock(a) <= clock(b)
  }

  /** Every active frame was last sent at some earlier clock reading. */
  ghost predicate Stamped(clock: nat -> int, q: seq<Entry>, tick: nat)
  {
    forall i :: 0 <= i < |q| && q[i].info.active ==> tick > 0 && q[i].info.tsentMs <= clock(tick - 1)
  }

  ghost predicate TimeoutsWithin(q: seq<Entry>, limit: int)
  {
    forall i :: 0 <= i < |q| ==> q[i].info.timeoutMs <= limit
  }

  // ---------- the stamps of every run ----------

  lemma VisitKeepsStamps(clock: nat -> int, w: Walk)
    requires Monotone(clock) && w.todo != []
    requires Stamped(clock, w.done, w.tick) && Stamped(clock, w.todo, w.tick)
    ensures var w' := Visit(clock, w);
            Stamped(clock, w'.done, w'.tick) && Stamped(clock, w'.todo, w'.tick) && w'.tick >= w.tick
  {
    var w' := Visit(clock, w);
    assert w'.todo == w.todo[1..];
    assert w'.tick > 0 && w.tick > 0 ==> clock(w.tick - 1) <= clock(w'.tick - 1);
  }

  lemma {:induction false} VisitAllKeepsStamps(clock: nat -> int, w: Walk)
    requires Monotone(clock)
    requires Stamped(clock, w.done, w.tick) && Stamped(clock, w.todo, w.tick)
    ensures var w' := VisitAll(clock, w); Stamped(clock, w'.done, w'.tick)
    decreases |w.todo|
  {
    if w.todo != [] {
      VisitKeepsStamps(clock, w);
      VisitAllKeepsStamps(clock, Visit(clock, w));
    }
  }

  lemma {:induction false} RunKeepsStamps(clock: nat -> int, ops: seq<Op>)
    requires Monotone(clock)
    ensures Stamped(clock, Run(clock, ops).queue, Run(clock, ops).tick)
    decreases |ops|
  {
    if ops != [] {
      var s := Run(clock, ops[..|ops| - 1]);
      RunKeepsStamps(clock, ops[..|ops| - 1]);
      match ops[|ops| - 1]
      case Transmit(r, lookup) =>
        assert s.tick > 0 ==> clock(s.tick - 1) <= clock(s.tick);
      case Respond(seqNum, msgId) => RespondKeepsStamps(clock, s, seqNum, msgId);
      case Tick => VisitAllKeepsStamps(clock, Walk([], s.queue, s.tick, s.log));
    }
  }

  lemma RespondKeepsStamps(clock: nat -> int, s: Server, seqNum: word, msgId: byte)
    requires Monotone(clock) && Stamped(clock, s.queue, s.tick)
    ensures var s' := RespondStep(clock, s, seqNum, msgId); Stamped(clock, s'.queue, s'.tick)
  {
    var i := Find(s.queue, seqNum);
    if i < |s.queue| {
      var r := Without(s.queue, i);
      var s' := RespondStep(clock, s, seqNum, msgId);
      assert s.tick <= s'.tick <= s.tick + 1;
      assert s.tick > 0 ==> clock(s.tick - 1) <= clock(s'.tick - 1);
      forall k | 0 <= k < |r| ensures r[k] == s.queue[if k < i then k else k + 1] { WithoutAt(s.queue, i, k); }
    }
  }

  // ---------- the measure ----------

  /** The expiries a frame still has ahead of it. */
  function Weight(e: Entry): (n: int)
  {
    if e.info.active then 3 - e.info.retry else 3
  }

  function Measure(q: seq<Entry>): (n: int)
  {
    if q == [] then 0 else Weight(q[0]) + Measure(q[1..])
  }

  lemma {:induction false} MeasureAppend(q: seq<Entry>, e: Entry)
    ensures Measure(q + [e]) == Measure(q) + Weight(e)
    decreases |q|
  {
    if q == [] {
      assert q + [e] == [e];
      assert Measure([e][1..]) == 0;
    } else {
      assert (q + [e])[1..] == q[1..] + [e];
      MeasureAppend(q[1..], e);
    }
  }

  lemma {:induction false} MeasureBounds(q: seq<Entry>)
    requires EntriesOk(q)
    ensures |q| <= Measure(q) <= 3 * |q|
    decreases |q|
  {
    if q != [] {
      assert EntryOk(q[0]);
      assert forall i :: 0 <= i < |q[1..]| ==> q[1..][i] == q[i + 1];
      MeasureBounds(q[1..]);
    }
  }

  ghost predicate Due(clock: nat -> int, e: Entry, tick: nat)
  {
    clock(tick) - e.info.tsentMs >= e.info.timeoutMs
  }

  /** A visit never adds weight, and takes some from an active frame that is due. */
  lemma VisitWeighs(clock: nat -> int, w: Walk)
    requires w.todo != [] && EntryOk(w.todo[0])
    ensures var w' := Visit(clock, w);
            && Measure(w'.done) + Measure(w'.todo) <= Measure(w.done) + Measure(w.todo)
            && (w.todo[0].info.active && Due(clock, w.todo[0], w.tick) ==>
                  Measure(w'.done) + Measure(w'.todo) < Measure(w.done) + Measure(w.todo))
  {
    var e, w' := w.todo[0], Visit(clock, w);
    assert w'.todo == w.todo[1..];
    if w'.done != w.done {
      var e' := w'.done[|w.done|];
      assert w'.done == w.done + [e'];
      MeasureAppend(w.done, e');
    }
  }

  lemma TailEntries(q: seq<Entry>)
    requires EntriesOk(q) && q != []
    ensures EntryOk(q[0]) && EntriesOk(q[1..])
  {
  }

  lemma {:induction false} VisitAllNeverAdds(clock: nat -> int, w: Walk)
    requires EntriesOk(w.todo)
    ensures Measure(VisitAll(clock, w).done) <= Measure(w.done) + Measure(w.todo)
    decreases |w.todo|
  {
    if w.todo != [] {
      TailEntries(w.todo);
      VisitWeighs(clock, w);
      VisitAllNeverAdds(clock, Visit(clock, w));
    }
  }

  ghost predicate AllDue(clock: nat -> int, q: seq<Entry>, tick: nat)
  {
    forall i :: 0 <= i < |q| && q[i].info.active ==> Due(clock, q[i], tick)
  }

  lemma StillDue(clock: nat -> int, q: seq<Entry>, tick: nat, later: nat)
    requires Monotone(clock) && AllDue(clock, q, tick) && tick <= later && q != []
    ensures AllDue(clock, q[1..], later)
  {
    assert clock(tick) <= clock(later);
  }

  /** A pass that finds an active frame, all active frames being due, takes weight from the queue. */
  lemma {:induction false} VisitAllTakes(clock: nat -> int, w: Walk, i: nat)
    requires Monotone(clock) && EntriesOk(w.todo) && AllDue(clock, w.todo, w.tick)
    requires i < |w.todo| && w.todo[i].info.active
    ensures Measure(VisitAll(clock, w).done) < Measure(w.done) + Measure(w.todo)
    decreases |w.todo|
  {
    TailEntries(w.todo);
    VisitWeighs(clock, w);
    var w' := Visit(clock, w);
    VisitShape(clock, w);
    if w.todo[0].info.active {
      VisitAllNeverAdds(clock, w');
    } else {
      StillDue(clock, w.todo, w.tick, w'.tick);
      VisitAllTakes(clock, w', i - 1);
    }
  }

  lemma VisitShape(clock: nat -> int, w: Walk)
    requires w.todo != []
    ensures Visit(clock, w).todo == w.todo[1..] && Visit(clock, w).tick >= w.tick
  {
  }

  // ---------- responses ----------

  lemma {:induction false} MeasureJoin(a: seq<Entry>, b: seq<Entry>)
    ensures Measure(a + b) == Measure(a) + Measure(b)
    decreases |a|
  {
    if a == [] {
      assert a + b == b;
    } else {
      JoinTail(a, b);
      MeasureJoin(a[1..], b);
    }
  }

  lemma MeasureMiddle(front: seq<Entry>, e: Entry, back: seq<Entry>)
    ensures Measure(front + ([e] + back)) == Measure(front + back) + Weight(e)
  {
    MeasureJoin(front, [e] + back);
    MeasureJoin(front, back);
    assert ([e] + back)[1..] == back;
  }

  lemma MeasureWithout(q: seq<Entry>, i: nat)
    requires i < |q|
    ensures Measure(q) == Measure(Without(q, i)) + Weight(q[i])
  {
    SplitAt(q, i);
    MeasureMiddle(q[..i], q[i], q[i + 1..]);
  }

  /** A response leaves the queue alone or takes weight from it. */
  lemma RespondTakes(clock: nat -> int, s: Server, seqNum: word, msgId: byte)
    requires EntriesOk(s.queue)
    ensures var s' := RespondStep(clock, s, seqNum, msgId);
            s'.queue == s.queue || Measure(s'.queue) < Measure(s.queue)
  {
    var i := Find(s.queue, seqNum);
    if i < |s.queue| {
      assert EntryOk(s.queue[i]);
      MeasureWithout(s.queue, i);
    }
  }

  lemma FewerStamped(clock: nat -> int, q: seq<Entry>, i: nat, tick: nat)
    requires Stamped(clock, q, tick) && i < |q|
    ensures Stamped(clock, Without(q, i), tick)
  {
    var r := Without(q, i);
    forall k | 0 <= k < |r| ensures r[k] == q[if k < i then k else k + 1] { WithoutAt(q, i, k); }
  }

  lemma FewerTimeouts(q: seq<Entry>, i: nat, limit: int)
    requires TimeoutsWithin(q, limit) && i < |q|
    ensures TimeoutsWithin(Without(q, i), limit)
  {
    var r := Without(q, i);
    forall k | 0 <= k < |r| ensures r[k] == q[if k < i then k else k + 1] { WithoutAt(q, i, k); }
  }

  // ---------- passes and responses ----------

  /** The server after further steps. */
  function Continue(clock: nat -> int, s: Server, ops: seq<Op>): (s': Server)
    decreases |ops|
  {
    if ops == [] then s else Continue(clock, Apply(clock, s, ops[0]), ops[1..])
  }

  function Passes(ops: seq<Op>): (n: nat)
    decreases |ops|
  {
    if ops == [] then 0 else (if ops[0].Tick? then 1 else 0) + Passes(ops[1..])
  }

  /** Before each further pass the clock has advanced by at least `limit` since the last reading of the pass
      before; `last` counts the readings taken when that pass ended, once there has been one. */
  ghost predicate Spaced(clock: nat -> int, s: Server, ops: seq<Op>, limit: int, last: Option<nat>)
    decreases |ops|
  {
    ops != [] ==>
      var s' := Apply(clock, s, ops[0]);
      if ops[0].Tick? then
        && (last.Some? && last.value > 0 ==> clock(s.tick) - clock(last.value - 1) >= limit)
        && Spaced(clock, s', ops[1..], limit, Some(s'.tick))
      else
        Spaced(clock, s', ops[1..], limit, last)
  }

  lemma VisitKeepsTimeouts(clock: nat -> int, w: Walk, limit: int)
    requires w.todo != [] && TimeoutsWithin(w.done, limit) && TimeoutsWithin(w.todo, limit)
    ensures TimeoutsWithin(Visit(clock, w).done, limit) && TimeoutsWithin(Visit(clock, w).todo, limit)
  {
    assert Visit(clock, w).todo == w.todo[1..];
  }

  lemma {:induction false} VisitAllKeepsTimeouts(clock: nat -> int, w: Walk, limit: int)
    requires TimeoutsWithin(w.done, limit) && TimeoutsWithin(w.todo, limit)
    ensures TimeoutsWithin(VisitAll(clock, w).done, limit)
    decreases |w.todo|
  {
    if w.todo != [] {
      VisitKeepsTimeouts(clock, w, limit);
      VisitAllKeepsTimeouts(clock, Visit(clock, w), limit);
    }
  }

  ghost predicate Draining(clock: nat -> int, s: Server, limit: int)
  {
    && ServerInv(s) && AwaitOk(s.queue)
    && Stamped(clock, s.queue, s.tick)
    && TimeoutsWithin(s.queue, limit)
  }

  lemma PassKeepsDraining(clock: nat -> int, s: Server, limit: int)
    requires Monotone(clock) && Draining(clock, s, limit)
    ensures Draining(clock, PassStep(clock, s), limit) && Settled(PassStep(clock, s).queue)
    ensures Measure(PassStep(clock, s).queue) <= Measure(s.queue)
  {
    var w := Walk([], s.queue, s.tick, s.log);
    PassKeeps(clock, s);
    VisitAllKeepsStamps(clock, w);
    VisitAllKeepsTimeouts(clock, w, limit);
    VisitAllNeverAdds(clock, w);
  }

  lemma RespondKeepsDraining(clock: nat -> int, s: Server, limit: int, seqNum: word, msgId: byte)
    requires Monotone(clock) && Draining(clock, s, limit)
    ensures Draining(clock, RespondStep(clock, s, seqNum, msgId), limit)
  {
    RespondKeeps(clock, s, seqNum, msgId);
    RespondKeepsStamps(clock, s, seqNum, msgId);
    var i := Find(s.queue, seqNum);
    if i < |s.queue| {
      FewerTimeouts(s.queue, i, limit);
    }
  }

  lemma StampedIsDue(clock: nat -> int, q: seq<Entry>, last: nat, now: nat, limit: int)
    requires Stamped(clock, q, last) && TimeoutsWithin(q, limit)
    requires last > 0 ==> clock(now) - clock(last - 1) >= limit
    ensures AllDue(clock, q, now)
  {
  }

  lemma SettledHasActive(q: seq<Entry>) returns (i: nat)
    requires Settled(q) && q != []
    ensures i < |q| && q[i].info.active
  {
    assert q[0].info.active || ActiveFor(q, q[0].info.devNum);
    i :| 0 <= i < |q| && q[i].info.active;
  }

  /** A pass over a settled queue whose active frames are due takes weight. */
  lemma PassTakes(clock: nat -> int, s: Server)
    requires Monotone(clock) && EntriesOk(s.queue) && Settled(s.queue) && s.queue != []
    requires AllDue(clock, s.queue, s.tick)
    ensures Measure(PassStep(clock, s).queue) < Measure(s.queue)
  {
    var i := SettledHasActive(s.queue);
    VisitAllTakes(clock, Walk([], s.queue, s.tick, s.log), i);
  }

  /** What holds between the steps: `left` passes are to come, and they are enough.  After the first pass they
      may be just enough, provided the queue is settled; a response that unsettles it has taken weight. */
  ghost predicate Enough(clock: nat -> int, s: Server, left: nat, last: Option<nat>)
  {
    && Measure(s.queue) <= left
    && (Measure(s.queue) == left ==> last.Some? && Settled(s.queue))
    && (last.Some? ==> last.value <= s.tick && Stamped(clock, s.queue, last.value))
  }

  lemma RespondKeepsEnough(clock: nat -> int, s: Server, seqNum: word, msgId: byte, left: nat, last: Option<nat>)
    requires EntriesOk(s.queue) && Enough(clock, s, left, last)
    ensures Enough(clock, RespondStep(clock, s, seqNum, msgId), left, last)
  {
    RespondTakes(clock, s, seqNum, msgId);
    var i := Find(s.queue, seqNum);
    if i < |s.queue| && last.Some? {
      FewerStamped(clock, s.queue, i, last.value);
    }
  }

  lemma PassKeepsEnough(clock: nat -> int, s: Server, limit: int, left: nat, last: Option<nat>)
    requires Monotone(clock) && Draining(clock, s, limit) && left > 0 && Enough(clock, s, left, last)
    requires last.Some? && last.value > 0 ==> clock(s.tick) - clock(last.value - 1) >= limit
    ensures Enough(clock, PassStep(clock, s), left - 1, Some(PassStep(clock, s).tick))
  {
    PassKeepsDraining(clock, s, limit);
    if Measure(s.queue) == left {
      StampedIsDue(clock, s.queue, last.value, s.tick, limit);
      assert s.queue != [];
      PassTakes(clock, s);
    }
  }

  lemma {:induction false} EnoughDrains(clock: nat -> int, s: Server, ops: seq<Op>, limit: int, last: Option<nat>)
    requires Monotone(clock) && Draining(clock, s, limit)
    requires Enough(clock, s, Passes(ops), last) && Spaced(clock, s, ops, limit, last)
    requires forall op :: op in ops ==> !op.Transmit?
    ensures Continue(clock, s, ops).queue == []
    decreases |ops|
  {
    if ops == [] {
      MeasureBounds(s.queue);
    } else {
      match ops[0]
      case Respond(seqNum, msgId) =>
        RespondKeepsDraining(clock, s, limit, seqNum, msgId);
        RespondKeepsEnough(clock, s, seqNum, msgId, Passes(ops), last);
        EnoughDrains(clock, RespondStep(clock, s, seqNum, msgId), ops[1..], limit, last);
      case Tick =>
        PassKeepsDraining(clock, s, limit);
        PassKeepsEnough(clock, s, limit, Passes(ops), last);
        EnoughDrains(clock, PassStep(clock, s), ops[1..], limit, Some(PassStep(clock, s).tick));
    }
  }

  lemma {:induction false} RunContinues(clock: nat -> int, ops: seq<Op>, more: seq<Op>)
    ensures Run(clock, ops + more) == Continue(clock, Run(clock, ops), more)
    decreases |more|
  {
    if more == [] {
      assert ops + more == ops;
    } else {
      RunLast(clock, ops, more[0]);
      RunContinues(clock, ops + [more[0]], more[1..]);
      MoveHead(ops, more);
    }
  }

  /** From every reachable state: `limit` bounds the queued timeouts, the clock never runs backwards and
      advances by at least `limit` between passes.  Then any interleaving of responses with at least 3n + 1
      passes empties a queue of n frames. */
  lemma QueueDrains(clock: nat -> int, ops: seq<Op>, more: seq<Op>, limit: int)
    requires Monotone(clock)
    requires TimeoutsWithin(Run(clock, ops).queue, limit)
    requires forall op :: op in more ==> !op.Transmit?
    requires Passes(more) > 3 * |Run(clock, ops).queue|
    requires Spaced(clock, Run(clock, ops), more, limit, None)
    ensures Run(clock, ops + more).queue == []
  {
    var s := Run(clock, ops);
    RunKeepsInv(clock, ops);
    RunKeepsStamps(clock, ops);
    MeasureBounds(s.queue);
    EnoughDrains(clock, s, more, limit, None);
    RunContinues(clock, ops, more);
  }

  function Ticks(k: nat): (ops: seq<Op>)
  {
    if k == 0 then [] else [Tick] + Ticks(k - 1)
  }

  lemma {:induction false} TicksArePasses(k: nat)
    ensures Passes(Ticks(k)) == k
    ensures forall op :: op in Ticks(k) ==> op == Tick
  {
    if k > 0 {
      TicksArePasses(k - 1);
      assert Ticks(k)[1..] == Ticks(k - 1);
    }
  }

  /** Without any response more than 3n passes in a row do. */
  lemma PassesAloneDrain(clock: nat -> int, ops: seq<Op>, k: nat, limit: int)
    requires Monotone(clock)
    requires TimeoutsWithin(Run(clock, ops).queue, limit)
    requires k > 3 * |Run(clock, ops).queue|
    requires Spaced(clock, Run(clock, ops), Ticks(k), limit, None)
    ensures Run(clock, ops + Ticks(k)).queue == []
  {
    TicksArePasses(k);
    QueueDrains(clock, ops, Ticks(k), limit);
  }
}
