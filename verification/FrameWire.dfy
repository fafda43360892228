/** The frame manager and the bus together: what the thread sends is what a receiver decodes. */
module FrameWire {
  import opened Binary
  import opened BdpWire
  import opened FrameQueue
  import opened FrameRuns
  import BdpReceiver
  import BdpStream

  /** `s` was handed to svsBdpFrameSend in the run that produced `log`. */
  ghost predicate WasSent(log: seq<Event>, s: BdpStream.Sending)
  {
    exists i :: 0 <= i < |log| && log[i].Sent? && log[i].frame == s.frame
  }

  /** Whatever frames a run of the server puts on a bus, in whatever order the bus carries them and with any
      bytes but 0xAA before each (the three zeros that wake the devices, for instance), an idle receiver
      decodes exactly those frames, in that order, however they are cut into reads. */
  lemma TransmissionsDecoded(clock: nat -> int, ops: seq<Op>, sendings: seq<BdpStream.Sending>,
                             rx: BdpReceiver.Rx, last: int, chunks: seq<BdpStream.Read>)
    requires forall s :: s in sendings ==> PREAMBLE_BYTE !in s.noise && WasSent(Run(clock, ops).log, s)
    requires BdpReceiver.Valid(rx) && rx.phase == BdpReceiver.Idle
    requires BdpStream.Joined(chunks) == BdpStream.Stream(sendings) && BdpStream.NoLongGap(last, chunks)
    ensures BdpStream.Reads(rx, last, chunks).1 == BdpStream.Frames(sendings)
  {
    RunKeepsInv(clock, ops);
    var log := Run(clock, ops).log;
    forall s | s in sendings
      ensures WellFormed(s.frame)
    {
      var i :| 0 <= i < |log| && log[i].Sent? && log[i].frame == s.frame;
    }
    BdpStream.CutsDoNotMatter(rx, last, chunks);
    BdpStream.StreamRoundTrip(rx, sendings);
  }

  // ---------- sequence numbers can collide ----------

  const LASTING := Request(0, 1, 0, 5, 0, 1_000, 0, 1_000, [])
  const BROADCAST := Request(DEVICE_ALL, 1, 0, 5, 0, 1_000, 0, 1_000, [])

  function Still(t: nat): (now: int)
  {
    0
  }

  /** One frame for device 0, a pass, and `n` broadcasts with a pass after each. */
  function Busy(n: nat): (ops: seq<Op>)
    decreases n
  {
    if n == 0 then [Transmit(LASTING, Some(ZERO_ADDRESS)), Tick]
    else Busy(n - 1) + [Transmit(BROADCAST, Some(BROADCAST_ADDRESS)), Tick]
  }

  lemma RunTwo(clock: nat -> int, ops: seq<Op>, a: Op, b: Op)
    ensures Run(clock, ops + [a, b]) == Apply(clock, Apply(clock, Run(clock, ops), a), b)
  {
    var two := ops + [a, b];
    assert two[..|two| - 1] == ops + [a];
    assert (ops + [a])[..|ops|] == ops;
  }

  /** A broadcast is sent and dropped in the pass after it is accepted; the waiting frame stays. */
  lemma BroadcastPasses(s: Server)
    requires |s.queue| == 1 && s.queue[0].info.active && s.queue[0].info.devNum == 0
    requires s.queue[0].info.tsentMs == 0 && s.queue[0].info.timeoutMs == 1_000
    ensures var s' := Apply(Still, Apply(Still, s, Transmit(BROADCAST, Some(BROADCAST_ADDRESS))), Tick);
            s'.queue == s.queue && s'.nextId == s.nextId + 1
  {
    var s1 := Apply(Still, s, Transmit(BROADCAST, Some(BROADCAST_ADDRESS)));
    var e := s1.queue[1];
    assert s1.queue == [s.queue[0], e];
    var w0 := Walk([], s1.queue, s1.tick, s1.log);
    var w1 := Visit(Still, w0);
    assert w1 == Walk([s.queue[0]], [e], s1.tick + 1, s1.log);
    var w2 := Visit(Still, w1);
    assert !ActiveFor(w1.done, DEVICE_ALL) && !ActiveFor(w1.todo[1..], DEVICE_ALL);
    assert w2.done == w1.done && w2.todo == [];
    assert VisitAll(Still, w0) == VisitAll(Still, w1) == VisitAll(Still, w2) == w2;
  }

  ghost predicate LastingOnly(s: Server, accepted: nat)
  {
    && |s.queue| == 1 && s.queue[0].id == 0 && s.queue[0].info.active && s.queue[0].info.devNum == 0
    && s.queue[0].info.tsentMs == 0 && s.queue[0].info.timeoutMs == 1_000
    && s.nextId == accepted
  }

  lemma LastingSent()
    ensures LastingOnly(Apply(Still, Apply(Still, INITIAL, Transmit(LASTING, Some(ZERO_ADDRESS))), Tick), 1)
  {
    var s1 := Apply(Still, INITIAL, Transmit(LASTING, Some(ZERO_ADDRESS)));
    var e := s1.queue[0];
    assert s1.queue == [e] && [e][1..] == [];
    var w0 := Walk([], s1.queue, s1.tick, s1.log);
    var w1 := Visit(Still, w0);
    assert !ActiveFor([], 0);
    assert w1.todo == [] && |w1.done| == 1;
    assert VisitAll(Still, w0) == VisitAll(Still, w1) == w1;
  }

  lemma FirstRound()
    ensures Run(Still, Busy(0)) == Apply(Still, Apply(Still, INITIAL, Transmit(LASTING, Some(ZERO_ADDRESS))), Tick)
  {
    var a, b := Transmit(LASTING, Some(ZERO_ADDRESS)), Tick;
    RunTwo(Still, [], a, b);
    assert [] + [a, b] == [a, b] == Busy(0);
    assert Run(Still, []) == INITIAL;
  }

  lemma {:induction false} LastingStays(n: nat)
    ensures LastingOnly(Run(Still, Busy(n)), n + 1)
    decreases n
  {
    if n == 0 {
      FirstRound();
      LastingSent();
    } else {
      LastingStays(n - 1);
      LaterRound(n);
      BroadcastPasses(Run(Still, Busy(n - 1)));
    }
  }

  lemma LaterRound(n: nat)
    requires n > 0
    ensures Run(Still, Busy(n))
         == Apply(Still, Apply(Still, Run(Still, Busy(n - 1)), Transmit(BROADCAST, Some(BROADCAST_ADDRESS))), Tick)
  {
    RunTwo(Still, Busy(n - 1), Transmit(BROADCAST, Some(BROADCAST_ADDRESS)), Tick);
  }

  lemma OneMore(s: Server, n: nat)
    requires LastingOnly(s, n)
    ensures var q := Apply(Still, s, Transmit(LASTING, Some(ZERO_ADDRESS))).queue;
            |q| == 2 && q[0].id == 0 && q[1].id == n
  {
  }

  /** A frame that outlives 255 allocations meets its own sequence number again: the queue then holds two
      frames with the same number, and a response to the later one removes the earlier. */
  lemma NumbersCollide() returns (ops: seq<Op>)
    ensures var q := Run(Still, ops).queue;
            && |q| == 2 && q[0].id != q[1].id
            && q[0].info.header.seqNum == q[1].info.header.seqNum
            && Find(q, q[1].info.header.seqNum) == 0
  {
    var n := 254;
    var before := Busy(n);
    ops := before + [Transmit(LASTING, Some(ZERO_ADDRESS))];
    assert ops[..|ops| - 1] == before;
    LastingStays(n);
    OneMore(Run(Still, before), n + 1);
    RunKeepsInv(Still, ops);
    ghost var q := Run(Still, ops).queue;
    assert q == Apply(Still, Run(Still, before), Transmit(LASTING, Some(ZERO_ADDRESS))).queue;
    SameNumber(q, n + 1);
  }

  lemma SameNumber(q: seq<Entry>, n: nat)
    requires |q| == 2 && EntriesOk(q) && q[0].id == 0 && q[1].id == n && n % 255 == 0
    ensures q[0].info.header.seqNum == q[1].info.header.seqNum
  {
    assert EntryOk(q[0]) && EntryOk(q[1]);
  }
}
