/** Every frame in the queue and on the bus is the one its client requested. */
module FrameRequests {
  import opened Binary
  import opened BdpWire
  import opened FrameQueue
  import opened FrameRuns

  /** A request that was accepted, with the address looked up for it and the time. */
  datatype Accepted = Accepted(request: Request, addr: Address, atMs: int)

  /** The requests a run accepts, in order: those that find fewer than 255 frames in the queue and an address. */
  function AcceptedIn(clock: nat -> int, ops: seq<Op>): (accepted: seq<Accepted>)
    decreases |ops|
  {
    if ops == [] then []
    else
      var before := ops[..|ops| - 1];
      var s := Run(clock, before);
      AcceptedIn(clock, before) +
      match ops[|ops| - 1]
      case Transmit(request, Some(addr)) =>
        if |s.queue| < 255 then [Accepted(request, addr, clock(s.tick))] else []
      case _ => []
  }

  /** The client's part of a queued frame. */
  predicate Describes(info: FrameInfo, a: Accepted)
  {
    && info.devNum == a.request.devNum
    && info.callback == a.request.callback
    && info.timeoutMs == a.request.timeoutMs
    && info.tsentClientMs == a.request.tsentClientMs
    && info.timeoutClientMs == a.request.timeoutClientMs
  }

  /** The bytes of frame number `id`, read as a receiver reads them. */
  predicate Carries(frame: seq<byte>, id: nat, a: Accepted)
  {
    && |frame| >= 24
    && var h := DecodeHeader(frame);
       && h.addr == a.addr
       && h.msgId == a.request.msgId
       && h.flags == a.request.flags
       && h.sockFd == (if a.request.devNum == 255 then -1 else a.request.sockFd)
       && h.seqNum == Allocated(id)
       && h.timestamp == a.atMs % 65_536
       && frame[24..] == a.request.payload
  }

  ghost predicate EntryMatches(e: Entry, accepted: seq<Accepted>)
  {
    e.id < |accepted| && Describes(e.info, accepted[e.id]) && Carries(e.info.Bytes(), e.id, accepted[e.id])
  }

  ghost predicate EventMatches(e: Event, accepted: seq<Accepted>)
  {
    e.Sent? ==> e.id < |accepted| && e.devNum == accepted[e.id].request.devNum && Carries(e.frame, e.id, accepted[e.id])
  }

  ghost predicate QueueMatches(q: seq<Entry>, accepted: seq<Accepted>)
  {
    forall i :: 0 <= i < |q| ==> EntryMatches(q[i], accepted)
  }

  ghost predicate LogMatches(log: seq<Event>, accepted: seq<Accepted>)
  {
    forall i :: 0 <= i < |log| ==> EventMatches(log[i], accepted)
  }

  // ---------- what a step keeps ----------

  /** A visit changes a frame's state, its stamp and its retry counter, and nothing the client asked for. */
  ghost predicate SameRequest(e: Entry, e': Entry)
  {
    && e'.id == e.id && e'.info.header == e.info.header && e'.info.payload == e.info.payload
    && e'.info.devNum == e.info.devNum && e'.info.callback == e.info.callback
    && e'.info.timeoutMs == e.info.timeoutMs && e'.info.tsentClientMs == e.info.tsentClientMs
    && e'.info.timeoutClientMs == e.info.timeoutClientMs
  }

  lemma SameRequestMatches(e: Entry, e': Entry, accepted: seq<Accepted>)
    requires EntryMatches(e, accepted) && SameRequest(e, e')
    ensures EntryMatches(e', accepted)
  {
    assert e'.info.Bytes() == e.info.Bytes();
  }

  lemma SentMatches(e: Entry, first: bool, accepted: seq<Accepted>)
    requires EntryMatches(e, accepted)
    ensures EventMatches(Sent(e.id, e.info.devNum, first, e.info.Bytes()), accepted)
  {
  }

  lemma VisitShape(clock: nat -> int, w: Walk)
    requires w.todo != []
    ensures var e, w' := w.todo[0], Visit(clock, w);
            && w'.todo == w.todo[1..]
            && (w'.done == w.done || (exists x :: SameRequest(e, x) && w'.done == w.done + [x]))
            && w.log <= w'.log
            && forall k :: |w.log| <= k < |w'.log| ==>
                 w'.log[k].Left? || (exists first :: w'.log[k] == Sent(e.id, e.info.devNum, first, e.info.Bytes()))
  {
    var e, w' := w.todo[0], Visit(clock, w);
    if w'.done != w.done {
      assert SameRequest(e, w'.done[|w.done|]);
    }
    forall k | |w.log| <= k < |w'.log| && !w'.log[k].Left?
      ensures exists first :: w'.log[k] == Sent(e.id, e.info.devNum, first, e.info.Bytes())
    {
      assert w'.log[k] == Sent(e.id, e.info.devNum, w'.log[k].first, e.info.Bytes());
    }
  }

  lemma VisitKeepsMatches(clock: nat -> int, w: Walk, accepted: seq<Accepted>)
    requires w.todo != [] && QueueMatches(w.done, accepted) && QueueMatches(w.todo, accepted)
    requires LogMatches(w.log, accepted)
    ensures var w' := Visit(clock, w);
            QueueMatches(w'.done, accepted) && QueueMatches(w'.todo, accepted) && LogMatches(w'.log, accepted)
  {
    var e, w' := w.todo[0], Visit(clock, w);
    VisitShape(clock, w);
    assert EntryMatches(e, accepted);
    if w'.done != w.done {
      var x :| SameRequest(e, x) && w'.done == w.done + [x];
      SameRequestMatches(e, x, accepted);
    }
    forall k | 0 <= k < |w'.log|
      ensures EventMatches(w'.log[k], accepted)
    {
      if k < |w.log| {
        assert w'.log[k] == w.log[k];
      } else if !w'.log[k].Left? {
        var first :| w'.log[k] == Sent(e.id, e.info.devNum, first, e.info.Bytes());
        SentMatches(e, first, accepted);
      }
    }
  }

  lemma {:induction false} PassKeepsMatches(clock: nat -> int, w: Walk, accepted: seq<Accepted>)
    requires QueueMatches(w.done, accepted) && QueueMatches(w.todo, accepted) && LogMatches(w.log, accepted)
    ensures var w' := VisitAll(clock, w); QueueMatches(w'.done, accepted) && LogMatches(w'.log, accepted)
    decreases |w.todo|
  {
    if w.todo != [] {
      VisitKeepsMatches(clock, w, accepted);
      PassKeepsMatches(clock, Visit(clock, w), accepted);
    }
  }

  lemma MoreAccepted(q: seq<Entry>, log: seq<Event>, accepted: seq<Accepted>, a: Accepted)
    requires QueueMatches(q, accepted) && LogMatches(log, accepted)
    ensures QueueMatches(q, accepted + [a]) && LogMatches(log, accepted + [a])
  {
    forall i | 0 <= i < |q| ensures EntryMatches(q[i], accepted + [a]) { assert EntryMatches(q[i], accepted); }
    forall i | 0 <= i < |log| ensures EventMatches(log[i], accepted + [a]) { assert EventMatches(log[i], accepted); }
  }

  lemma NewFrameMatches(r: Request, addr: Address, seqNum: word, nowMs: int, id: nat, accepted: seq<Accepted>)
    requires seqNum == Allocated(id) && id == |accepted|
    ensures EntryMatches(Entry(id, NewFrame(r, addr, seqNum, nowMs)), accepted + [Accepted(r, addr, nowMs)])
  {
    var info := NewFrame(r, addr, seqNum, nowMs);
    BuiltFrame(addr, r.msgId, if r.devNum == DEVICE_ALL then -1 else r.sockFd, r.flags, seqNum, nowMs, r.payload);
  }

  lemma RespondKeepsMatches(clock: nat -> int, s: Server, seqNum: word, msgId: byte, accepted: seq<Accepted>)
    requires QueueMatches(s.queue, accepted) && LogMatches(s.log, accepted)
    ensures var s' := RespondStep(clock, s, seqNum, msgId);
            QueueMatches(s'.queue, accepted) && LogMatches(s'.log, accepted)
  {
    var i := Find(s.queue, seqNum);
    if i < |s.queue| {
      forall k | 0 <= k < |s.queue| - 1
        ensures EntryMatches(Without(s.queue, i)[k], accepted)
      {
        WithoutAt(s.queue, i, k);
      }
    }
  }

  lemma TransmitKeepsMatches(clock: nat -> int, s: Server, r: Request, addr: Address, accepted: seq<Accepted>)
    requires QueueMatches(s.queue, accepted) && LogMatches(s.log, accepted)
    requires |s.queue| < 255 && s.nextId == |accepted| && s.seqNum == Allocated(s.nextId)
    ensures var s' := TransmitStep(clock, s, r, Some(addr)).0;
            var accepted' := accepted + [Accepted(r, addr, clock(s.tick))];
            QueueMatches(s'.queue, accepted') && LogMatches(s'.log, accepted') && s'.nextId == |accepted'|
  {
    MoreAccepted(s.queue, s.log, accepted, Accepted(r, addr, clock(s.tick)));
    NewFrameMatches(r, addr, s.seqNum, clock(s.tick), s.nextId, accepted);
  }

  lemma NextNumber(clock: nat -> int, ops: seq<Op>)
    ensures Run(clock, ops).seqNum == Allocated(Run(clock, ops).nextId)
  {
    RunKeepsInv(clock, ops);
    AllocatedRemainder(Run(clock, ops).nextId);
  }

  // ---------- every run ----------

  /** In every run the frames are numbered by the requests accepted; every queued frame holds the device, the
      callback and the times its request gave; and every frame in the queue or handed to the bus decodes to the
      address looked up for its request, the request's message type, flags, client socket (-1 for a broadcast)
      and payload, its own sequence number, and the time of acceptance. */
  lemma {:induction false} FramesAreRequests(clock: nat -> int, ops: seq<Op>)
    ensures var s, accepted := Run(clock, ops), AcceptedIn(clock, ops);
            s.nextId == |accepted| && QueueMatches(s.queue, accepted) && LogMatches(s.log, accepted)
    decreases |ops|
  {
    if ops != [] {
      var before := ops[..|ops| - 1];
      var s, accepted := Run(clock, before), AcceptedIn(clock, before);
      FramesAreRequests(clock, before);
      match ops[|ops| - 1]
      case Transmit(r, lookup) =>
        if |s.queue| < 255 && lookup.Some? {
          NextNumber(clock, before);
          TransmitKeepsMatches(clock, s, r, lookup.value, accepted);
        }
      case Respond(seqNum, msgId) => RespondKeepsMatches(clock, s, seqNum, msgId, accepted);
      case Tick => PassKeepsMatches(clock, Walk([], s.queue, s.tick, s.log), accepted);
    }
  }

  /** What a client is answered: busy exactly when 255 frames are queued, else failed exactly when the device has
      no address; a refused request changes nothing, an accepted one joins behind the others, which stay. */
  lemma RequestAnswered(clock: nat -> int, s: Server, r: Request, lookup: Option<Address>)
    ensures var (s', rc) := TransmitStep(clock, s, r, lookup);
            && (rc == Busy <==> |s.queue| >= 255)
            && (rc == Fail <==> |s.queue| < 255 && lookup == None)
            && (rc != Pass ==> s' == s)
            && (rc == Pass ==>
                  && s'.queue[..|s'.queue| - 1] == s.queue && |s'.queue| == |s.queue| + 1
                  && s'.queue[|s.queue|].id == s.nextId && !s'.queue[|s.queue|].info.active
                  && s'.nextId == s.nextId + 1 && s'.tick == s.tick + 1 && s'.log == s.log)
  {
  }
}
