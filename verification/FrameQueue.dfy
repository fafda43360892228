/** The frame manager of the BDP server on values: the queue of frames in flight, its three atomic steps
    (a client request, a response from the bus, one pass of the periodic thread) and a log of what they do.
    The linked list of src/svsBdp.c refines this in module FrameList. */
module FrameQueue {
  import opened Binary
  import opened BdpWire

  const RETRY_MAX := 2
  const ACTIVE_MAX := 255
  const MSG_ACK: byte := 6

  /** bdp_frame_info_t */
  datatype FrameInfo = FrameInfo(devNum: nat, active: bool, tsentClientMs: int, timeoutClientMs: int,
                                 tsentMs: int, timeoutMs: int, retry: nat, callback: nat,
                                 header: Header, payload: seq<byte>)
  {
    function Bytes(): (frame: seq<byte>)
    {
      EncodeHeader(header) + payload
    }

    /** Frames nobody will answer are dropped as soon as they have been sent. */
    predicate NoResponse()
    {
      devNum == DEVICE_ALL || header.flags % 2 == 1 || timeoutMs == 0
    }
  }

  /** A queued frame; `id` numbers the requests in the order they were accepted. */
  datatype Entry = Entry(id: nat, info: FrameInfo)

  datatype Reason = Answered | NoResponseDue | Exhausted

  datatype Event =
    | Sent(id: nat, devNum: nat, first: bool, frame: seq<byte>)
    | Left(id: nat, reason: Reason)
    | Reply(id: nat)
    | Callback(id: nat)

  // ---------- one pass of the thread ----------

  /** A pass in progress: the frames already visited, those still to visit, the number of clock readings
      taken so far, and the log. */
  datatype Walk = Walk(done: seq<Entry>, todo: seq<Entry>, tick: nat, log: seq<Event>)

  predicate ActiveFor(q: seq<Entry>, devNum: nat)
  {
    exists i :: 0 <= i < |q| && q[i].info.active && q[i].info.devNum == devNum
  }

  function FirstSend(clock: nat -> int, w: Walk, e: Entry, rest: seq<Entry>): (w': Walk)
  {
    var sent := e.(info := e.info.(active := true, tsentMs := clock(w.tick), retry := 0));
    var log := w.log + [Sent(e.id, e.info.devNum, true, e.info.Bytes())];
    if e.info.NoResponse() then Walk(w.done, rest, w.tick + 1, log + [Left(e.id, NoResponseDue)])
    else Walk(w.done + [sent], rest, w.tick + 1, log)
  }

  function Expired(clock: nat -> int, w: Walk, e: Entry, rest: seq<Entry>): (w': Walk)
  {
    if e.info.retry < RETRY_MAX then
      var again := e.(info := e.info.(tsentMs := clock(w.tick + 1), retry := e.info.retry + 1));
      Walk(w.done + [again], rest, w.tick + 2, w.log + [Sent(e.id, e.info.devNum, false, e.info.Bytes())])
    else
      Walk(w.done, rest, w.tick + 1, w.log + [Left(e.id, Exhausted)])
  }

  /** The visit of one node. */
  function Visit(clock: nat -> int, w: Walk): (w': Walk)
    requires w.todo != []
  {
    var e, rest := w.todo[0], w.todo[1..];
    if !e.info.active then
      if ActiveFor(w.done, e.info.devNum) || ActiveFor(rest, e.info.devNum)
      then Walk(w.done + [e], rest, w.tick, w.log)
      else FirstSend(clock, w, e, rest)
    else if clock(w.tick) - e.info.tsentMs >= e.info.timeoutMs then
      Expired(clock, w, e, rest)
    else
      Walk(w.done + [e], rest, w.tick + 1, w.log)
  }

  function VisitAll(clock: nat -> int, w: Walk): (w': Walk)
    ensures w'.todo == []
    decreases |w.todo|
  {
    if w.todo == [] then w else VisitAll(clock, Visit(clock, w))
  }

  // ---------- the server ----------

  /** `nextId` counts accepted requests, `seqNum` is the sequence number of the next one, `tick` counts
      clock readings. */
  datatype Server = Server(queue: seq<Entry>, nextId: nat, seqNum: word, tick: nat, log: seq<Event>)

  const INITIAL := Server([], 0, 1, 0, [])

  type Payload = p: seq<byte> | |p| <= PAYLOAD_MAX

  datatype Request = Request(devNum: nat, msgId: byte, flags: byte, sockFd: int32, callback: nat, timeoutMs: int,
                             tsentClientMs: int, timeoutClientMs: int, payload: Payload)

  datatype Status = Pass | Fail | Busy

  datatype Op =
    | Transmit(request: Request, lookup: Option<Address>)
    | Respond(seqNum: word, msgId: byte)
    | Tick

  /** The sequence number after `s`: 8 bits, never 0. */
  function NextSeq(s: word): (s': word)
  {
    if (s + 1) % 0x100 == 0 then 1 else (s + 1) % 0x100
  }

  function NewFrame(r: Request, addr: Address, seqNum: word, nowMs: int): (info: FrameInfo)
  {
    var sockFd := if r.devNum == DEVICE_ALL then -1 else r.sockFd;
    FrameInfo(r.devNum, false, r.tsentClientMs, r.timeoutClientMs, 0, r.timeoutMs, 0, r.callback,
              BuildHeader(addr, r.msgId, sockFd, r.flags, seqNum, nowMs, r.payload), r.payload)
  }

  function TransmitStep(clock: nat -> int, s: Server, r: Request, lookup: Option<Address>): (result: (Server, Status))
  {
    if |s.queue| >= ACTIVE_MAX then (s, Busy)
    else if lookup.None? then (s, Fail)
    else
      var e := Entry(s.nextId, NewFrame(r, lookup.value, s.seqNum, clock(s.tick)));
      (Server(s.queue + [e], s.nextId + 1, NextSeq(s.seqNum), s.tick + 1, s.log), Pass)
  }

  /** The first queued frame with sequence number `seqNum`, or the queue length. */
  function Find(q: seq<Entry>, seqNum: word): (i: nat)
    ensures i <= |q|
    ensures i < |q| ==> q[i].info.header.seqNum == seqNum
    ensures forall k :: 0 <= k < i ==> q[k].info.header.seqNum != seqNum
  {
    if q == [] then 0
    else if q[0].info.header.seqNum == seqNum then 0
    else 1 + Find(q[1..], seqNum)
  }

  function Without(q: seq<Entry>, i: nat): (q': seq<Entry>)
    requires i < |q|
  {
    q[..i] + q[i + 1..]
  }

  /** What a matched response causes, and how many clock readings that takes. */
  function Deliver(clock: nat -> int, tick: nat, e: Entry, msgId: byte): (result: (nat, seq<Event>))
  {
    if e.info.header.msgId != msgId && msgId != MSG_ACK then (tick, [])
    else if e.info.timeoutMs == 0 && e.info.callback == 0 then (tick, [])
    else if e.info.callback != 0 then (tick, [Callback(e.id)])
    else if clock(tick) - e.info.tsentClientMs >= e.info.timeoutClientMs then (tick + 1, [])
    else (tick + 1, [Reply(e.id)])
  }

  function RespondStep(clock: nat -> int, s: Server, seqNum: word, msgId: byte): (s': Server)
  {
    var i := Find(s.queue, seqNum);
    if i == |s.queue| then s
    else
      var (tick, events) := Deliver(clock, s.tick, s.queue[i], msgId);
      s.(queue := Without(s.queue, i), tick := tick, log := s.log + [Left(s.queue[i].id, Answered)] + events)
  }

  function PassStep(clock: nat -> int, s: Server): (s': Server)
  {
    var w := VisitAll(clock, Walk([], s.queue, s.tick, s.log));
    s.(queue := w.done, tick := w.tick, log := w.log)
  }

  function Apply(clock: nat -> int, s: Server, op: Op): (s': Server)
  {
    match op
    case Transmit(request, lookup) => TransmitStep(clock, s, request, lookup).0
    case Respond(seqNum, msgId) => RespondStep(clock, s, seqNum, msgId)
    case Tick => PassStep(clock, s)
  }

  /** A run of the server from its initial state: any interleaving of the three steps. */
  function Run(clock: nat -> int, ops: seq<Op>): (s: Server)
    decreases |ops|
  {
    if ops == [] then INITIAL
    else Apply(clock, Run(clock, ops[..|ops| - 1]), ops[|ops| - 1])
  }

  // ---------- counting events ----------

  datatype Kind = Sends | Leaves | Answers | Notices

  predicate Is(e: Event, kind: Kind, id: nat)
  {
    e.id == id &&
    match kind
    case Sends => e.Sent?
    case Leaves => e.Left?
    case Answers => e == Left(id, Answered)
    case Notices => e.Reply? || e.Callback?
  }

  function Count(log: seq<Event>, kind: Kind, id: nat): (n: nat)
    decreases |log|
  {
    if log == [] then 0
    else Count(log[..|log| - 1], kind, id) + (if Is(log[|log| - 1], kind, id) then 1 else 0)
  }

  lemma CountAppend(log: seq<Event>, e: Event, kind: Kind, id: nat)
    ensures Count(log + [e], kind, id) == Count(log, kind, id) + (if Is(e, kind, id) then 1 else 0)
  {
    assert (log + [e])[..|log|] == log;
  }

  /** The ids of the frames sent to a device for the first time, in order. */
  function Firsts(log: seq<Event>, devNum: nat): (ids: seq<nat>)
    decreases |log|
  {
    if log == [] then []
    else
      var e, earlier := log[|log| - 1], Firsts(log[..|log| - 1], devNum);
      if e.Sent? && e.first && e.devNum == devNum then earlier + [e.id] else earlier
  }

  lemma FirstsAppend(log: seq<Event>, e: Event, devNum: nat)
    ensures Firsts(log + [e], devNum)
         == Firsts(log, devNum) + (if e.Sent? && e.first && e.devNum == devNum then [e.id] else [])
  {
    assert (log + [e])[..|log|] == log;
  }
}
