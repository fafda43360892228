/** Transmission of IC-card and SAM data in chunks (ccr.origin/Prtcl_RS232C_8_FuncDef.c:161-616). */
module ChunkedTransmit {
  import opened Binary
  import opened Sequences

  const CHUNK_MAX := 300
  const SINGLE: byte := 0x04
  const MORE: byte := 0x05
  const LAST: byte := 0x06
  const POLL: byte := 0x07
  const ABORT: byte := 0x0F

  /** ICCARD_TRANSMIT_FLAG or SAM_TRANSMIT_FLAG; or-ed into every parameter code, whose low nibble it leaves
      free. */
  type Flag = f: byte | f == 0x30 || f == 0x40 witness 0x30

  datatype Command = Command(param: byte, data: seq<byte>)

  datatype Reply = Positive(param: byte, body: seq<byte>) | Negative | Unavailable

  /** What RS232C_8_ExecuteCommand reports. */
  datatype Exec = Failed | Replied(reply: Reply)

  datatype Result = NoError | AllocationFailed | ExecutionFailed | NegativeReceived | Unexpected | AbortReceived

  function Code(op: byte, flag: Flag): (param: byte)
    requires op < 0x10
  {
    op + flag
  }

  /** The checks every exchange goes through. */
  function Classify(exec: Exec, flag: Flag): (r: Result)
  {
    match exec
    case Failed => ExecutionFailed
    case Replied(Negative) => NegativeReceived
    case Replied(Unavailable) => Unexpected
    case Replied(Positive(param, _)) => if param == Code(ABORT, flag) then AbortReceived else NoError
  }

  // ---------- the intended commands ----------

  /** The chunks that follow once the payload did not fit into one command. */
  function Continued(data: seq<byte>, flag: Flag): (commands: seq<Command>)
    decreases |data|
  {
    if |data| <= CHUNK_MAX then [Command(Code(LAST, flag), data)]
    else [Command(Code(MORE, flag), data[..CHUNK_MAX])] + Continued(data[CHUNK_MAX..], flag)
  }

  function Chunks(payload: seq<byte>, flag: Flag): (commands: seq<Command>)
  {
    if |payload| <= CHUNK_MAX then [Command(Code(SINGLE, flag), payload)] else Continued(payload, flag)
  }

  function Poll(flag: Flag): (c: Command)
  {
    Command(Code(POLL, flag), [])
  }

  /** The commands sent are the chunks of the payload, followed by polls once all chunks are out. */
  ghost predicate Conforms(sent: seq<Command>, payload: seq<byte>, flag: Flag)
  {
    var chunks := Chunks(payload, flag);
    if |sent| <= |chunks| then sent <= chunks
    else chunks <= sent && forall i :: |chunks| <= i < |sent| ==> sent[i] == Poll(flag)
  }

  function Joined(commands: seq<Command>): (data: seq<byte>)
  {
    if commands == [] then [] else commands[0].data + Joined(commands[1..])
  }

  /** A positive reply that does not ask for an abort. */
  predicate Good(e: Exec, flag: Flag)
  {
    e.Replied? && e.reply.Positive? && e.reply.param as int != flag + 0x0F
  }

  /** The device's first `k` answers are good. */
  ghost predicate AllGood(device: seq<Exec>, k: nat, flag: Flag)
    requires k <= |device|
  {
    forall i :: 0 <= i < k ==> Good(device[i], flag)
  }

  /** The bodies of these answers, one after the other. */
  ghost function Bodies(device: seq<Exec>, k: nat, flag: Flag): (data: seq<byte>)
    requires k <= |device| && AllGood(device, k, flag)
  {
    if k == 0 then [] else Bodies(device, k - 1, flag) + device[k - 1].reply.body
  }

  predicate AnswersWith(e: Exec, param: int)
  {
    e.Replied? && e.reply.Positive? && e.reply.param as int == param
  }

  /** The device's first `k` answers keep a transmission of so many chunks going: they are good, and from the last
      chunk on each one announces more. */
  ghost predicate KeepsGoing(device: seq<Exec>, chunks: nat, k: nat, flag: Flag)
  {
    && k <= |device| && AllGood(device, k, flag)
    && forall j :: 0 <= j < k && chunks - 1 <= j ==> AnswersWith(device[j], flag + 5)
  }

  /** What a bad answer number `k` is reported as; a device that has said all it will ever say fails. */
  function FailureOf(device: seq<Exec>, k: nat): (r: Result)
  {
    if k >= |device| then ExecutionFailed
    else
      match device[k]
      case Failed => ExecutionFailed
      case Replied(Negative) => NegativeReceived
      case Replied(Unavailable) => Unexpected
      case Replied(Positive(_, _)) => AbortReceived
  }

  /** How every transmission with memory ends, in terms of the device's answers alone.  Up to the last exchange
      they keep it going and fit the caller's buffer.  If the last one is bad, that is the result, and the data is
      that of the answers before.  If its data does not fit, the buffer is filled.  Otherwise all chunks are out,
      and the answer's parameter code says whether this is the end. */
  ghost predicate Ended(device: seq<Exec>, chunks: nat, flag: Flag, limit: nat, exchanges: nat,
                        result: Result, received: seq<byte>)
  {
    && exchanges > 0 && KeepsGoing(device, chunks, exchanges - 1, flag)
    && |Bodies(device, exchanges - 1, flag)| <= limit
    && if exchanges <= |device| && AllGood(device, exchanges, flag) then
         var data, last := Bodies(device, exchanges, flag), device[exchanges - 1];
         if |data| > limit then
           result == NoError && received == data[..limit]
         else
           && exchanges >= chunks && received == data && !AnswersWith(last, flag + 5)
           && result == if AnswersWith(last, flag + 4) || AnswersWith(last, flag + 6) then NoError else Unexpected
       else
         result == FailureOf(device, exchanges - 1) && received == Bodies(device, exchanges - 1, flag)
  }

  // ---------- the code ----------

  /** The fields of g_Information[Port] that a transmission uses, the device's answers to come, and the
      commands executed so far. */
  class Port {
    const device: seq<Exec>
    var dataSizeToSend: nat
    var storage: seq<byte>
    var index: nat
    var lastParam: byte
    var longData: bool
    var sent: seq<Command>

    constructor (device: seq<Exec>)
      ensures this.device == device && sent == []
    {
      this.device := device;
      dataSizeToSend, storage, index, lastParam, longData, sent := 0, [], 0, 0, false, [];
    }

    /** RS232C_8_ExecuteCommand seen from here; a device that has said all it will ever say fails. */
    method Execute(c: Command) returns (exec: Exec)
      modifies this`sent
      ensures sent == old(sent) + [c]
      ensures exec == (if |old(sent)| < |device| then device[|old(sent)|] else Failed)
    {
      exec := if |sent| < |device| then device[|sent|] else Failed;
      sent := sent + [c];
    }

    /** A transmission in progress: every exchange so far succeeded, and the commands are those intended. */
    ghost predicate OnCourse(payload: seq<byte>, flag: Flag)
      reads this
    {
      && storage == payload
      && 0 < |sent| <= |device| && AllGood(device, |sent|, flag)
      && lastParam == device[|sent| - 1].reply.param
      && Conforms(sent, payload, flag)
      && KeepsGoing(device, |Chunks(payload, flag)|, |sent| - 1, flag)
      && (dataSizeToSend > 0 ==>
            && index + dataSizeToSend == |payload|
            && sent + Continued(payload[index..], flag) == Chunks(payload, flag))
      && (dataSizeToSend == 0 ==> Chunks(payload, flag) <= sent)
    }

    /** TransmitControl with Init set. */
    method StartTransmit(payload: seq<byte>, flag: Flag, hasMemory: bool)
      returns (result: Result, complete: bool, body: seq<byte>)
      requires sent == []
      modifies this
      ensures Conforms(sent, payload, flag) && longData == old(longData)
      ensures complete == (result != NoError)
      ensures result == NoError ==> OnCourse(payload, flag) && |sent| == 1 && body == device[0].reply.body
      ensures !hasMemory ==> result == AllocationFailed && sent == []
      ensures hasMemory && result != NoError ==>
                |sent| == 1 && (device == [] || !Good(device[0], flag)) && result == FailureOf(device, 0)
    {
      dataSizeToSend := |payload|;
      if !hasMemory {
        return AllocationFailed, true, [];
      }
      storage, index := payload, 0;
      complete, body := false, [];
      if dataSizeToSend <= CHUNK_MAX {
        result := Exchange(SINGLE, storage, flag);
        if result == NoError {
          dataSizeToSend := 0;
        }
      } else {
        assert payload[0..] == payload;
        ContinuedFirst(payload, flag);
        result := Exchange(MORE, storage[..CHUNK_MAX], flag);
        if result == NoError {
          index, dataSizeToSend := index + CHUNK_MAX, dataSizeToSend - CHUNK_MAX;
        }
      }
      if result == NoError {
        body := device[0].reply.body;
      } else {
        complete := true;
      }
    }

    /** One exchange with its checks; on success the parameter code of the reply is kept. */
    method Exchange(op: byte, data: seq<byte>, flag: Flag) returns (result: Result)
      requires op < 0x10 && |sent| <= |device| && AllGood(device, |sent|, flag)
      modifies this`sent, this`lastParam
      ensures sent == old(sent) + [Command(Code(op, flag), data)]
      ensures result == NoError ==>
                && |sent| <= |device| && AllGood(device, |sent|, flag)
                && lastParam == device[|sent| - 1].reply.param
      ensures result != NoError ==>
                && (|sent| <= |device| ==> !Good(device[|sent| - 1], flag))
                && result == FailureOf(device, |sent| - 1)
    {
      var exec := Execute(Command(Code(op, flag), data));
      result := Classify(exec, flag);
      if result == NoError {
        lastParam := exec.reply.param;
      }
    }

    /** The last exchange went wrong, those before kept the transmission going. */
    ghost predicate Broken(payload: seq<byte>, flag: Flag, result: Result)
      reads this
    {
      && |sent| > 0 && KeepsGoing(device, |Chunks(payload, flag)|, |sent| - 1, flag)
      && (|sent| <= |device| ==> !Good(device[|sent| - 1], flag))
      && result == FailureOf(device, |sent| - 1)
    }

    /** The exchange that sends the next chunk. */
    method SendNextChunk(ghost payload: seq<byte>, flag: Flag) returns (result: Result)
      requires OnCourse(payload, flag) && dataSizeToSend > 0
      modifies this`sent, this`lastParam, this`index, this`dataSizeToSend
      ensures Conforms(sent, payload, flag) && old(sent) <= sent && |sent| == old(|sent|) + 1
      ensures result == NoError ==> OnCourse(payload, flag)
      ensures result != NoError ==> Broken(payload, flag, result)
    {
      ghost var rest := payload[index..];
      NextChunk(sent, rest, payload, flag);
      if dataSizeToSend <= CHUNK_MAX {
        var chunk := storage[index..index + dataSizeToSend];
        assert rest == chunk;
        result := Exchange(LAST, chunk, flag);
        if result == NoError {
          dataSizeToSend := 0;
        }
      } else {
        var chunk := storage[index..index + CHUNK_MAX];
        assert rest[..CHUNK_MAX] == chunk && rest[CHUNK_MAX..] == payload[index + CHUNK_MAX..];
        result := Exchange(MORE, chunk, flag);
        if result == NoError {
          index, dataSizeToSend := index + CHUNK_MAX, dataSizeToSend - CHUNK_MAX;
        }
      }
    }

    /** TransmitControl without Init. */
    method ContinueTransmit(ghost payload: seq<byte>, flag: Flag)
      returns (result: Result, complete: bool, body: seq<byte>)
      requires OnCourse(payload, flag)
      modifies this`sent, this`lastParam, this`index, this`dataSizeToSend
      ensures Conforms(sent, payload, flag) && old(sent) <= sent
      ensures result == NoError ==> OnCourse(payload, flag)
      ensures result == NoError && !complete ==>
                |sent| == old(|sent|) + 1 && body == device[|sent| - 1].reply.body
      ensures complete ==> (|sent| == old(|sent|) + 1 && Broken(payload, flag, result)) || sent == old(sent)
      ensures complete && sent == old(sent) ==>
                && Chunks(payload, flag) <= sent
                && var last := device[|sent| - 1];
                   && !AnswersWith(last, flag + 5)
                   && result == (if AnswersWith(last, flag + 4) || AnswersWith(last, flag + 6) then NoError
                                 else Unexpected)
      ensures result != NoError ==> complete
    {
      complete, body := false, [];
      if dataSizeToSend > 0 {
        result := SendNextChunk(payload, flag);
      } else if lastParam == Code(MORE, flag) {
        PollConforms(sent, payload, flag);
        StillGoing(device, |Chunks(payload, flag)|, |sent|, flag);
        result := Exchange(POLL, [], flag);
      } else if lastParam == Code(SINGLE, flag) || lastParam == Code(LAST, flag) {
        return NoError, true, [];
      } else {
        return Unexpected, true, [];
      }
      if result != NoError {
        complete := true;
      } else {
        body := device[|sent| - 1].reply.body;
      }
    }

    /** What has been handed to the caller so far: the reply bodies, cut to `limit`. */
    ghost predicate Gathered(flag: Flag, received: seq<byte>, limit: nat, full: bool)
      reads this
    {
      && |sent| <= |device| && AllGood(device, |sent|, flag)
      && received == Cut(Bodies(device, |sent|, flag), limit)
      && full == (|Bodies(device, |sent|, flag)| > limit)
    }

    /** The first exchange and its part of the data. */
    method FirstPart(payload: seq<byte>, flag: Flag, limit: nat, hasMemory: bool)
      returns (result: Result, complete: bool, received: seq<byte>, full: bool)
      requires sent == []
      modifies this
      ensures Conforms(sent, payload, flag)
      ensures |received| <= limit && complete == (result != NoError)
      ensures result == NoError ==> OnCourse(payload, flag) && Gathered(flag, received, limit, full)
      ensures result == NoError ==> |sent| == 1
      ensures !hasMemory ==> result == AllocationFailed && sent == [] && received == []
      ensures hasMemory && result != NoError ==>
                Ended(device, |Chunks(payload, flag)|, flag, limit, |sent|, result, received)
    {
      var body;
      received, full := [], false;
      result, complete, body := StartTransmit(payload, flag, hasMemory);
      if result == NoError {
        FirstBody(device, flag);
        received, full := Append(received, body, limit);
      }
    }

    /** One turn of the loop: a further exchange and its part of the data. */
    method NextPart(ghost payload: seq<byte>, flag: Flag, limit: nat, received: seq<byte>)
      returns (result: Result, complete: bool, received': seq<byte>, full: bool)
      requires OnCourse(payload, flag) && Gathered(flag, received, limit, false)
      modifies this`sent, this`lastParam, this`index, this`dataSizeToSend
      ensures Conforms(sent, payload, flag)
      ensures |received'| <= limit && (result != NoError ==> complete)
      ensures !complete ==>
                && OnCourse(payload, flag) && Gathered(flag, received', limit, full)
                && |sent| == old(|sent|) + 1 && |Bodies(device, |sent| - 1, flag)| <= limit
      ensures complete ==> Ended(device, |Chunks(payload, flag)|, flag, limit, |sent|, result, received')
      ensures complete && result == NoError ==> Chunks(payload, flag) <= sent
    {
      hide Chunks, Ended, FailureOf;
      var body;
      received', full := received, false;
      ghost var n := |sent|;
      result, complete, body := ContinueTransmit(payload, flag);
      if complete {
        if |sent| == n {
          EndsHere(device, |Chunks(payload, flag)|, flag, limit, n, result, received);
        } else {
          BreaksHere(device, |Chunks(payload, flag)|, flag, limit, n, result, received);
        }
      } else {
        received', full := Append(received, body, limit);
      }
    }

    /** _TransmitControl: `limit` is the size of the caller's buffer. */
    method Transmit(payload: seq<byte>, flag: Flag, limit: nat, hasMemory: bool)
      returns (result: Result, received: seq<byte>)
      requires sent == []
      modifies this
      ensures Conforms(sent, payload, flag) && !longData
      ensures |received| <= limit
      ensures !hasMemory ==> result == AllocationFailed && sent == [] && received == []
      ensures hasMemory ==> Ended(device, |Chunks(payload, flag)|, flag, limit, |sent|, result, received)
    {
      longData := true;
      var complete, full;
      result, complete, received, full := FirstPart(payload, flag, limit, hasMemory);
      while !complete && !full
        invariant Conforms(sent, payload, flag) && |received| <= limit
        invariant !hasMemory ==> complete && result == AllocationFailed && sent == [] && received == []
        invariant !complete ==>
                    && result == NoError && OnCourse(payload, flag) && Gathered(flag, received, limit, full)
                    && |Bodies(device, |sent| - 1, flag)| <= limit
        invariant hasMemory && complete ==>
                    Ended(device, |Chunks(payload, flag)|, flag, limit, |sent|, result, received)
        decreases if complete then 0 else 1, |device| - |sent|
      {
        result, complete, received, full := NextPart(payload, flag, limit, received);
      }
      longData := false;
    }

    /** Copies a reply body to the caller's buffer, as far as it fits. */
    method Append(received: seq<byte>, body: seq<byte>, limit: nat) returns (received': seq<byte>, full: bool)
      requires |received| <= limit
      ensures received' == Cut(received + body, limit) && full == (|received + body| > limit)
    {
      if limit >= |received| + |body| {
        return received + body, false;
      } else {
        return received + body[..limit - |received|], true;
      }
    }
  }

  function Cut(data: seq<byte>, limit: nat): (c: seq<byte>)
    ensures |c| <= limit && c <= data
  {
    if |data| <= limit then data else data[..limit]
  }

  lemma FirstBody(device: seq<Exec>, flag: Flag)
    requires device != [] && Good(device[0], flag)
    ensures AllGood(device, 0, flag) && Bodies(device, 0, flag) == []
    ensures AllGood(device, 1, flag) && Bodies(device, 1, flag) == device[0].reply.body
  {
    assert Bodies(device, 0, flag) == [];
  }

  /** A transmission whose last good answer ends it. */
  lemma EndsHere(device: seq<Exec>, chunks: nat, flag: Flag, limit: nat, n: nat, result: Result, received: seq<byte>)
    requires 0 < n <= |device| && chunks <= n && KeepsGoing(device, chunks, n - 1, flag) && AllGood(device, n, flag)
    requires |Bodies(device, n, flag)| <= limit && received == Bodies(device, n, flag)
    requires var last := device[n - 1];
             && !AnswersWith(last, flag + 5)
             && result == if AnswersWith(last, flag + 4) || AnswersWith(last, flag + 6) then NoError else Unexpected
    ensures Ended(device, chunks, flag, limit, n, result, received)
  {
  }

  /** A transmission that answer number `n` breaks off. */
  lemma BreaksHere(device: seq<Exec>, chunks: nat, flag: Flag, limit: nat, n: nat, result: Result, received: seq<byte>)
    requires KeepsGoing(device, chunks, n, flag)
    requires |Bodies(device, n, flag)| <= limit && received == Bodies(device, n, flag)
    requires (n < |device| ==> !Good(device[n], flag)) && result == FailureOf(device, n)
    ensures Ended(device, chunks, flag, limit, n + 1, result, received)
  {
  }

  /** An answer that announces more keeps the transmission going. */
  lemma StillGoing(device: seq<Exec>, chunks: nat, k: nat, flag: Flag)
    requires 0 < k <= |device| && KeepsGoing(device, chunks, k - 1, flag) && AllGood(device, k, flag)
    requires AnswersWith(device[k - 1], flag + 5)
    ensures KeepsGoing(device, chunks, k, flag)
  {
  }

  lemma PollConforms(sent: seq<Command>, payload: seq<byte>, flag: Flag)
    requires Conforms(sent, payload, flag) && Chunks(payload, flag) <= sent
    ensures Conforms(sent + [Poll(flag)], payload, flag) && Chunks(payload, flag) <= sent + [Poll(flag)]
  {
  }

  /** The next chunk of the data not yet sent. */
  lemma NextChunk(sent: seq<Command>, rest: seq<byte>, payload: seq<byte>, flag: Flag)
    requires sent + Continued(rest, flag) == Chunks(payload, flag)
    ensures |rest| <= CHUNK_MAX ==>
              var sent' := sent + [Command(Code(LAST, flag), rest)];
              sent' == Chunks(payload, flag) && Conforms(sent', payload, flag)
    ensures |rest| > CHUNK_MAX ==>
              var sent' := sent + [Command(Code(MORE, flag), rest[..CHUNK_MAX])];
              sent' + Continued(rest[CHUNK_MAX..], flag) == Chunks(payload, flag) && Conforms(sent', payload, flag)
  {
    if |rest| > CHUNK_MAX {
      ContinuedFirst(rest, flag);
      var c, tail := Command(Code(MORE, flag), rest[..CHUNK_MAX]), Continued(rest[CHUNK_MAX..], flag);
      assert sent + ([c] + tail) == (sent + [c]) + tail;
    }
  }

  lemma ContinuedFirst(data: seq<byte>, flag: Flag)
    requires |data| > CHUNK_MAX
    ensures Continued(data, flag)
         == [Command(Code(MORE, flag), data[..CHUNK_MAX])] + Continued(data[CHUNK_MAX..], flag)
    ensures Continued(data[CHUNK_MAX..], flag) != []
  {
  }

  // ---------- properties of the intended commands ----------

  lemma {:induction false} JoinedAppend(a: seq<Command>, b: seq<Command>)
    ensures Joined(a + b) == Joined(a) + Joined(b)
    decreases |a|
  {
    if a == [] {
      assert a + b == b;
    } else {
      JoinTail(a, b);
      JoinedAppend(a[1..], b);
    }
  }

  lemma {:induction false} ContinuedShape(data: seq<byte>, flag: Flag)
    ensures var c := Continued(data, flag);
            && |c| > 0 && Joined(c) == data
            && c[|c| - 1].param == Code(LAST, flag) && |c[|c| - 1].data| <= CHUNK_MAX
            && forall i :: 0 <= i < |c| - 1 ==> c[i].param == Code(MORE, flag) && |c[i].data| == CHUNK_MAX
    decreases |data|
  {
    var c := Continued(data, flag);
    if |data| <= CHUNK_MAX {
      assert Joined(c[1..]) == [];
    } else {
      var rest := Continued(data[CHUNK_MAX..], flag);
      ContinuedShape(data[CHUNK_MAX..], flag);
      assert c[1..] == rest;
      assert data == data[..CHUNK_MAX] + data[CHUNK_MAX..];
      assert forall i :: 1 <= i < |c| ==> c[i] == rest[i - 1];
    }
  }

  /** For every payload: the chunks join to the payload; it is one command 0x04, or commands 0x05 ending in
      one 0x06; and every chunk but the last holds exactly 300 bytes.  A poll is an empty command 0x07. */
  lemma ChunksCarryPayload(payload: seq<byte>, flag: Flag)
    ensures var c := Chunks(payload, flag);
            && |c| > 0 && Joined(c) == payload
            && (|payload| <= 300 <==> c == [Command(flag + 0x04, payload)])
            && (|payload| > 300 ==> c[|c| - 1].param == flag + 0x06)
            && 0 <= |c[|c| - 1].data| <= 300
            && forall i :: 0 <= i < |c| - 1 ==> c[i].param == flag + 0x05 && |c[i].data| == 300
    ensures Poll(flag) == Command(flag + 0x07, [])
  {
    if |payload| <= CHUNK_MAX {
      assert Joined(Chunks(payload, flag)[1..]) == [];
    } else {
      ContinuedShape(payload, flag);
    }
  }

  lemma {:induction false} PollsCarryNothing(polls: seq<Command>, flag: Flag)
    requires forall i :: 0 <= i < |polls| ==> polls[i] == Poll(flag)
    ensures Joined(polls) == []
    decreases |polls|
  {
    if polls != [] {
      PollsCarryNothing(polls[1..], flag);
    }
  }

  /** The data sent is always a prefix of the payload, and all of it once the chunks are out: polls add
      nothing. */
  lemma SentIsPayloadPrefix(sent: seq<Command>, payload: seq<byte>, flag: Flag)
    requires Conforms(sent, payload, flag)
    ensures Joined(sent) <= payload
    ensures Chunks(payload, flag) <= sent ==> Joined(sent) == payload
  {
    var chunks := Chunks(payload, flag);
    ChunksCarryPayload(payload, flag);
    if |sent| <= |chunks| {
      assert chunks == sent + chunks[|sent|..];
      JoinedAppend(sent, chunks[|sent|..]);
    } else {
      var polls := sent[|chunks|..];
      assert sent == chunks + polls;
      JoinedAppend(chunks, polls);
      PollsCarryNothing(polls, flag);
    }
  }

  /** Bytes sent plus DataSizeToSend stay equal to the payload's length while a transmission is under way. */
  lemma BytesAddUp(port: Port, payload: seq<byte>, flag: Flag)
    requires port.OnCourse(payload, flag)
    ensures |Joined(port.sent)| + port.dataSizeToSend == |payload|
  {
    ChunksCarryPayload(payload, flag);
    if port.dataSizeToSend > 0 {
      var rest := payload[port.index..];
      JoinedAppend(port.sent, Continued(rest, flag));
      ContinuedShape(rest, flag);
    } else {
      SentIsPayloadPrefix(port.sent, payload, flag);
    }
  }

  // ---------- when a transmission succeeds ----------

  lemma {:induction false} BodiesPrefix(device: seq<Exec>, k: nat, n: nat, flag: Flag)
    requires k <= n <= |device| && AllGood(device, n, flag)
    ensures AllGood(device, k, flag) && Bodies(device, k, flag) <= Bodies(device, n, flag)
    decreases n
  {
    if k < n {
      BodiesPrefix(device, k, n - 1, flag);
    }
  }

  /** The last exchange of a transmission that the device ends with its answer number `n`, or an earlier one
      that fills the buffer. */
  lemma LastExchange(device: seq<Exec>, chunks: nat, flag: Flag, limit: nat, n: nat, exchanges: nat,
                     result: Result, received: seq<byte>)
    requires 0 < chunks <= n <= |device| && KeepsGoing(device, chunks, n - 1, flag) && Good(device[n - 1], flag)
    requires !AnswersWith(device[n - 1], flag + 5)
    requires Ended(device, chunks, flag, limit, exchanges, result, received)
    ensures 0 < exchanges <= n && AllGood(device, n, flag)
    ensures exchanges < n ==> |Bodies(device, exchanges, flag)| > limit
  {
    if exchanges > n {
      assert false;
    }
  }

  /** When a transmission succeeds: let the device's first `n` answers be good, at least one for each chunk, those
      from the last chunk on announcing more except the `n`-th, which announces the end.  Then the result is no
      error and the data is the joined bodies of these answers, cut to the caller's limit; and if they fit,
      exactly the chunks and so many polls were sent. */
  lemma TransmitSucceeds(device: seq<Exec>, payload: seq<byte>, flag: Flag, limit: nat, n: nat,
                         sent: seq<Command>, result: Result, received: seq<byte>)
    requires var chunks := |Chunks(payload, flag)|;
             0 < chunks <= n <= |device| && KeepsGoing(device, chunks, n - 1, flag) && Good(device[n - 1], flag)
    requires AnswersWith(device[n - 1], flag + 4) || AnswersWith(device[n - 1], flag + 6)
    requires Ended(device, |Chunks(payload, flag)|, flag, limit, |sent|, result, received)
    requires Conforms(sent, payload, flag)
    ensures result == NoError && AllGood(device, n, flag)
    ensures var data := Bodies(device, n, flag);
            && received == (if |data| <= limit then data else data[..limit])
            && (|data| <= limit ==>
                  && |sent| == n && Chunks(payload, flag) <= sent
                  && forall i :: |Chunks(payload, flag)| <= i < n ==> sent[i] == Command(flag + 0x07, []))
  {
    hide Chunks, Bodies;
    LastExchange(device, |Chunks(payload, flag)|, flag, limit, n, |sent|, result, received);
    BodiesPrefix(device, |sent|, n, flag);
  }

  /** When it fails: the first bad answer is what is reported, by its kind, and the data of the answers before it is
      kept; a device that announces neither more nor the end makes the result unexpected. */
  lemma TransmitFails(device: seq<Exec>, payload: seq<byte>, flag: Flag, limit: nat, n: nat,
                      sent: seq<Command>, result: Result, received: seq<byte>)
    requires KeepsGoing(device, |Chunks(payload, flag)|, n, flag) && |Bodies(device, n, flag)| <= limit
    requires n < |device|
    requires Ended(device, |Chunks(payload, flag)|, flag, limit, |sent|, result, received)
    ensures device[n] == Failed ==> result == ExecutionFailed
    ensures device[n] == Replied(Negative) ==> result == NegativeReceived
    ensures device[n] == Replied(Unavailable) ==> result == Unexpected
    ensures AnswersWith(device[n], flag + 0x0F) ==> result == AbortReceived
    ensures !Good(device[n], flag) ==> |sent| == n + 1 && received == Bodies(device, n, flag)
    ensures Good(device[n], flag) && |Bodies(device, n + 1, flag)| <= limit && n + 1 >= |Chunks(payload, flag)|
            && !AnswersWith(device[n], flag + 4) && !AnswersWith(device[n], flag + 5)
            && !AnswersWith(device[n], flag + 6)
            ==> result == Unexpected && |sent| == n + 1 && received == Bodies(device, n + 1, flag)
  {
    GoesAsFar(device, |Chunks(payload, flag)|, flag, limit, n, |sent|, result, received);
  }

  lemma GoesAsFar(device: seq<Exec>, chunks: nat, flag: Flag, limit: nat, n: nat, exchanges: nat,
                  result: Result, received: seq<byte>)
    requires KeepsGoing(device, chunks, n, flag) && |Bodies(device, n, flag)| <= limit && n < |device|
    requires Ended(device, chunks, flag, limit, exchanges, result, received)
    ensures exchanges > n
    ensures !Good(device[n], flag) ==> exchanges == n + 1
    ensures Good(device[n], flag) && n + 1 >= chunks && !AnswersWith(device[n], flag + 5) ==> exchanges == n + 1
  {
    if exchanges <= n {
      BodiesPrefix(device, exchanges, n, flag);
    }
  }
}
