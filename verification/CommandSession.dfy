/** One command session with the card reader (ccr.origin/Prtcl_RS232C_8.c:268-754): framing, ACK/NAK retries,
    reply check and decoding. */
module CommandSession {
  import opened Binary
  import CrcCcitt

  const STX: byte := 0xF2
  const ACK: byte := 0x06
  const NAK: byte := 0x15
  const EOT: byte := 0x04
  const DLE: byte := 0x10
  const COMMAND_TAG: byte := 0x43        // 'C'
  const POSITIVE_LARGE: byte := 0x50     // 'P'
  const POSITIVE_SMALL: byte := 0x70     // 'p'
  const NEGATIVE_LARGE: byte := 0x4E     // 'N'
  const NEGATIVE_SMALL: byte := 0x6E     // 'n'
  const COMMAND_RETRY := 3
  const NAK_RETRY := 3
  const RECEIVE_RETRY := 3
  const SEND_HEADER := 3
  const REPLY_HEADER := 5
  const BUFFER := 1024

  datatype Command = Command(code: byte, param: byte, data: seq<byte>)

  /** The session's own part of a reply: two status or error bytes and the data. */
  datatype Message = Message(code: byte, param: byte, s1: byte, s0: byte, data: seq<byte>)

  datatype Reply = Positive(message: Message) | Negative(message: Message) | Unavailable

  datatype Rc = NoError | ReplyTimeout | AckTimeout | FailedToReceiveAck | NakOvertimes | CharacterTimeout
              | FailedToSend | FailedToReceiveReply | CommandCanceled | LengthUnfit

  datatype Event = SentCommand(bytes: seq<byte>) | SentAck | NakForTimeout | NakForCrc

  // ---------- frames ----------

  function WithCrc(bytes: seq<byte>): (frame: seq<byte>)
  {
    bytes + [CrcCcitt.Crc(bytes) / 0x100, CrcCcitt.Crc(bytes) % 0x100]
  }

  function EncodeCommand(c: Command): (frame: seq<byte>)
    requires |c.data| + SEND_HEADER < 0x1_0000
  {
    var size := |c.data| + SEND_HEADER;
    WithCrc([STX, size / 0x100, size % 0x100, COMMAND_TAG, c.code, c.param] + c.data)
  }

  /** The reply frame of the device, for any of the four tags. */
  function EncodeReply(tag: byte, m: Message): (frame: seq<byte>)
    requires |m.data| + REPLY_HEADER < 0x1_0000
  {
    var size := |m.data| + REPLY_HEADER;
    WithCrc([STX, size / 0x100, size % 0x100, tag, m.code, m.param, m.s1, m.s0] + m.data)
  }

  predicate IsPositive(tag: byte)
  {
    tag == POSITIVE_LARGE || tag == POSITIVE_SMALL
  }

  predicate IsNegative(tag: byte)
  {
    tag == NEGATIVE_LARGE || tag == NEGATIVE_SMALL
  }

  /** The fields ExecuteCommand copies out of a reply of `frame[3..]` text length at least five. */
  function DecodeMessage(frame: seq<byte>): (m: Message)
    requires |frame| >= REPLY_HEADER + 5
  {
    Message(frame[4], frame[5], frame[6], frame[7], frame[8..|frame| - 2])
  }

  function DecodeReply(frame: seq<byte>): (r: Reply)
    requires |frame| >= REPLY_HEADER + 5
  {
    if IsPositive(frame[3]) then Positive(DecodeMessage(frame))
    else if IsNegative(frame[3]) then Negative(DecodeMessage(frame))
    else Unavailable
  }

  /** The two CRC bytes at the end of the received frame match what precedes them. */
  predicate CrcOk(frame: seq<byte>)
    requires |frame| >= 2
  {
    var n := |frame| - 2;
    frame[n] == CrcCcitt.Crc(frame[..n]) / 0x100 && frame[n + 1] == CrcCcitt.Crc(frame[..n]) % 0x100
  }

  /** A frame as it is read: STX, a length, and that many bytes of text with two bytes of CRC. */
  ghost predicate Shaped(frame: seq<byte>)
  {
    |frame| >= 5 && frame[0] == STX && frame[1] as int * 0x100 + frame[2] == |frame| - 5
  }

  // ---------- the line ----------

  /** A reply frame with a correct CRC that fits the receive buffer. */
  ghost predicate IsReply(frame: seq<byte>)
  {
    Shaped(frame) && |frame| <= BUFFER && CrcOk(frame)
  }

  /** What arrives from the device: bytes, pauses longer than the timeout in force, or a broken line.  Behind
      the last item the line is broken. */
  datatype Item = Byte(b: byte) | Silence | Broken

  datatype Recv = Got(bytes: seq<byte>) | Timeout | CharTimeout | RecvError

  /** `frame` arrives at position `at`. */
  ghost predicate Arrives(device: seq<Item>, at: nat, frame: seq<byte>)
  {
    at + |frame| <= |device| && forall i :: at <= i < at + |frame| ==> device[i] == Byte(frame[i - at])
  }

  lemma ArrivesOnce(device: seq<Item>, at: nat, a: seq<byte>, b: seq<byte>)
    requires |a| == |b| && Arrives(device, at, a) && Arrives(device, at, b)
    ensures a == b
  {
    forall i | 0 <= i < |a|
      ensures a[i] == b[i]
    {
      assert device[at + i] == Byte(a[i]) == Byte(b[i]);
    }
  }

  lemma ArrivesJoined(device: seq<Item>, at: nat, a: seq<byte>, b: seq<byte>)
    ensures Arrives(device, at, a + b) <==> Arrives(device, at, a) && Arrives(device, at + |a|, b)
  {
  }

  ghost predicate SilentAt(device: seq<Item>, at: nat)
  {
    at < |device| && device[at] == Silence
  }

  /** Something that ends the wait for an ACK. */
  ghost predicate Telling(device: seq<Item>, at: nat)
  {
    Arrives(device, at, [ACK]) || Arrives(device, at, [NAK]) || SilentAt(device, at) || BrokenAt(device, at)
  }

  ghost predicate BrokenAt(device: seq<Item>, at: nat)
  {
    at >= |device| || device[at] == Broken
  }

  // ---------- what a device may answer ----------

  /** An answer to the command that is no ACK: bytes to be skipped, then silence or a NAK. */
  datatype Refusal = Refusal(stray: seq<byte>, quiet: bool)

  predicate Skipped(stray: seq<byte>)
  {
    ACK !in stray && NAK !in stray
  }

  ghost predicate RefusalAt(device: seq<Item>, at: nat, r: Refusal)
  {
    && Skipped(r.stray) && Arrives(device, at, r.stray) && at + |r.stray| < |device|
    && device[at + |r.stray|] == if r.quiet then Silence else Byte(NAK)
  }

  function RefusalsLength(rs: seq<Refusal>): (n: nat)
  {
    if rs == [] then 0 else |rs[0].stray| + 1 + RefusalsLength(rs[1..])
  }

  ghost predicate RefusalsAt(device: seq<Item>, at: nat, rs: seq<Refusal>)
    decreases |rs|
  {
    rs == [] || (RefusalAt(device, at, rs[0]) && RefusalsAt(device, at + |rs[0].stray| + 1, rs[1..]))
  }

  /** What the device may send instead of, or as, a reply: a byte that starts nothing; a frame; a frame that
      stops; DLE EOT; DLE and something else; STX and a length that stops; or nothing. */
  datatype Attempt =
    | StrayByte(b: byte)
    | Whole(frame: seq<byte>)
    | CutOff(start: seq<byte>)
    | Cancel
    | Garbled(b: byte)
    | HeaderCut(length: seq<byte>)
    | Mute

  ghost predicate Possible(a: Attempt)
  {
    match a
    case StrayByte(b) => b != STX && b != DLE
    case Whole(frame) => Shaped(frame) && |frame| <= BUFFER
    case CutOff(start) =>
      && |start| >= 3 && start[0] == STX
      && |start| < start[1] as int * 0x100 + start[2] + 5 <= BUFFER
    case Garbled(b) => b != EOT
    case HeaderCut(length) => |length| < 2
    case _ => true
  }

  function AttemptBytes(a: Attempt): (bytes: seq<byte>)
  {
    match a
    case StrayByte(b) => [b]
    case Whole(frame) => frame
    case CutOff(start) => start
    case Cancel => [DLE, EOT]
    case Garbled(b) => [DLE, b]
    case HeaderCut(length) => [STX] + length
    case Mute => []
  }

  predicate Pauses(a: Attempt)
  {
    a.CutOff? || a.HeaderCut? || a.Mute?
  }

  function Length(a: Attempt): (n: nat)
  {
    |AttemptBytes(a)| + if Pauses(a) then 1 else 0
  }

  ghost predicate AttemptAt(device: seq<Item>, at: nat, a: Attempt)
  {
    && Possible(a) && Arrives(device, at, AttemptBytes(a))
    && (Pauses(a) ==> SilentAt(device, at + |AttemptBytes(a)|))
  }

  ghost predicate ScriptAt(device: seq<Item>, at: nat, attempts: seq<Attempt>)
    decreases |attempts|
  {
    attempts == []
    || (AttemptAt(device, at, attempts[0]) && ScriptAt(device, at + Length(attempts[0]), attempts[1..]))
  }

  /** A frame with a wrong CRC. */
  predicate IsBad(a: Attempt)
  {
    a.Whole? && |a.frame| >= 2 && !CrcOk(a.frame)
  }

  function Cuts(attempts: seq<Attempt>): (n: nat)
    decreases |attempts|
  {
    if attempts == [] then 0
    else Cuts(attempts[..|attempts| - 1]) + if attempts[|attempts| - 1].CutOff? then 1 else 0
  }

  function Bads(attempts: seq<Attempt>): (n: nat)
    decreases |attempts|
  {
    if attempts == [] then 0
    else Bads(attempts[..|attempts| - 1]) + if IsBad(attempts[|attempts| - 1]) then 1 else 0
  }

  /** The NAKs these attempts are answered with. */
  function NaksFor(attempts: seq<Attempt>): (naks: seq<Event>)
    decreases |attempts|
  {
    if attempts == [] then []
    else
      var last := attempts[|attempts| - 1];
      NaksFor(attempts[..|attempts| - 1]) +
      if last.CutOff? then [NakForTimeout] else if IsBad(last) then [NakForCrc] else []
  }

  /** The attempts lead to a verdict at the last one and not before: those before are stray bytes, at most two
      frames that stop and at most three with a wrong CRC; the last is a third, a fourth, or of another kind. */
  ghost predicate LeadsToVerdict(attempts: seq<Attempt>)
  {
    && attempts != []
    && var before, last := attempts[..|attempts| - 1], attempts[|attempts| - 1];
    && (forall k :: 0 <= k < |before| ==> before[k].StrayByte? || before[k].CutOff? || IsBad(before[k]))
    && Cuts(before) <= 2 && Bads(before) <= 3 && !last.StrayByte?
    && (last.CutOff? ==> Cuts(before) == 2)
    && (IsBad(last) ==> Bads(before) == 3)
  }

  function Verdict(last: Attempt): (rc: Rc)
  {
    match last
    case Whole(frame) => if IsBad(last) then FailedToReceiveReply else NoError
    case CutOff(_) => CharacterTimeout
    case Cancel => CommandCanceled
    case Garbled(_) => FailedToReceiveReply
    case HeaderCut(length) => if length == [] then ReplyTimeout else CharacterTimeout
    case _ => ReplyTimeout
  }

  /** The NAKs of a whole reply phase: a last frame with a wrong CRC is no longer answered. */
  function NaksOf(attempts: seq<Attempt>): (naks: seq<Event>)
    requires attempts != []
  {
    NaksFor(if IsBad(attempts[|attempts| - 1]) then attempts[..|attempts| - 1] else attempts)
  }

  // ---------- the session ----------

  datatype Answer = Acked | Naked | NoAnswer | AnswerFailed

  datatype Try = Stray | Good(frame: seq<byte>) | BadCrc | Interrupted | Stop(rc: Rc)

  /** ErrorExchange */
  function ErrorOf(r: Recv): (rc: Rc)
  {
    match r
    case Got(_) => NoError
    case Timeout => ReplyTimeout
    case CharTimeout => CharacterTimeout
    case RecvError => FailedToReceiveReply
  }

  /** What one attempt is taken for. */
  ghost function Judged(a: Attempt): (t: Try)
    requires Possible(a)
  {
    match a
    case StrayByte(_) => Stray
    case Whole(frame) => if CrcOk(frame) then Good(frame) else BadCrc
    case CutOff(_) => Interrupted
    case _ => Stop(Verdict(a))
  }

  ghost predicate AllCommands(log: seq<Event>, frame: seq<byte>)
  {
    forall e :: e in log ==> e == SentCommand(frame)
  }

  class Link {
    const device: seq<Item>
    const sendFails: nat -> bool
    var pos: nat
    var log: seq<Event>

    constructor (device: seq<Item>, sendFails: nat -> bool)
      ensures this.device == device && this.sendFails == sendFails && pos == 0 && log == []
    {
      this.device, this.sendFails, pos, log := device, sendFails, 0, [];
    }

    /** RS232C_ReceiveData: exactly `n` bytes, or an error.  If `expected` arrives it is received; if only a part
        of what is wanted arrives, the error says why. */
    method ReceiveData(n: nat, ghost expected: seq<byte>) returns (r: Recv)
      requires n > 0 && pos <= |device|
      modifies this`pos
      ensures old(pos) <= pos <= |device|
      ensures r.Got? ==> |r.bytes| == n && Arrives(device, old(pos), r.bytes) && pos == old(pos) + n
      ensures |expected| == n && Arrives(device, old(pos), expected) ==> r == Got(expected) && pos == old(pos) + n
      ensures |expected| < n && Arrives(device, old(pos), expected) && SilentAt(device, old(pos) + |expected|) ==>
                r == (if expected == [] then Timeout else CharTimeout) && pos == old(pos) + |expected| + 1
      ensures |expected| < n && Arrives(device, old(pos), expected) && BrokenAt(device, old(pos) + |expected|) ==>
                r == RecvError
    {
      ghost var start := pos;
      var bytes: seq<byte> := [];
      while |bytes| < n
        invariant |bytes| <= n && pos == start + |bytes| <= |device|
        invariant Arrives(device, start, bytes)
        invariant |expected| <= n && Arrives(device, start, expected)
                  && (|expected| < n ==> SilentAt(device, start + |expected|) || BrokenAt(device, start + |expected|))
                  ==> |bytes| <= |expected|
      {
        if pos >= |device| {
          return RecvError;
        }
        var item := device[pos];
        pos := pos + 1;
        match item {
          case Byte(b) => bytes := bytes + [b];
          case Silence => return if bytes == [] then Timeout else CharTimeout;
          case Broken => return RecvError;
        }
      }
      r := Got(bytes);
      if |expected| == n && Arrives(device, start, expected) {
        ArrivesOnce(device, start, bytes, expected);
      }
    }

    /** From _RETRY_ACK_RES on: stray bytes are skipped until an ACK, a NAK, silence or an error. */
    method AwaitAck(ghost stray: seq<byte>) returns (answer: Answer)
      requires pos <= |device|
      modifies this`pos
      ensures old(pos) <= pos <= |device|
      ensures answer == Acked ==> pos > 0 && device[pos - 1] == Byte(ACK)
      ensures Skipped(stray) && Arrives(device, old(pos), stray) ==>
                var at := old(pos) + |stray|;
                && (Arrives(device, at, [ACK]) ==> answer == Acked && pos == at + 1)
                && (Arrives(device, at, [NAK]) ==> answer == Naked && pos == at + 1)
                && (SilentAt(device, at) ==> answer == NoAnswer && pos == at + 1)
                && (BrokenAt(device, at) ==> answer == AnswerFailed)
    {
      ghost var start := pos;
      ghost var at := start + |stray|;
      ghost var mine := Skipped(stray) && Arrives(device, start, stray);
      while true
        invariant start <= pos <= |device|
        invariant mine && Telling(device, at) ==> pos <= at
        decreases |device| - pos
      {
        ghost var here := pos;
        if mine && here < at {
          assert device[here] == Byte(stray[here - start]);
        }
        var r := ReceiveData(1, if here < |device| && device[here].Byte? then [device[here].b] else []);
        match r {
          case Got(bytes) =>
            assert device[here] == Byte(bytes[0]);
            if bytes[0] == NAK {
              return Naked;
            } else if bytes[0] == ACK {
              return Acked;
            }
          case Timeout => return NoAnswer;
          case _ => return AnswerFailed;
        }
      }
    }

    /** From _RETRY_COMMAND on: the command is sent until it is acknowledged.  `refusals` and `stray` are any
        answers the device may give before it acknowledges. */
    method SendUntilAck(frame: seq<byte>, ghost refusals: seq<Refusal>, ghost stray: seq<byte>) returns (rc: Rc)
      requires pos <= |device| && log == []
      modifies this`pos, this`log
      ensures old(pos) <= pos <= |device|
      ensures AllCommands(log, frame) && |log| <= 1 + COMMAND_RETRY
      ensures rc == NoError ==> |log| > 0 && pos > 0 && device[pos - 1] == Byte(ACK)
      ensures RefusalsAt(device, old(pos), refusals)
              && Decided(old(pos) + RefusalsLength(refusals), |refusals|, stray) ==>
                var at := old(pos) + RefusalsLength(refusals);
                && |log| == (if |refusals| == 4 then 4 else |refusals| + 1)
                && (|refusals| == 4 ==> rc == if refusals[3].quiet then AckTimeout else NakOvertimes)
                && (|refusals| < 4 && sendFails(|refusals|) ==> rc == FailedToSend)
                && (|refusals| < 4 && !sendFails(|refusals|) && Arrives(device, at + |stray|, [ACK]) ==>
                      rc == NoError && pos == at + |stray| + 1)
                && (|refusals| < 4 && !sendFails(|refusals|) && BrokenAt(device, at + |stray|) ==>
                      rc == FailedToReceiveAck)
    {
      hide RefusalsAt, RefusalsLength, Refusing, RefusalAt;
      var retry, last := 0, Acked;
      ghost var start, rest := pos, refusals;
      ghost var mine := RefusalsAt(device, pos, refusals) && Decided(pos + RefusalsLength(refusals), |refusals|, stray);
      if mine {
        RefusingStarts(device, pos, refusals);
      }
      while true
        invariant start <= pos <= |device| && retry == |log| <= 1 + COMMAND_RETRY
        invariant AllCommands(log, frame)
        invariant mine ==> Refusing(device, start, pos, refusals, rest, retry, last)
        decreases 1 + COMMAND_RETRY - retry
      {
        if mine {
          Refused(device, start, pos, refusals, rest, retry, last);
        }
        if COMMAND_RETRY < retry {
          return if last == NoAnswer then AckTimeout else NakOvertimes;
        }
        var sent;
        sent, last := SendOnce(frame, retry, if rest == [] then stray else rest[0].stray);
        if !sent {
          return FailedToSend;
        } else if last == Acked {
          return NoError;
        } else if last == AnswerFailed {
          return FailedToReceiveAck;
        }
        retry := retry + 1;
        if rest != [] {
          rest := rest[1..];
        }
      }
    }

    /** One sending and the wait for its answer. */
    method SendOnce(frame: seq<byte>, retry: nat, ghost stray: seq<byte>) returns (sent: bool, answer: Answer)
      requires pos <= |device|
      modifies this`pos, this`log
      ensures old(pos) <= pos <= |device| && log == old(log) + [SentCommand(frame)]
      ensures sent == !sendFails(retry)
      ensures sent && answer == Acked ==> pos > 0 && device[pos - 1] == Byte(ACK)
      ensures sent && Skipped(stray) && Arrives(device, old(pos), stray) ==>
                var at := old(pos) + |stray|;
                && (Arrives(device, at, [ACK]) ==> answer == Acked && pos == at + 1)
                && (Arrives(device, at, [NAK]) ==> answer == Naked && pos == at + 1)
                && (SilentAt(device, at) ==> answer == NoAnswer && pos == at + 1)
                && (BrokenAt(device, at) ==> answer == AnswerFailed)
    {
      log := log + [SentCommand(frame)];
      if sendFails(retry) {
        return false, AnswerFailed;
      }
      sent := true;
      answer := AwaitAck(stray);
    }

    /** What settles the command phase after so many refusals: an ACK, a broken line, a failed sending, or the end
        of the retries. */
    ghost predicate Decided(at: nat, refused: nat, stray: seq<byte>)
    {
      && refused <= 4 && (forall t: nat :: t < refused ==> !sendFails(t))
      && (refused == 4
          || sendFails(refused)
          || (Skipped(stray) && Arrives(device, at, stray)
              && (Arrives(device, at + |stray|, [ACK]) || BrokenAt(device, at + |stray|))))
    }

    /** The first `n + 1` sendings succeed. */
    ghost predicate Sends(n: nat)
    {
      forall t: nat :: t <= n ==> !sendFails(t)
    }

    /** DLE instead of a reply: the device cancels the command, or the line is disturbed. */
    method AfterDle(ghost b: byte) returns (t: Try)
      requires pos <= |device|
      modifies this`pos
      ensures old(pos) <= pos <= |device|
      ensures t.Stop? && t.rc != NoError
      ensures Arrives(device, old(pos), [b]) ==>
                t == Stop(if b == EOT then CommandCanceled else FailedToReceiveReply) && pos == old(pos) + 1
    {
      var second := ReceiveData(1, [b]);
      if !second.Got? {
        return Stop(ErrorOf(second));
      }
      return Stop(if second.bytes[0] == EOT then CommandCanceled else FailedToReceiveReply);
    }

    /** One attempt at a reply, up to the CRC check.  `a` is anything the device may send. */
    method TryReply(ghost a: Attempt) returns (t: Try)
      requires pos <= |device|
      modifies this`pos
      ensures old(pos) <= pos <= |device| && (t.Stray? ==> pos > old(pos))
      ensures t.Stop? ==> t.rc != NoError
      ensures t.Good? ==> IsReply(t.frame) && Arrives(device, old(pos), t.frame)
      ensures AttemptAt(device, old(pos), a) ==> t == Judged(a) && pos == old(pos) + Length(a)
    {
      hide CrcOk;
      ghost var start, bytes := pos, AttemptBytes(a);
      if AttemptAt(device, start, a) && bytes != [] {
        ArrivesHead(device, start, bytes);
      }
      var first := ReceiveData(1, if bytes == [] then [] else [bytes[0]]);
      if !first.Got? {
        return Stop(ErrorOf(first));
      }
      t := ReplyAfter(first.bytes[0], a);
    }

    /** What follows the first byte of an attempt. */
    method ReplyAfter(first: byte, ghost a: Attempt) returns (t: Try)
      requires 0 < pos <= |device| && device[pos - 1] == Byte(first)
      modifies this`pos
      ensures old(pos) <= pos <= |device|
      ensures t.Stop? ==> t.rc != NoError
      ensures t.Good? ==> IsReply(t.frame) && Arrives(device, old(pos) - 1, t.frame)
      ensures AttemptAt(device, old(pos) - 1, a) ==> t == Judged(a) && pos == old(pos) - 1 + Length(a)
    {
      hide CrcOk;
      ghost var start, bytes := pos - 1, AttemptBytes(a);
      if AttemptAt(device, start, a) {
        StartsWith(device, start, first, a);
      }
      if first == DLE {
        t := AfterDle(if |bytes| == 2 then bytes[1] else 0);
      } else if first != STX {
        t := Stray;
      } else {
        t := ReadText(a);
      }
    }

    /** The part of a reply behind STX. */
    method ReadText(ghost a: Attempt) returns (t: Try)
      requires 0 < pos <= |device| && device[pos - 1] == Byte(STX)
      modifies this`pos
      ensures old(pos) <= pos <= |device| && !t.Stray?
      ensures t.Stop? ==> t.rc != NoError
      ensures t.Good? ==> IsReply(t.frame) && Arrives(device, old(pos) - 1, t.frame)
      ensures AttemptAt(device, old(pos) - 1, a) ==> t == Judged(a) && pos == old(pos) - 1 + Length(a)
    {
      hide CrcOk;
      ghost var start, bytes := pos - 1, AttemptBytes(a);
      if AttemptAt(device, start, a) {
        StartsWith(device, start, STX, a);
        LengthBytes(device, start, a);
      }
      var length := ReceiveData(2, if a.HeaderCut? then a.length else if |bytes| >= 3 then bytes[1..3] else []);
      if !length.Got? {
        return Stop(ErrorOf(length));
      }
      var header := [STX] + length.bytes;
      ArrivesJoined(device, start, [STX], length.bytes);
      var size := header[1] as int * 0x100 + header[2];
      if size + 5 > BUFFER {
        if AttemptAt(device, start, a) {
          HeaderOf(device, start, header, a);
        }
        return Stop(LengthUnfit);
      }
      t := ReadBody(header, size, a);
    }

    /** The text and the CRC of a reply whose header has been read. */
    method ReadBody(header: seq<byte>, size: nat, ghost a: Attempt) returns (t: Try)
      requires |header| == 3 && header[0] == STX && size == header[1] as int * 0x100 + header[2]
      requires size + 5 <= BUFFER
      requires 3 <= pos <= |device| && Arrives(device, pos - 3, header)
      modifies this`pos
      ensures old(pos) <= pos <= |device| && !t.Stray?
      ensures t.Stop? ==> t.rc != NoError
      ensures t.Good? ==> IsReply(t.frame) && Arrives(device, old(pos) - 3, t.frame)
      ensures AttemptAt(device, old(pos) - 3, a) ==> t == Judged(a) && pos == old(pos) - 3 + Length(a)
    {
      hide CrcOk;
      ghost var start, bytes := pos - 3, AttemptBytes(a);
      if AttemptAt(device, start, a) {
        HeaderOf(device, start, header, a);
      }
      var text := ReceiveData(size + 2, if |bytes| >= 3 then bytes[3..] else []);
      match text {
        case Got(rest) =>
          ArrivesJoined(device, start, header, rest);
          t := CheckReply(header + rest);
          if AttemptAt(device, start, a) {
            ArrivesOnce(device, start, header + rest, bytes);
          }
        case RecvError => t := Stop(FailedToReceiveReply);
        case _ => t := Interrupted;
      }
    }

    method CheckReply(frame: seq<byte>) returns (t: Try)
      requires Shaped(frame) && |frame| <= BUFFER
      ensures t == if CrcOk(frame) then Good(frame) else BadCrc
    {
      var crc := CrcCcitt.Compute(frame[..|frame| - 2]);
      if frame[|frame| - 2] == crc / 0x100 && frame[|frame| - 1] == crc % 0x100 {
        t := Good(frame);
      } else {
        t := BadCrc;
      }
    }

    /** From _RETRY_REPLY on: the reply is read until it is correct, with a NAK for every failed attempt.
        `attempts` is any script the device may follow. */
    method ReceiveReply(ghost attempts: seq<Attempt>) returns (rc: Rc, frame: seq<byte>, ghost at: nat)
      requires pos <= |device|
      modifies this`pos, this`log
      ensures old(pos) <= pos <= |device|
      ensures old(log) <= log && NaksOk(log[|old(log)|..]) && OnlyNaks(log[|old(log)|..])
      ensures rc == NoError ==> IsReply(frame) && Arrives(device, at, frame) && old(pos) <= at
      ensures LeadsToVerdict(attempts) && ScriptAt(device, old(pos), attempts) ==>
                var last := attempts[|attempts| - 1];
                && rc == Verdict(last) && log == old(log) + NaksOf(attempts)
                && (rc == NoError ==> last.Whole? && frame == last.frame)
    {
      hide CrcOk, IsReply, Arrives, Following, LeadsToVerdict, ScriptAt, AttemptAt, Judged, Length;
      hide Naks, NaksOk, OnlyNaks, NaksFor, NaksOf, Verdict;
      ghost var start, naks, k := pos, [], 0;
      NoNaks();
      ghost var mine := LeadsToVerdict(attempts) && ScriptAt(device, pos, attempts);
      if mine {
        FollowingStarts(device, pos, attempts);
      }
      frame, at := [], 0;
      var timeouts, crcs := 1, 1;
      while true
        invariant start <= pos <= |device|
        invariant log == old(log) + naks && Naks(naks, timeouts - 1, crcs - 1) && OnlyNaks(naks)
        invariant 1 <= timeouts <= 1 + RECEIVE_RETRY && 1 <= crcs <= 1 + NAK_RETRY
        invariant mine ==> Following(device, pos, attempts, k, naks, timeouts, crcs)
        decreases 10 - timeouts - crcs, |device| - pos
      {
        if RECEIVE_RETRY < timeouts {
          NaksCounted(naks, timeouts - 1, crcs - 1);
          if mine {
            FollowingEnds(device, pos, attempts, k, naks, timeouts, crcs);
          }
          return CharacterTimeout, [], 0;
        }
        at := pos;
        NaksCounted(naks, timeouts - 1, crcs - 1);
        if mine {
          Followed(device, pos, attempts, k, naks, timeouts, crcs);
        }
        var t := TryReply(if k < |attempts| then attempts[k] else Mute);
        match t {
          case Stray =>
          case Good(f) => return NoError, f, at;
          case Stop(error) => return error, [], 0;
          case Interrupted =>
            log, naks, timeouts := log + [NakForTimeout], naks + [NakForTimeout], timeouts + 1;
          case BadCrc =>
            if NAK_RETRY < crcs {
              return FailedToReceiveReply, [], 0;
            }
            log, naks, crcs := log + [NakForCrc], naks + [NakForCrc], crcs + 1;
        }
        k := k + 1;
      }
    }

    /** The exchange on the line: command, reply, final ACK. */
    method Converse(command: seq<byte>, ghost refusals: seq<Refusal>, ghost stray: seq<byte>,
                    ghost attempts: seq<Attempt>)
      returns (rc: Rc, frame: seq<byte>, ghost at: nat)
      requires pos == 0 && log == []
      modifies this`pos, this`log
      ensures Session(log, command, rc) && OnlyCommands(log, command)
      ensures rc == NoError ==> IsReply(frame) && Arrives(device, at, frame)
      ensures Scenario(refusals, stray, attempts) ==>
                var last := attempts[|attempts| - 1];
                && rc == Verdict(last) && (rc == NoError ==> last.Whole? && frame == last.frame)
                && LogOf(log, |refusals| + 1, attempts)
    {
      hide CrcOk, LeadsToVerdict, ScriptAt, RefusalsAt, RefusalsLength, NaksOf, Verdict;
      frame, at := [], 0;
      rc := SendUntilAck(command, refusals, stray);
      ghost var commands := log;
      assert Scenario(refusals, stray, attempts) ==> rc == NoError && |commands| == |refusals| + 1;
      if rc != NoError {
        NoNaks();
        assert log == commands + [] + [];
        return;
      }
      rc, frame, at := ReceiveReply(attempts);
      ghost var naks := log[|commands|..];
      assert log == commands + naks + [];
      if rc == NoError {
        log := log + [SentAck];
        assert log == commands + naks + [SentAck];
      }
      if Scenario(refusals, stray, attempts) {
        SomeAttempt(attempts);
        LogTogether(log, commands, command, naks, attempts, rc);
      }
    }

    /** The device refuses the command at most three times, acknowledges it, and makes these attempts at a reply. */
    ghost predicate Scenario(refusals: seq<Refusal>, stray: seq<byte>, attempts: seq<Attempt>)
    {
      var at := RefusalsLength(refusals);
      && |refusals| <= 3 && Sends(|refusals|) && RefusalsAt(device, 0, refusals)
      && Skipped(stray) && Arrives(device, at, stray) && Arrives(device, at + |stray|, [ACK])
      && LeadsToVerdict(attempts) && ScriptAt(device, at + |stray| + 1, attempts)
    }

    /** RS232C_8_ExecuteCommand on a connected port.  `frame` is the reply behind a success, `at` where it
        arrived; `refusals`, `stray` and `attempts` are anything the device may do. */
    method Execute(c: Command, ghost refusals: seq<Refusal>, ghost stray: seq<byte>, ghost attempts: seq<Attempt>)
      returns (rc: Rc, reply: Reply, ghost frame: seq<byte>, ghost at: nat)
      requires pos == 0 && log == [] && |c.data| + SEND_HEADER + 5 <= BUFFER
      modifies this`pos, this`log
      ensures Session(log, EncodeCommand(c), rc)
      ensures forall e :: e in log && e.SentCommand? ==> ReaderDecode(e.bytes) == Heard(c)
      ensures rc == NoError ==> IsReply(frame) && Arrives(device, at, frame) && Decoded(frame, reply)
      ensures rc != NoError ==> reply == Unavailable
      ensures Scenario(refusals, stray, attempts) ==>
                var last := attempts[|attempts| - 1];
                && LogOf(log, |refusals| + 1, attempts)
                && (Verdict(last) != NoError ==> rc == Verdict(last))
                && (Verdict(last) == NoError ==>
                      && last.Whole? && frame == last.frame
                      && (rc == NoError <==>
                            |last.frame| >= 10 && (IsPositive(last.frame[3]) || IsNegative(last.frame[3]))))
    {
      hide CrcOk;
      var received;
      rc, received, at := Converse(EncodeCommand(c), refusals, stray, attempts);
      ReaderHears(c);
      reply, frame := Unavailable, received;
      if rc == NoError {
        rc, reply := Decode(received);
        FailureIsSession(log, EncodeCommand(c), rc);
        if rc == NoError {
          DecodedInverts(received, reply);
        }
      }
    }

    /** Everything behind the final ACK. */
    method Decode(frame: seq<byte>) returns (rc: Rc, reply: Reply)
      requires IsReply(frame)
      ensures rc == NoError <==> |frame| >= REPLY_HEADER + 5 && (IsPositive(frame[3]) || IsNegative(frame[3]))
      ensures rc == NoError ==> reply == DecodeReply(frame)
      ensures rc != NoError ==> reply == Unavailable
    {
      reply := Unavailable;
      if IsPositive(frame[3]) || IsNegative(frame[3]) {
        if |frame| < REPLY_HEADER + 5 {
          return LengthUnfit, Unavailable;
        }
        var message := Message(frame[4], frame[5], frame[6], frame[7], frame[8..|frame| - 2]);
        reply := if IsPositive(frame[3]) then Positive(message) else Negative(message);
        rc := NoError;
      } else {
        rc := FailedToReceiveReply;
      }
    }
  }

  // ---------- what a session may do ----------

  /** `naks` holds exactly so many NAKs of either kind. */
  ghost predicate Naks(naks: seq<Event>, timeouts: nat, crcs: nat)
  {
    && |naks| == timeouts + crcs
    && multiset(naks)[NakForTimeout] == timeouts
    && multiset(naks)[NakForCrc] == crcs
  }

  ghost predicate OnlyNaks(naks: seq<Event>)
  {
    forall e :: e in naks ==> e == NakForTimeout || e == NakForCrc
  }

  ghost predicate OnlyCommands(log: seq<Event>, command: seq<byte>)
  {
    forall e :: e in log && e.SentCommand? ==> e.bytes == command
  }

  /** So many commands, then the NAKs of the reply phase, then an ACK if it ended well. */
  ghost predicate LogOf(log: seq<Event>, commands: nat, attempts: seq<Attempt>)
    requires attempts != []
  {
    && commands <= |log| && (forall k :: 0 <= k < commands ==> log[k].SentCommand?)
    && log[commands..] ==
         NaksOf(attempts) + (if Verdict(attempts[|attempts| - 1]) == NoError then [SentAck] else [])
  }

  lemma SomeAttempt(attempts: seq<Attempt>)
    requires LeadsToVerdict(attempts)
    ensures attempts != []
  {
  }

  lemma LogTogether(log: seq<Event>, commands: seq<Event>, command: seq<byte>, naks: seq<Event>,
                    attempts: seq<Attempt>, rc: Rc)
    requires attempts != [] && AllCommands(commands, command) && naks == NaksOf(attempts)
    requires rc == Verdict(attempts[|attempts| - 1])
    requires log == commands + naks + (if rc == NoError then [SentAck] else [])
    ensures LogOf(log, |commands|, attempts)
  {
    var rest := naks + (if rc == NoError then [SentAck] else []);
    assert log == commands + rest;
    forall k | 0 <= k < |commands| ensures log[k].SentCommand? { assert commands[k] in commands; }
  }

  /** A command phase that has met the first `retry` refusals. */
  ghost predicate Refusing(device: seq<Item>, start: nat, pos: nat, refusals: seq<Refusal>, rest: seq<Refusal>,
                           retry: nat, last: Answer)
  {
    && retry <= |refusals| && rest == refusals[retry..]
    && RefusalsAt(device, pos, rest) && pos + RefusalsLength(rest) == start + RefusalsLength(refusals)
    && (retry > 0 ==> last == if refusals[retry - 1].quiet then NoAnswer else Naked)
  }

  lemma RefusingStarts(device: seq<Item>, start: nat, refusals: seq<Refusal>)
    requires RefusalsAt(device, start, refusals)
    ensures Refusing(device, start, start, refusals, refusals, 0, Acked)
  {
    assert refusals[0..] == refusals;
  }

  /** How a command phase goes on. */
  lemma Refused(device: seq<Item>, start: nat, pos: nat, refusals: seq<Refusal>, rest: seq<Refusal>,
                retry: nat, last: Answer)
    requires Refusing(device, start, pos, refusals, rest, retry, last)
    ensures retry <= |refusals| && (rest == [] <==> retry == |refusals|)
    ensures rest == [] ==> pos == start + RefusalsLength(refusals)
    ensures retry > 0 ==> last == if refusals[retry - 1].quiet then NoAnswer else Naked
    ensures rest != [] ==>
              var r := rest[0];
              var answer, at := if r.quiet then NoAnswer else Naked, pos + |r.stray|;
              && Skipped(r.stray) && Arrives(device, pos, r.stray)
              && (if r.quiet then SilentAt(device, at) else Arrives(device, at, [NAK]))
              && Refusing(device, start, at + 1, refusals, rest[1..], retry + 1, answer)
  {
    if rest != [] {
      assert rest[0] == refusals[retry] && rest[1..] == refusals[retry + 1..];
    }
  }

  /** A reply phase that has come to attempt `k` of a script. */
  ghost predicate Following(device: seq<Item>, pos: nat, attempts: seq<Attempt>, k: nat, naks: seq<Event>,
                            timeouts: nat, crcs: nat)
  {
    && LeadsToVerdict(attempts) && k <= |attempts|
    && (k < |attempts| ==> ScriptAt(device, pos, attempts[k..]) && timeouts <= 3)
    && (k == |attempts| ==> attempts[k - 1].CutOff? && timeouts == 4)
    && naks == NaksFor(attempts[..k]) && timeouts == 1 + Cuts(attempts[..k]) && crcs == 1 + Bads(attempts[..k])
  }

  lemma {:induction false} CutsGrow(attempts: seq<Attempt>, k: nat)
    requires k <= |attempts|
    ensures Cuts(attempts[..k]) <= Cuts(attempts) && Bads(attempts[..k]) <= Bads(attempts)
    decreases |attempts|
  {
    if k < |attempts| {
      CutsGrow(attempts[..|attempts| - 1], k);
      assert attempts[..|attempts| - 1][..k] == attempts[..k];
    } else {
      assert attempts[..k] == attempts;
    }
  }

  /** What attempt `k` does to the counters. */
  lemma Counted(attempts: seq<Attempt>, k: nat)
    requires k < |attempts|
    ensures var a := attempts[k];
            && NaksFor(attempts[..k + 1])
                 == NaksFor(attempts[..k])
                      + (if a.CutOff? then [NakForTimeout] else if IsBad(a) then [NakForCrc] else [])
            && Cuts(attempts[..k + 1]) == Cuts(attempts[..k]) + (if a.CutOff? then 1 else 0)
            && Bads(attempts[..k + 1]) == Bads(attempts[..k]) + (if IsBad(a) then 1 else 0)
  {
    hide CrcOk;
    assert attempts[..k + 1][..k] == attempts[..k];
  }

  lemma ScriptGoesOn(device: seq<Item>, pos: nat, attempts: seq<Attempt>, k: nat)
    requires k < |attempts| && ScriptAt(device, pos, attempts[k..])
    ensures AttemptAt(device, pos, attempts[k])
    ensures ScriptAt(device, pos + Length(attempts[k]), attempts[k + 1..])
  {
    hide CrcOk;
    assert attempts[k..][0] == attempts[k] && attempts[k..][1..] == attempts[k + 1..];
  }

  /** Before the last attempt of a script the counters stay low. */
  lemma NotYetDecided(attempts: seq<Attempt>, k: nat)
    requires LeadsToVerdict(attempts) && k + 1 < |attempts|
    ensures attempts[k].StrayByte? || attempts[k].CutOff? || IsBad(attempts[k])
    ensures Cuts(attempts[..k + 1]) <= 2 && Bads(attempts[..k + 1]) <= 3
  {
    hide CrcOk;
    var before := attempts[..|attempts| - 1];
    assert before[k] == attempts[k] && before[..k + 1] == attempts[..k + 1];
    CutsGrow(before, k + 1);
  }

  lemma Decisive(attempts: seq<Attempt>, k: nat)
    requires LeadsToVerdict(attempts) && k + 1 == |attempts|
    ensures attempts[..k + 1] == attempts && attempts[..k] == attempts[..|attempts| - 1]
    ensures !attempts[k].StrayByte?
    ensures attempts[k].CutOff? ==> Cuts(attempts[..k]) == 2
    ensures IsBad(attempts[k]) ==> Bads(attempts[..k]) == 3
  {
    hide CrcOk;
  }

  lemma FollowingStarts(device: seq<Item>, pos: nat, attempts: seq<Attempt>)
    requires LeadsToVerdict(attempts) && ScriptAt(device, pos, attempts)
    ensures Following(device, pos, attempts, 0, [], 1, 1)
  {
    assert attempts[0..] == attempts && attempts[..0] == [];
  }

  lemma FollowingEnds(device: seq<Item>, pos: nat, attempts: seq<Attempt>, k: nat, naks: seq<Event>,
                      timeouts: nat, crcs: nat)
    requires Following(device, pos, attempts, k, naks, timeouts, crcs) && timeouts > 3
    ensures attempts != [] && NaksOf(attempts) == naks && Verdict(attempts[|attempts| - 1]) == CharacterTimeout
  {
    assert attempts[..k] == attempts;
  }

  /** How a reply phase goes on after attempt `k`. */
  lemma Followed(device: seq<Item>, pos: nat, attempts: seq<Attempt>, k: nat, naks: seq<Event>,
                 timeouts: nat, crcs: nat)
    requires Following(device, pos, attempts, k, naks, timeouts, crcs) && timeouts <= 3
    ensures k < |attempts| && AttemptAt(device, pos, attempts[k])
    ensures var t, pos' := Judged(attempts[k]), pos + Length(attempts[k]);
            && (t.Stray? ==> Following(device, pos', attempts, k + 1, naks, timeouts, crcs))
            && (t.Interrupted? ==>
                  Following(device, pos', attempts, k + 1, naks + [NakForTimeout], timeouts + 1, crcs))
            && (t.BadCrc? && crcs <= 3 ==>
                  Following(device, pos', attempts, k + 1, naks + [NakForCrc], timeouts, crcs + 1))
    ensures var t, last := Judged(attempts[k]), attempts[|attempts| - 1];
            && (t.BadCrc? && crcs > 3 ==> NaksOf(attempts) == naks && Verdict(last) == FailedToReceiveReply)
            && (t.Good? ==> NaksOf(attempts) == naks && Verdict(last) == NoError && last == Whole(t.frame))
            && (t.Stop? ==> NaksOf(attempts) == naks && Verdict(last) == t.rc)
  {
    hide CrcOk, ScriptAt, LeadsToVerdict, NaksFor, Cuts, Bads;
    ScriptGoesOn(device, pos, attempts, k);
    Counted(attempts, k);
    if k + 1 < |attempts| {
      NotYetDecided(attempts, k);
    } else {
      Decisive(attempts, k);
    }
  }

  ghost predicate NaksOk(naks: seq<Event>)
  {
    exists timeouts: nat, crcs: nat :: Naks(naks, timeouts, crcs) && timeouts <= 3 && crcs <= 3
  }

  /** The shape of every session: the command at most four times; then at most three NAKs for timeouts and
      three for bad CRCs; then at most one ACK, and exactly one if the session succeeds. */
  ghost predicate Session(log: seq<Event>, command: seq<byte>, rc: Rc)
  {
    exists commands: seq<Event>, naks: seq<Event>, acks: seq<Event> ::
      && log == commands + naks + acks
      && AllCommands(commands, command) && |commands| <= 4
      && NaksOk(naks)
      && (acks == [] || acks == [SentAck])
      && (rc == NoError ==> commands != [] && acks == [SentAck])
  }

  /** The reply holds exactly the fields that encode to the frame received. */
  ghost predicate Decoded(frame: seq<byte>, reply: Reply)
  {
    match reply
    case Unavailable => false
    case Positive(m) =>
      |m.data| + REPLY_HEADER < 0x1_0000 && |frame| > 3 && IsPositive(frame[3]) && frame == EncodeReply(frame[3], m)
    case Negative(m) =>
      |m.data| + REPLY_HEADER < 0x1_0000 && |frame| > 3 && IsNegative(frame[3]) && frame == EncodeReply(frame[3], m)
  }

  // ---------- encodings ----------

  lemma ReplyRoundTrip(tag: byte, m: Message)
    requires |m.data| + REPLY_HEADER + 5 <= BUFFER
    requires IsPositive(tag) || IsNegative(tag)
    ensures var frame := EncodeReply(tag, m);
            && IsReply(frame)
            && |frame| >= REPLY_HEADER + 5
            && DecodeReply(frame) == (if IsPositive(tag) then Positive(m) else Negative(m))
            && (IsPositive(tag) <==> tag == 0x50 || tag == 0x70) && (IsNegative(tag) <==> tag == 0x4E || tag == 0x6E)
    ensures var frame := EncodeReply(tag, m);
            && frame[0] == 0xF2 && frame[3] == tag && frame[8..|frame| - 2] == m.data
            && frame[4] == m.code && frame[5] == m.param && frame[6] == m.s1 && frame[7] == m.s0
  {
    var size := |m.data| + REPLY_HEADER;
    var body := [STX, size / 0x100, size % 0x100, tag, m.code, m.param, m.s1, m.s0] + m.data;
    var frame := EncodeReply(tag, m);
    assert frame[..|frame| - 2] == body;
    assert frame[8..|frame| - 2] == m.data;
  }

  lemma SizeBytes(hi: byte, lo: byte)
    ensures (hi as int * 0x100 + lo) / 0x100 == hi && (hi as int * 0x100 + lo) % 0x100 == lo
  {
  }

  /** The frame can be rebuilt from its tag and its fields. */
  lemma Rebuilt(frame: seq<byte>)
    requires IsReply(frame) && |frame| >= REPLY_HEADER + 5
    ensures EncodeReply(frame[3], DecodeMessage(frame)) == frame
  {
    var n, m := |frame| - 2, DecodeMessage(frame);
    var size := |m.data| + REPLY_HEADER;
    SizeBytes(frame[1], frame[2]);
    var head := [STX, size / 0x100, size % 0x100, frame[3], m.code, m.param, m.s1, m.s0];
    assert head == frame[..8];
    CutInThree(frame, n);
  }

  lemma CutInThree(frame: seq<byte>, n: nat)
    requires 8 <= n == |frame| - 2
    ensures frame[..n] == frame[..8] + frame[8..n]
    ensures frame == frame[..n] + [frame[n], frame[n + 1]]
  {
  }

  /** Decoding loses nothing. */
  lemma DecodedInverts(frame: seq<byte>, reply: Reply)
    requires IsReply(frame) && |frame| >= REPLY_HEADER + 5
    requires IsPositive(frame[3]) || IsNegative(frame[3])
    requires reply == DecodeReply(frame)
    ensures Decoded(frame, reply)
  {
    Rebuilt(frame);
  }

  /** NAKs are counted one by one, and few enough are in order. */
  lemma NaksCounted(naks: seq<Event>, timeouts: nat, crcs: nat)
    requires Naks(naks, timeouts, crcs) && OnlyNaks(naks)
    ensures Naks(naks + [NakForTimeout], timeouts + 1, crcs) && OnlyNaks(naks + [NakForTimeout])
    ensures Naks(naks + [NakForCrc], timeouts, crcs + 1) && OnlyNaks(naks + [NakForCrc])
    ensures timeouts <= 3 && crcs <= 3 ==> NaksOk(naks)
  {
  }

  lemma NoNaks()
    ensures NaksOk([]) && Naks([], 0, 0) && OnlyNaks([])
  {
    assert Naks([], 0, 0);
  }

  /** A session that ends well up to the ACK is still one if the reply then cannot be decoded. */
  lemma FailureIsSession(log: seq<Event>, command: seq<byte>, rc: Rc)
    requires Session(log, command, NoError)
    ensures Session(log, command, rc)
  {
  }

  datatype Heard = Heard(command: Command) | Unreadable

  /** A command as the reader takes it from the line, byte by byte. */
  function ReaderDecode(frame: seq<byte>): (heard: Heard)
  {
    if |frame| < 8 || frame[0] != 0xF2 || frame[1] as int * 256 + frame[2] != |frame| - 5 || frame[3] != 0x43
       || CrcCcitt.Crc(frame) != 0
    then Unreadable
    else Heard(Command(frame[4], frame[5], frame[6..|frame| - 2]))
  }

  /** The reader hears the command that was meant. */
  lemma ReaderHears(c: Command)
    requires |c.data| + SEND_HEADER < 0x1_0000
    ensures ReaderDecode(EncodeCommand(c)) == Heard(c)
  {
    CommandLeavesZero(c);
    var frame, size := EncodeCommand(c), |c.data| + SEND_HEADER;
    assert frame[..6] == [STX, size / 0x100, size % 0x100, COMMAND_TAG, c.code, c.param];
    assert frame[6..|frame| - 2] == c.data;
  }

  /** The reader's side of the link can check a command the same way: with its CRC it leaves remainder zero. */
  lemma CommandLeavesZero(c: Command)
    requires |c.data| + SEND_HEADER < 0x1_0000
    ensures CrcCcitt.Crc(EncodeCommand(c)) == 0
  {
    var size := |c.data| + SEND_HEADER;
    var bytes := [STX, size / 0x100, size % 0x100, COMMAND_TAG, c.code, c.param] + c.data;
    CrcCcitt.TrailerIffZero(bytes, CrcCcitt.Crc(bytes) / 0x100, CrcCcitt.Crc(bytes) % 0x100);
  }

  /** The reply check accepts a frame exactly when the whole frame, CRC included, leaves remainder zero. */
  lemma CrcOkIffZero(frame: seq<byte>)
    requires |frame| >= 2
    ensures CrcOk(frame) <==> CrcCcitt.Crc(frame) == 0
  {
    var n := |frame| - 2;
    assert frame == frame[..n] + [frame[n], frame[n + 1]];
    CrcCcitt.TrailerIffZero(frame[..n], frame[n], frame[n + 1]);
  }

  /** The first byte of what arrives. */
  lemma ArrivesHead(device: seq<Item>, at: nat, bytes: seq<byte>)
    requires Arrives(device, at, bytes) && bytes != []
    ensures Arrives(device, at, [bytes[0]])
  {
  }

  /** The kind of an attempt shows in its first byte. */
  lemma StartsWith(device: seq<Item>, at: nat, first: byte, a: Attempt)
    requires AttemptAt(device, at, a) && at < |device| && device[at] == Byte(first)
    ensures AttemptBytes(a) != [] && AttemptBytes(a)[0] == first
    ensures first == DLE <==> a.Cancel? || a.Garbled?
    ensures first == STX <==> a.Whole? || a.CutOff? || a.HeaderCut?
    ensures first == DLE ==> Arrives(device, at + 1, [AttemptBytes(a)[1]])
  {
    if AttemptBytes(a) != [] {
      assert device[at] == Byte(AttemptBytes(a)[0]);
    }
  }

  /** The length bytes behind STX, as far as they arrive. */
  lemma LengthBytes(device: seq<Item>, at: nat, a: Attempt)
    requires AttemptAt(device, at, a) && (a.Whole? || a.CutOff? || a.HeaderCut?)
    ensures a.HeaderCut? ==> Arrives(device, at + 1, a.length) && SilentAt(device, at + 1 + |a.length|)
    ensures !a.HeaderCut? ==> |AttemptBytes(a)| >= 3 && Arrives(device, at + 1, AttemptBytes(a)[1..3])
  {
  }

  /** Behind the header of an attempt. */
  lemma HeaderOf(device: seq<Item>, at: nat, header: seq<byte>, a: Attempt)
    requires |header| == 3 && header[0] == STX && Arrives(device, at, header) && AttemptAt(device, at, a)
    ensures a.Whole? || a.CutOff?
    ensures var bytes, size := AttemptBytes(a), header[1] as int * 0x100 + header[2];
            && |bytes| >= 3 && bytes[..3] == header && size + 5 <= BUFFER
            && Arrives(device, at + 3, bytes[3..])
            && (a.Whole? ==> |bytes| == size + 5) && (a.CutOff? ==> |bytes| < size + 5)
  {
    var bytes := AttemptBytes(a);
    assert device[at] == Byte(header[0]);
    StartsWith(device, at, STX, a);
    assert bytes == bytes[..3] + bytes[3..];
    ArrivesJoined(device, at, bytes[..3], bytes[3..]);
    ArrivesOnce(device, at, header, bytes[..3]);
  }
}
