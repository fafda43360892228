/** The byte-driven frame receiver of one bus (svsBdpRx, src/svsBdp.c:773-938). */
module BdpReceiver {
  import opened Binary
  import opened BdpWire
  import opened Sequences
  import Crc16

  const MAX_INTER_BYTE_US := 86_000

  datatype Phase = Idle | Preamble | Sof | Frame

  /** The receive half of bdp_bus_dev_info_t.  `buffer` keeps what earlier frames left in it. */
  datatype Rx = Rx(phase: Phase, preambleIndex: nat, index: nat, crc: word, buffer: seq<byte>)

  datatype Outcome = Nothing | NoSof | CorruptLength | LengthTooLong | BadCrc | Done

  /** One byte in state FRAME, already stored: `rx.index` counts it and `rx.crc` covers it. */
  function CheckFrame(rx: Rx): (result: (Rx, Outcome))
    requires |rx.buffer| == FRAME_MAX
  {
    if rx.index == 7 && LenField(rx.buffer) != 0xFFFF - LenInvField(rx.buffer) then
      (rx.(phase := Idle), CorruptLength)
    else if rx.index == 7 && LenField(rx.buffer) > PAYLOAD_MAX then
      (rx.(phase := Idle), LengthTooLong)
    else if rx.index == LenField(rx.buffer) as int + HEADER_SIZE then
      (rx.(phase := Idle), if rx.crc == CrcField(rx.buffer) then Done else BadCrc)
    else
      (rx, Nothing)
  }

  function PreambleByte(rx: Rx, data: byte): (result: (Rx, Outcome))
  {
    if data == PREAMBLE_BYTE then
      (rx.(preambleIndex := rx.preambleIndex + 1,
           phase := if rx.preambleIndex + 1 >= PREAMBLE_SIZE then Sof else Preamble), Nothing)
    else
      (rx.(phase := Idle), Nothing)
  }

  /** One byte through the state machine. */
  function Step(rx: Rx, data: byte): (result: (Rx, Outcome))
    requires |rx.buffer| == FRAME_MAX && (rx.phase == Frame ==> rx.index < FRAME_MAX)
    ensures |result.0.buffer| == FRAME_MAX
  {
    match rx.phase
    case Idle => PreambleByte(rx.(crc := 0, index := 0, preambleIndex := 0), data)
    case Preamble => PreambleByte(rx, data)
    case Sof => if data == START_OF_FRAME then (rx.(phase := Frame), Nothing) else (rx.(phase := Idle), NoSof)
    case Frame =>
      var stored := rx.(buffer := rx.buffer[rx.index := data], index := rx.index + 1);
      CheckFrame(if stored.index > CRC_SIZE then stored.(crc := Crc16.Resume(rx.crc, [data])) else stored)
  }

  // ---------- the invariant ----------

  ghost predicate LengthChecked(buffer: seq<byte>)
    requires |buffer| == FRAME_MAX
  {
    LenField(buffer) == 0xFFFF - LenInvField(buffer) && LenField(buffer) <= PAYLOAD_MAX
  }

  /** What holds between two bytes: the index stays inside the frame buffer, the running CRC covers exactly
      the bytes behind the CRC field, and from index 7 on the length has been validated. */
  ghost predicate Valid(rx: Rx)
  {
    && |rx.buffer| == FRAME_MAX
    && (rx.phase == Preamble ==> 1 <= rx.preambleIndex < PREAMBLE_SIZE)
    && (rx.phase == Preamble || rx.phase == Sof ==> rx.index == 0 && rx.crc == 0)
    && (rx.phase == Frame ==>
          && rx.index < FRAME_MAX
          && rx.crc == (if rx.index <= CRC_SIZE then 0 else Crc16.Crc(rx.buffer[CRC_SIZE..rx.index]))
          && (rx.index >= 7 ==> LengthChecked(rx.buffer) && rx.index < LenField(rx.buffer) as int + HEADER_SIZE))
  }

  lemma CoveredGrows(rx: Rx, data: byte)
    requires Valid(rx) && rx.phase == Frame
    ensures var buffer := rx.buffer[rx.index := data];
            rx.index >= CRC_SIZE ==> Crc16.Resume(rx.crc, [data]) == Crc16.Crc(buffer[CRC_SIZE..rx.index + 1])
  {
    var buffer := rx.buffer[rx.index := data];
    if rx.index >= CRC_SIZE {
      assert buffer[CRC_SIZE..rx.index + 1] == rx.buffer[CRC_SIZE..rx.index] + [data];
      Crc16.ResumeAppend(0, rx.buffer[CRC_SIZE..rx.index], [data]);
      assert Crc16.Crc([]) == 0;
    }
  }

  lemma StepKeepsValid(rx: Rx, data: byte)
    requires Valid(rx)
    ensures Valid(Step(rx, data).0)
  {
    if rx.phase == Frame {
      CoveredGrows(rx, data);
    }
  }

  // ---------- whole byte strings ----------

  /** The frame the buffer holds when the state machine reports `Done`. */
  function Received(rx: Rx): (frame: seq<byte>)
    requires |rx.buffer| == FRAME_MAX
  {
    var n := LenField(rx.buffer) as int + HEADER_SIZE;
    if n <= FRAME_MAX then rx.buffer[..n] else rx.buffer
  }

  /** The state after a byte string, and the frames completed on the way. */
  function Feed(rx: Rx, bytes: seq<byte>): (result: (Rx, seq<seq<byte>>))
    requires Valid(rx)
    ensures Valid(result.0)
    decreases |bytes|
  {
    if bytes == [] then (rx, [])
    else
      StepKeepsValid(rx, bytes[0]);
      var (next, outcome) := Step(rx, bytes[0]);
      var (last, frames) := Feed(next, bytes[1..]);
      (last, (if outcome == Done then [Received(next)] else []) + frames)
  }

  /** The first byte of a string. */
  lemma FeedFirst(rx: Rx, bytes: seq<byte>)
    requires Valid(rx) && bytes != []
    ensures var (next, outcome) := Step(rx, bytes[0]);
            && Valid(next)
            && Feed(rx, bytes).0 == Feed(next, bytes[1..]).0
            && Feed(rx, bytes).1 == (if outcome == Done then [Received(next)] else []) + Feed(next, bytes[1..]).1
  {
    StepKeepsValid(rx, bytes[0]);
  }

  lemma {:induction false} FeedAppend(rx: Rx, a: seq<byte>, b: seq<byte>)
    requires Valid(rx)
    ensures Feed(rx, a + b).0 == Feed(Feed(rx, a).0, b).0
    ensures Feed(rx, a + b).1 == Feed(rx, a).1 + Feed(Feed(rx, a).0, b).1
    decreases |a|
  {
    if a == [] {
      assert a + b == b;
    } else {
      JoinTail(a, b);
      FeedFirst(rx, a);
      FeedFirst(rx, a + b);
      var (next, outcome) := Step(rx, a[0]);
      FeedAppend(next, a[1..], b);
      var head := if outcome == Done then [Received(next)] else [];
      JoinAssoc(head, Feed(next, a[1..]).1, Feed(Feed(rx, a).0, b).1);
    }
  }

  lemma DoneIsWellFormed(rx: Rx, data: byte)
    requires Valid(rx) && Step(rx, data).1 == Done
    ensures WellFormed(Received(Step(rx, data).0))
  {
    CoveredGrows(rx, data);
    var next := Step(rx, data).0;
    var f := Received(next);
    assert f[CRC_SIZE..] == next.buffer[CRC_SIZE..next.index];
  }

  /** Only well-formed frames are ever handed on. */
  lemma {:induction false} OnlyWellFormed(rx: Rx, bytes: seq<byte>)
    requires Valid(rx)
    ensures forall f :: f in Feed(rx, bytes).1 ==> WellFormed(f)
    decreases |bytes|
  {
    if bytes != [] {
      FeedFirst(rx, bytes);
      var (next, outcome) := Step(rx, bytes[0]);
      OnlyWellFormed(next, bytes[1..]);
      if outcome == Done {
        DoneIsWellFormed(rx, bytes[0]);
      }
    }
  }

  // ---------- every state returns to idle ----------

  /** An upper bound on the bytes a reception attempt can still consume. */
  function Remaining(rx: Rx): (n: nat)
    requires Valid(rx)
  {
    match rx.phase
    case Idle => 0
    case Preamble => PREAMBLE_SIZE - rx.preambleIndex + 1 + FRAME_MAX
    case Sof => 1 + FRAME_MAX
    case Frame => FRAME_MAX - rx.index
  }

  lemma StepConsumes(rx: Rx, data: byte)
    requires Valid(rx) && rx.phase != Idle
    ensures Valid(Step(rx, data).0)
    ensures Step(rx, data).0.phase == Idle || Remaining(Step(rx, data).0) < Remaining(rx)
  {
    StepKeepsValid(rx, data);
  }

  /** From every state, whatever arrives, the receiver is idle again after at most 1056 bytes. */
  lemma {:induction false} ReturnsToIdle(rx: Rx, bytes: seq<byte>) returns (k: nat)
    requires Valid(rx) && |bytes| >= Remaining(rx)
    ensures k <= Remaining(rx) <= 1056 && Feed(rx, bytes[..k]).0.phase == Idle
    decreases |bytes|
  {
    if rx.phase == Idle {
      k := 0;
    } else {
      StepConsumes(rx, bytes[0]);
      var next := Step(rx, bytes[0]).0;
      var j := ReturnsToIdle(next, bytes[1..]);
      k := j + 1;
      assert bytes[..k][1..] == bytes[1..][..j];
    }
  }
}
