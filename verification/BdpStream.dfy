/** What the receiver makes of whole byte streams: synchronisation, round trip with the sender, splitting
    into chunks, and detection of burst errors. */
module BdpStream {
  import opened Binary
  import opened BdpWire
  import opened BdpReceiver
  import opened Sequences
  import Crc16

  // ---------- synchronisation ----------

  ghost predicate AtFrameStart(rx: Rx)
  {
    rx.phase == Frame && rx.index == 0
  }

  function Preambles(n: nat): (s: seq<byte>)
    ensures |s| == n
  {
    seq(n, _ => PREAMBLE_BYTE)
  }

  function Sync(): (s: seq<byte>)
  {
    Preambles(PREAMBLE_SIZE) + [START_OF_FRAME]
  }

  /** `n` preamble bytes bring an idle receiver to preamble position `n`. */
  lemma {:induction false} CountsPreamble(rx: Rx, n: nat)
    requires Valid(rx) && 1 <= n
    requires rx.phase == Idle || rx.phase == Preamble
    requires n + (if rx.phase == Idle then 0 else rx.preambleIndex) <= PREAMBLE_SIZE
    ensures var (r, frames) := Feed(rx, Preambles(n));
            && frames == []
            && r.preambleIndex == n + (if rx.phase == Idle then 0 else rx.preambleIndex)
            && r.phase == (if r.preambleIndex == PREAMBLE_SIZE then Sof else Preamble)
            && r.index == 0 && r.crc == 0 && r.buffer == rx.buffer
    decreases n
  {
    StepKeepsValid(rx, PREAMBLE_BYTE);
    var next := Step(rx, PREAMBLE_BYTE).0;
    assert Preambles(n)[1..] == Preambles(n - 1);
    if n > 1 {
      CountsPreamble(next, n - 1);
    } else {
      assert Feed(next, []) == (next, []);
    }
  }

  /** From idle, the preamble and the start-of-frame byte lead to the start of a frame. */
  lemma SyncFromIdle(rx: Rx)
    requires Valid(rx) && rx.phase == Idle
    ensures var (r, frames) := Feed(rx, Sync());
            frames == [] && AtFrameStart(r) && r.crc == 0 && r.buffer == rx.buffer
  {
    CountsPreamble(rx, PREAMBLE_SIZE);
    FeedAppend(rx, Preambles(PREAMBLE_SIZE), [START_OF_FRAME]);
    var r := Feed(rx, Preambles(PREAMBLE_SIZE)).0;
    FeedOne(r, START_OF_FRAME);
  }

  lemma FeedOne(rx: Rx, data: byte)
    requires Valid(rx)
    ensures Valid(Step(rx, data).0) && Feed(rx, [data]).0 == Step(rx, data).0
    ensures Feed(rx, [data]).1 == (if Step(rx, data).1 == Done then [Received(Step(rx, data).0)] else [])
  {
    StepKeepsValid(rx, data);
    assert Feed(Step(rx, data).0, [data][1..]) == (Step(rx, data).0, []);
  }

  /** Fewer than seven preamble bytes and a start-of-frame byte never synchronise an idle receiver. */
  lemma ShortSyncFails(rx: Rx, n: nat)
    requires Valid(rx) && rx.phase == Idle && n < PREAMBLE_SIZE
    ensures Feed(rx, Preambles(n) + [START_OF_FRAME]).0.phase == Idle
  {
    FeedAppend(rx, Preambles(n), [START_OF_FRAME]);
    if n > 0 {
      CountsPreamble(rx, n);
    } else {
      assert Preambles(0) == [];
    }
    FeedOne(Feed(rx, Preambles(n)).0, START_OF_FRAME);
  }

  /** What a preamble byte does to a receiver that is not idle. */
  lemma PreambleNotIdle(rx: Rx)
    requires Valid(rx) && rx.phase != Idle
    ensures var next := Step(rx, PREAMBLE_BYTE).0;
            && Valid(next)
            && (next.phase == Preamble ==> rx.phase == Preamble && next.preambleIndex == rx.preambleIndex + 1)
            && (next.phase == Sof ==> rx.phase == Preamble && rx.preambleIndex == PREAMBLE_SIZE - 1)
            && (next.phase == Frame ==> next.index > 0)
  {
    StepKeepsValid(rx, PREAMBLE_BYTE);
  }

  lemma ShortSyncTail(n: nat)
    requires n > 0
    ensures var s := Preambles(n) + [START_OF_FRAME];
            s[0] == PREAMBLE_BYTE && s[1..] == Preambles(n - 1) + [START_OF_FRAME]
  {
  }

  /** A receiver that is not idle wastes at least one preamble byte, so it is never at the start of a frame
      once the preamble and start-of-frame byte have passed. */
  lemma {:induction false} NotIdleMissesSync(rx: Rx, n: nat)
    requires Valid(rx) && rx.phase != Idle && 1 <= n <= PREAMBLE_SIZE
    requires rx.phase == Preamble ==> rx.preambleIndex + n > PREAMBLE_SIZE
    ensures !AtFrameStart(Feed(rx, Preambles(n) + [START_OF_FRAME]).0)
    decreases n
  {
    var s := Preambles(n) + [START_OF_FRAME];
    ShortSyncTail(n);
    FeedFirst(rx, s);
    PreambleNotIdle(rx);
    var next := Step(rx, PREAMBLE_BYTE).0;
    if next.phase == Idle {
      ShortSyncFails(next, n - 1);
    } else if n == 1 {
      assert s[1..] == [START_OF_FRAME];
      FeedOne(next, START_OF_FRAME);
    } else {
      NotIdleMissesSync(next, n - 1);
    }
  }

  /** Exactly when a frame's preamble is recognised: the receiver must be idle before it. */
  lemma SynchronisesIffIdle(rx: Rx)
    requires Valid(rx)
    ensures AtFrameStart(Feed(rx, Sync()).0) <==> rx.phase == Idle
  {
    if rx.phase == Idle {
      SyncFromIdle(rx);
    } else {
      NotIdleMissesSync(rx, PREAMBLE_SIZE);
    }
  }

  // ---------- one frame ----------

  /** The length fields depend on the first six bytes only. */
  lemma SameFields(a: seq<byte>, b: seq<byte>, n: nat)
    requires 6 <= n <= |a| && n <= |b| && |a| >= HEADER_SIZE && |b| >= HEADER_SIZE
    requires a[..n] == b[..n]
    ensures CrcField(a) == CrcField(b) && LenField(a) == LenField(b) && LenInvField(a) == LenInvField(b)
  {
    assert forall i :: 0 <= i < 6 ==> a[i] == a[..n][i] && b[i] == b[..n][i];
  }

  /** No check fires on a stored byte that is not the last one of its frame. */
  lemma IncompleteFrame(stored: Rx, frame: seq<byte>)
    requires |stored.buffer| == FRAME_MAX && |frame| >= HEADER_SIZE
    requires stored.index <= |frame| && stored.index <= FRAME_MAX
    requires stored.buffer[..stored.index] == frame[..stored.index]
    requires stored.index <= 6 || (Framed(frame) && stored.index < |frame|)
    ensures CheckFrame(stored) == (stored, Nothing)
  {
    if stored.index >= 6 {
      SameFields(stored.buffer, frame, stored.index);
    }
  }

  lemma InnerByte(rx: Rx, frame: seq<byte>)
    requires Valid(rx) && rx.phase == Frame && |frame| >= HEADER_SIZE
    requires rx.index < |frame| && rx.buffer[..rx.index] == frame[..rx.index]
    requires rx.index < 6 || (Framed(frame) && rx.index < |frame| - 1)
    ensures var n, (next, outcome) := rx.index + 1, Step(rx, frame[rx.index]);
            && next.phase == Frame && next.index == n && next.buffer[..n] == frame[..n]
            && outcome == Nothing
  {
    var n, data := rx.index + 1, frame[rx.index];
    var buffer := rx.buffer[rx.index := data];
    assert buffer[..n] == rx.buffer[..rx.index] + [data] == frame[..n];
    var stored := rx.(buffer := buffer, index := n);
    IncompleteFrame(stored, frame);
    IncompleteFrame(stored.(crc := Crc16.Resume(rx.crc, [data])), frame);
  }

  /** Inside a frame of the right length nothing is reported until the last byte, and inside any frame
      nothing is reported before the length fields are complete. */
  lemma {:induction false} FillsBuffer(rx: Rx, frame: seq<byte>, n: nat)
    requires Valid(rx) && AtFrameStart(rx) && |frame| >= HEADER_SIZE
    requires n <= 6 || (Framed(frame) && n < |frame|)
    ensures var (r, frames) := Feed(rx, frame[..n]);
            frames == [] && r.phase == Frame && r.index == n && r.buffer[..n] == frame[..n]
    decreases n
  {
    if n > 0 {
      FillsBuffer(rx, frame, n - 1);
      assert frame[..n] == frame[..n - 1] + [frame[n - 1]];
      FeedAppend(rx, frame[..n - 1], [frame[n - 1]]);
      var r := Feed(rx, frame[..n - 1]).0;
      InnerByte(r, frame);
      FeedOne(r, frame[n - 1]);
    }
  }

  /** The seventh byte decides whether an attempt goes on: exactly if the two length fields are inverse to each
      other and the length is at most 1024. */
  lemma LengthDecides(rx: Rx, frame: seq<byte>)
    requires Valid(rx) && AtFrameStart(rx) && |frame| >= HEADER_SIZE
    ensures var (r, frames) := Feed(rx, frame[..7]);
            && frames == []
            && r.phase == (if LenField(frame) == 65_535 - LenInvField(frame) && LenField(frame) <= 1024
                           then Frame else Idle)
  {
    hide Feed, Crc16.Resume;
    FillsBuffer(rx, frame, 6);
    var r := Feed(rx, frame[..6]).0;
    assert frame[..7] == frame[..6] + [frame[6]];
    FeedAppend(rx, frame[..6], [frame[6]]);
    FeedOne(r, frame[6]);
    var buffer := r.buffer[6 := frame[6]];
    assert buffer[..6] == r.buffer[..6];
    SameFields(buffer, frame, 6);
  }

  /** The check made at the last byte of a frame that is complete in the buffer. */
  lemma CompleteFrame(stored: Rx, frame: seq<byte>)
    requires |stored.buffer| == FRAME_MAX && Framed(frame)
    requires stored.index == |frame| && stored.buffer[..|frame|] == frame
    requires stored.crc == Crc16.Crc(frame[CRC_SIZE..])
    ensures CheckFrame(stored) == (stored.(phase := Idle), if CrcMatches(frame) then Done else BadCrc)
    ensures Received(stored) == frame
  {
    SameFields(stored.buffer, frame, |frame|);
  }

  lemma LastByte(rx: Rx, frame: seq<byte>)
    requires Valid(rx) && rx.phase == Frame && Framed(frame)
    requires rx.index == |frame| - 1 && rx.buffer[..rx.index] == frame[..rx.index]
    ensures var (next, outcome) := Step(rx, frame[rx.index]);
            && next.phase == Idle && Received(next) == frame
            && outcome == (if CrcMatches(frame) then Done else BadCrc)
  {
    var n, data := |frame|, frame[rx.index];
    var buffer := rx.buffer[n - 1 := data];
    assert buffer[..n] == rx.buffer[..n - 1] + [data] == frame;
    assert buffer[CRC_SIZE..n] == frame[CRC_SIZE..];
    CoveredGrows(rx, data);
    var stored := rx.(buffer := buffer, index := n, crc := Crc16.Resume(rx.crc, [data]));
    CompleteFrame(stored, frame);
    assert Step(rx, data) == CheckFrame(stored);
  }

  /** A frame with the right length fields ends the attempt at its last byte, and is delivered, byte for
      byte, exactly when its CRC matches. */
  lemma FrameConsumed(rx: Rx, frame: seq<byte>)
    requires Valid(rx) && AtFrameStart(rx)
    requires Framed(frame)
    ensures var (r, frames) := Feed(rx, frame);
            frames == (if CrcMatches(frame) then [frame] else []) && r.phase == Idle
  {
    var n := |frame|;
    FillsBuffer(rx, frame, n - 1);
    assert frame == frame[..n - 1] + [frame[n - 1]];
    FeedAppend(rx, frame[..n - 1], [frame[n - 1]]);
    var r := Feed(rx, frame[..n - 1]).0;
    LastByte(r, frame);
    FeedOne(r, frame[n - 1]);
  }

  /** Delivery of one frame as it is written to the bus, from an idle receiver. */
  lemma WireFrameAccepted(rx: Rx, frame: seq<byte>)
    requires Valid(rx) && rx.phase == Idle
    requires WellFormed(frame)
    ensures var (r, frames) := Feed(rx, OnWire(frame)); frames == [frame] && r.phase == Idle
  {
    SyncFromIdle(rx);
    assert OnWire(frame) == Sync() + frame;
    FeedAppend(rx, Sync(), frame);
    FrameConsumed(Feed(rx, Sync()).0, frame);
  }

  // ---------- streams ----------

  /** One frame on the bus with the bytes that precede it. */
  datatype Sending = Sending(noise: seq<byte>, frame: seq<byte>)

  function Stream(sendings: seq<Sending>): (s: seq<byte>)
  {
    if sendings == [] then []
    else sendings[0].noise + OnWire(sendings[0].frame) + Stream(sendings[1..])
  }

  function Frames(sendings: seq<Sending>): (f: seq<seq<byte>>)
  {
    if sendings == [] then [] else [sendings[0].frame] + Frames(sendings[1..])
  }

  // ---------- frames that are lost ----------

  /** The bytes the reception attempt under way has consumed. */
  function Spent(rx: Rx): (n: nat)
  {
    match rx.phase
    case Idle => 0
    case Preamble => rx.preambleIndex
    case Sof => PREAMBLE_SIZE
    case Frame => PREAMBLE_SIZE + 1 + rx.index
  }

  lemma StepSpends(rx: Rx, data: byte)
    requires Valid(rx)
    ensures var (next, outcome) := Step(rx, data);
            && Valid(next) && Spent(next) <= Spent(rx) + 1
            && (outcome == Done ==> |Received(next)| + PREAMBLE_SIZE + 1 == Spent(rx) + 1 && Spent(next) == 0)
  {
    StepKeepsValid(rx, data);
  }

  /** Where a receiver outside a frame came from. */
  lemma StepBack(rx: Rx, data: byte)
    requires Valid(rx)
    ensures var next := Step(rx, data).0;
            && (next.phase == Preamble || next.phase == Sof ==>
                  data == PREAMBLE_BYTE && rx.phase != Frame && rx.phase != Sof && Spent(rx) == Spent(next) - 1)
            && (AtFrameStart(next) ==> data == START_OF_FRAME && rx.phase == Sof)
  {
  }

  lemma LastPreamble(s: seq<byte>, k: nat)
    requires 0 < k <= |s| && s[|s| - 1] == PREAMBLE_BYTE
    requires s[..|s| - 1][|s| - k..] == Preambles(k - 1)
    ensures s[|s| - k..] == Preambles(k)
  {
    assert forall i :: |s| - k <= i < |s| - 1 ==> s[i] == s[..|s| - 1][|s| - k..][i - (|s| - k)];
  }

  lemma LastStep(rx: Rx, s: seq<byte>)
    requires Valid(rx) && s != []
    ensures Feed(rx, s).0 == Step(Feed(rx, s[..|s| - 1]).0, s[|s| - 1]).0
  {
    hide Step;
    var t := s[..|s| - 1];
    DropLast(s, 0);
    FeedAppend(rx, t, [s[|s| - 1]]);
    FeedOne(Feed(rx, t).0, s[|s| - 1]);
  }

  /** A receiver that was idle once and has counted `k` preamble bytes has just been idle and seen exactly
      these. */
  lemma {:induction false} CameFromIdle(rx: Rx, s: seq<byte>)
    requires Valid(rx) && rx.phase == Idle
    requires Feed(rx, s).0.phase == Preamble || Feed(rx, s).0.phase == Sof
    ensures var k := Spent(Feed(rx, s).0);
            0 < k <= |s| && s[|s| - k..] == Preambles(k) && Feed(rx, s[..|s| - k]).0.phase == Idle
    decreases |s|
  {
    var t := s[..|s| - 1];
    LastStep(rx, s);
    var r, k := Feed(rx, t).0, Spent(Feed(rx, s).0);
    StepBack(r, s[|s| - 1]);
    if r.phase == Idle {
      assert s[|s| - 1..] == [PREAMBLE_BYTE] == Preambles(1);
    } else {
      CameFromIdle(rx, t);
      DropLast(s, k - 1);
      LastPreamble(s, k);
    }
  }

  lemma SyncSuffix(s: seq<byte>)
    requires |s| >= 8 && s[|s| - 1] == START_OF_FRAME && s[..|s| - 1][|s| - 8..] == Preambles(7)
    ensures s[|s| - 8..] == Sync()
  {
    assert s[|s| - 8..] == s[..|s| - 1][|s| - 8..] + [s[|s| - 1]];
  }

  /** Exactly when a receiver is at the start of a frame: it has just received seven preamble bytes and a start
      byte, and was idle before these. */
  lemma FrameStartsIff(rx: Rx, s: seq<byte>)
    requires Valid(rx) && rx.phase == Idle
    ensures AtFrameStart(Feed(rx, s).0)
        <==> |s| >= 8 && s[|s| - 8..] == Sync() && Feed(rx, s[..|s| - 8]).0.phase == Idle
  {
    if |s| >= 8 && s[|s| - 8..] == Sync() {
      assert s == s[..|s| - 8] + Sync();
      FeedAppend(rx, s[..|s| - 8], Sync());
      if Feed(rx, s[..|s| - 8]).0.phase == Idle {
        SyncFromIdle(Feed(rx, s[..|s| - 8]).0);
      }
    }
    if AtFrameStart(Feed(rx, s).0) {
      StartedBySync(rx, s);
    }
  }

  lemma StartedBySync(rx: Rx, s: seq<byte>)
    requires Valid(rx) && rx.phase == Idle && AtFrameStart(Feed(rx, s).0)
    ensures |s| >= 8 && s[|s| - 8..] == Sync() && Feed(rx, s[..|s| - 8]).0.phase == Idle
  {
    hide Step, Sync, Preambles;
    var t := s[..|s| - 1];
    LastStep(rx, s);
    StepBack(Feed(rx, t).0, s[|s| - 1]);
    CameFromIdle(rx, t);
    DropLast(s, 7);
    SyncSuffix(s);
  }

  /** Every frame delivered has been paid for: its bytes, its preamble and its start byte were received. */
  lemma {:induction false} FramesArePaidFor(rx: Rx, bytes: seq<byte>, frame: seq<byte>)
    requires Valid(rx) && frame in Feed(rx, bytes).1
    ensures |frame| + PREAMBLE_SIZE + 1 <= |bytes| + Spent(rx)
    decreases |bytes|
  {
    FeedFirst(rx, bytes);
    StepSpends(rx, bytes[0]);
    var next := Step(rx, bytes[0]).0;
    if frame in Feed(next, bytes[1..]).1 {
      FramesArePaidFor(next, bytes[1..], frame);
    }
  }

  lemma SyncParts(k: nat)
    requires 1 <= k <= PREAMBLE_SIZE
    ensures Sync() == Preambles(PREAMBLE_SIZE - k) + ([PREAMBLE_BYTE] + (Preambles(k - 1) + [START_OF_FRAME]))
  {
  }

  /** A receiver that has seen part of a preamble is idle again when the next preamble is over. */
  lemma MissedSyncEndsIdle(rx: Rx)
    requires Valid(rx) && (rx.phase == Preamble || rx.phase == Sof)
    ensures Feed(rx, Sync()).0.phase == Idle
  {
    var k: nat := Spent(rx);
    var front, back := Preambles(PREAMBLE_SIZE - k), Preambles(k - 1) + [START_OF_FRAME];
    SyncParts(k);
    FeedAppend(rx, front, [PREAMBLE_BYTE] + back);
    if k < PREAMBLE_SIZE {
      CountsPreamble(rx, PREAMBLE_SIZE - k);
    } else {
      assert front == [];
    }
    var sof := Feed(rx, front).0;
    FeedAppend(sof, [PREAMBLE_BYTE], back);
    FeedOne(sof, PREAMBLE_BYTE);
    ShortSyncFails(Feed(sof, [PREAMBLE_BYTE]).0, k - 1);
  }

  /** Outside a frame: exactly an idle receiver delivers the frame written to the bus next. */
  lemma DeliveredIffIdle(rx: Rx, frame: seq<byte>)
    requires Valid(rx) && rx.phase != Frame && WellFormed(frame)
    ensures frame in Feed(rx, OnWire(frame)).1 <==> rx.phase == Idle
  {
    if rx.phase == Idle {
      WireFrameAccepted(rx, frame);
    } else {
      MissedSyncEndsIdle(rx);
      FeedAppend(rx, Sync(), frame);
      var r := Feed(rx, Sync()).0;
      if frame in Feed(rx, Sync()).1 {
        FramesArePaidFor(rx, Sync(), frame);
      }
      if frame in Feed(r, frame).1 {
        FramesArePaidFor(r, frame, frame);
      }
    }
  }

  function Advance(spent: nat): (n: nat)
  {
    if spent == PREAMBLE_SIZE then 0 else spent + 1
  }

  lemma PreambleAdvances(rx: Rx)
    requires Valid(rx) && rx.phase != Frame
    ensures var (next, outcome) := Step(rx, PREAMBLE_BYTE);
            && Valid(next) && next.phase != Frame && outcome != Done
            && Spent(rx) <= PREAMBLE_SIZE && Spent(next) == Advance(Spent(rx))
  {
    StepKeepsValid(rx, PREAMBLE_BYTE);
  }

  lemma AdvanceModulo(spent: nat, m: nat)
    requires spent <= PREAMBLE_SIZE && m > 0
    ensures (Advance(spent) + (m - 1)) % 8 == (spent + m) % 8
  {
  }

  /** Preamble bytes alone take a receiver round in circles of eight and deliver nothing. */
  lemma {:induction false} PreamblesCircle(rx: Rx, m: nat)
    requires Valid(rx) && rx.phase != Frame
    ensures var (r, frames) := Feed(rx, Preambles(m));
            frames == [] && r.phase != Frame && Spent(r) == (Spent(rx) + m) % 8
    decreases m
  {
    PreambleAdvances(rx);
    if m > 0 {
      assert Preambles(m)[1..] == Preambles(m - 1);
      FeedFirst(rx, Preambles(m));
      AdvanceModulo(Spent(rx), m);
      PreamblesCircle(Step(rx, PREAMBLE_BYTE).0, m - 1);
    }
  }

  /** Exactly when stray preamble bytes before a frame do no harm: their number is a multiple of eight.  In
      particular one stray 0xAA loses the frame. */
  lemma StrayPreamblesIff(rx: Rx, m: nat, frame: seq<byte>)
    requires Valid(rx) && rx.phase == Idle && WellFormed(frame)
    ensures frame in Feed(rx, Preambles(m) + OnWire(frame)).1 <==> m % 8 == 0
  {
    hide Step, OnWire, WellFormed;
    PreamblesCircle(rx, m);
    FeedAppend(rx, Preambles(m), OnWire(frame));
    DeliveredIffIdle(Feed(rx, Preambles(m)).0, frame);
  }

  /** Bytes other than 0xAA leave an idle receiver idle. */
  lemma {:induction false} QuietNoise(rx: Rx, noise: seq<byte>)
    requires Valid(rx) && rx.phase == Idle
    requires PREAMBLE_BYTE !in noise
    ensures var (r, frames) := Feed(rx, noise); r.phase == Idle && frames == []
    decreases |noise|
  {
    if noise != [] {
      StepKeepsValid(rx, noise[0]);
      QuietNoise(Step(rx, noise[0]).0, noise[1..]);
    }
  }

  /** Every stream of well-formed frames, each preceded by any bytes but 0xAA, decodes to exactly those
      frames in order. */
  lemma {:induction false} StreamRoundTrip(rx: Rx, sendings: seq<Sending>)
    requires Valid(rx) && rx.phase == Idle
    requires forall s :: s in sendings ==> PREAMBLE_BYTE !in s.noise && WellFormed(s.frame)
    ensures var (r, frames) := Feed(rx, Stream(sendings)); frames == Frames(sendings) && r.phase == Idle
    decreases |sendings|
  {
    if sendings != [] {
      var s, rest := sendings[0], Stream(sendings[1..]);
      QuietNoise(rx, s.noise);
      var quiet := Feed(rx, s.noise).0;
      WireFrameAccepted(quiet, s.frame);
      var after := Feed(quiet, OnWire(s.frame)).0;
      StreamRoundTrip(after, sendings[1..]);
      FeedAppend(quiet, OnWire(s.frame), rest);
      FeedAppend(rx, s.noise, OnWire(s.frame) + rest);
      assert Stream(sendings) == s.noise + (OnWire(s.frame) + rest);
    }
  }

  // ---------- reads ----------

  /** One read from the port: the bytes, the clock at the gap test, and the time stamp set after it. */
  datatype Read = Read(bytes: seq<byte>, now: int, stamped: int)

  /** The inter-byte timeout, applied once a read before its bytes. */
  function Gate(rx: Rx, gap: int): (r: Rx)
    requires Valid(rx)
    ensures Valid(r)
  {
    if gap > MAX_INTER_BYTE_US then rx.(phase := Idle) else rx
  }

  /** A run of reads; `last` is the time stamp of the previous one.  An empty read changes nothing. */
  function Reads(rx: Rx, last: int, chunks: seq<Read>): (result: (Rx, seq<seq<byte>>))
    requires Valid(rx)
    ensures Valid(result.0)
    decreases |chunks|
  {
    if chunks == [] then (rx, [])
    else if chunks[0].bytes == [] then Reads(rx, last, chunks[1..])
    else
      var (r, frames) := Feed(Gate(rx, chunks[0].now - last), chunks[0].bytes);
      var (r', frames') := Reads(r, chunks[0].stamped, chunks[1..]);
      (r', frames + frames')
  }

  function Joined(chunks: seq<Read>): (bytes: seq<byte>)
  {
    if chunks == [] then [] else chunks[0].bytes + Joined(chunks[1..])
  }

  ghost predicate NoLongGap(last: int, chunks: seq<Read>)
    decreases |chunks|
  {
    if chunks == [] then true
    else if chunks[0].bytes == [] then NoLongGap(last, chunks[1..])
    else chunks[0].now - last <= MAX_INTER_BYTE_US && NoLongGap(chunks[0].stamped, chunks[1..])
  }

  /** Without an over-long gap it does not matter how the stream is cut into reads. */
  lemma {:induction false} CutsDoNotMatter(rx: Rx, last: int, chunks: seq<Read>)
    requires Valid(rx) && NoLongGap(last, chunks)
    ensures Reads(rx, last, chunks) == Feed(rx, Joined(chunks))
    decreases |chunks|
  {
    if chunks == [] {
    } else if chunks[0].bytes == [] {
      CutsDoNotMatter(rx, last, chunks[1..]);
      assert Joined(chunks) == Joined(chunks[1..]);
    } else {
      var r := Feed(rx, chunks[0].bytes).0;
      CutsDoNotMatter(r, chunks[0].stamped, chunks[1..]);
      FeedAppend(rx, chunks[0].bytes, Joined(chunks[1..]));
    }
  }

  /** After a gap over the limit, a clean stream is decoded in full from any reachable state. */
  lemma RecoversAfterGap(rx: Rx, last: int, chunks: seq<Read>, sendings: seq<Sending>)
    requires Valid(rx) && chunks != [] && chunks[0].bytes != []
    requires chunks[0].now - last > MAX_INTER_BYTE_US && NoLongGap(chunks[0].stamped, chunks[1..])
    requires Joined(chunks) == Stream(sendings)
    requires forall s :: s in sendings ==> PREAMBLE_BYTE !in s.noise && WellFormed(s.frame)
    ensures Reads(rx, last, chunks).1 == Frames(sendings)
  {
    var idle := Gate(rx, chunks[0].now - last);
    var r := Feed(idle, chunks[0].bytes).0;
    CutsDoNotMatter(r, chunks[0].stamped, chunks[1..]);
    FeedAppend(idle, chunks[0].bytes, Joined(chunks[1..]));
    StreamRoundTrip(idle, sendings);
  }
}
