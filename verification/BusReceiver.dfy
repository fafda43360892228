/** The receive fields of one bus, updated in place a byte at a time (svsBdpRx, src/svsBdp.c:773-938). */
module BusReceiver {
  import opened Binary
  import opened BdpWire
  import opened BdpReceiver
  import opened BdpStream
  import Crc16

  class Bus {
    const crcTable: Crc16.CrcTable
    const frameBuffer: array<byte>
    var phase: Phase
    var preambleIndex: nat
    var frameIndex: nat
    var frameCrc: word
    var frameDone: bool
    var activityUs: int

    ghost function State(): (rx: Rx)
      reads this, frameBuffer
    {
      Rx(phase, preambleIndex, frameIndex, frameCrc, frameBuffer[..])
    }

    ghost predicate Valid()
      reads this, frameBuffer, crcTable.table
    {
      && frameBuffer.Length == FRAME_MAX
      && crcTable.Valid()
      && crcTable.table as object != frameBuffer as object
      && BdpReceiver.Valid(State())
      && !frameDone
    }

    constructor (crcTable: Crc16.CrcTable)
      requires crcTable.Valid()
      ensures Valid() && fresh(frameBuffer) && this.crcTable == crcTable
      ensures phase == Idle
    {
      this.crcTable := crcTable;
      frameBuffer := new byte[FRAME_MAX];
      phase, preambleIndex, frameIndex, frameCrc, frameDone, activityUs := Idle, 0, 0, 0, false, 0;
    }

    /** The body of the byte loop up to the frame_done test. */
    method ReceiveByte(data: byte) returns (outcome: Outcome)
      requires Valid()
      modifies this, frameBuffer
      ensures BdpReceiver.Valid(old(State()))
      ensures (State(), outcome) == Step(old(State()), data)
      ensures frameDone == (outcome == Done)
      ensures frameBuffer.Length == FRAME_MAX && crcTable.Valid() && BdpReceiver.Valid(State())
      ensures activityUs == old(activityUs)
    {
      ghost var before := State();
      StepKeepsValid(before, data);
      outcome := Nothing;
      if phase == Idle {
        frameCrc, frameIndex, preambleIndex, frameDone := 0, 0, 0, false;
        phase := Preamble;
      }
      if phase == Preamble {
        if data == PREAMBLE_BYTE {
          preambleIndex := preambleIndex + 1;
          if preambleIndex >= PREAMBLE_SIZE {
            phase := Sof;
          }
        } else {
          phase := Idle;
        }
      } else if phase == Sof {
        if data == START_OF_FRAME {
          phase := Frame;
        } else {
          phase := Idle;
          outcome := NoSof;
        }
      } else {
        outcome := StoreByte(data);
      }
    }

    /** State FRAME. */
    method StoreByte(data: byte) returns (outcome: Outcome)
      requires Valid() && phase == Frame
      modifies this, frameBuffer
      ensures BdpReceiver.Valid(old(State()))
      ensures (State(), outcome) == Step(old(State()), data)
      ensures frameDone == (outcome == Done)
      ensures crcTable.Valid() && activityUs == old(activityUs)
    {
      ghost var before := State();
      frameBuffer[frameIndex] := data;
      frameIndex := frameIndex + 1;
      if frameIndex > CRC_SIZE {
        frameCrc := crcTable.ResumeCompute(frameCrc, [data]);
      }
      assert frameBuffer[..] == before.buffer[before.index := data];
      outcome := CheckStored();
    }

    /** The length check at index 7 and the CRC check at the last byte. */
    method CheckStored() returns (outcome: Outcome)
      requires frameBuffer.Length == FRAME_MAX && !frameDone
      modifies this`phase, this`frameDone
      ensures (State(), outcome) == CheckFrame(old(State()))
      ensures frameDone == (outcome == Done)
    {
      outcome := Nothing;
      var len := LenField(frameBuffer[..]);
      if frameIndex == 7 {
        if len != 0xFFFF - LenInvField(frameBuffer[..]) {
          phase := Idle;
          outcome := CorruptLength;
        } else if len > PAYLOAD_MAX {
          phase := Idle;
          outcome := LengthTooLong;
        }
      }
      if frameIndex == len as int + HEADER_SIZE {
        if frameCrc != CrcField(frameBuffer[..]) {
          outcome := BadCrc;
        } else {
          outcome := Done;
          frameDone := true;
        }
        phase := Idle;
      }
    }

    /** One turn of the byte loop: a completed frame is taken from the buffer and the flag cleared. */
    method TakeByte(data: byte) returns (frames: seq<seq<byte>>)
      requires Valid()
      modifies this, frameBuffer
      ensures Valid() && BdpReceiver.Valid(old(State()))
      ensures (State(), frames) == Feed(old(State()), [data])
      ensures activityUs == old(activityUs)
    {
      ghost var rx := State();
      FeedOne(rx, data);
      DoneIsInBounds(rx, data);
      var outcome := ReceiveByte(data);
      frames := [];
      if frameDone {
        frameDone := false;
        frames := [frameBuffer[..LenField(frameBuffer[..]) as int + HEADER_SIZE]];
        assert frames == [Received(State())];
      }
    }

    /** svsBdpRx for one read; the frames completed are handed on to the dispatcher. */
    method Receive(bytes: seq<byte>, now: int, stamped: int) returns (frames: seq<seq<byte>>)
      requires Valid()
      modifies this, frameBuffer
      ensures Valid() && BdpReceiver.Valid(old(State()))
      ensures (State(), frames) == Reads(old(State()), old(activityUs), [Read(bytes, now, stamped)])
      ensures activityUs == (if bytes == [] then old(activityUs) else stamped)
    {
      frames := [];
      if bytes == [] {
        return;
      }
      if now - activityUs > MAX_INTER_BYTE_US {
        if phase != Idle {
          phase := Idle;
        }
      }
      activityUs := stamped;
      ghost var start := State();
      for i := 0 to |bytes|
        invariant Valid() && activityUs == stamped
        invariant Feed(start, bytes[..i]) == (State(), frames)
      {
        assert bytes[..i + 1] == bytes[..i] + [bytes[i]];
        FeedAppend(start, bytes[..i], [bytes[i]]);
        var completed := TakeByte(bytes[i]);
        frames := frames + completed;
      }
      assert bytes[..|bytes|] == bytes;
      assert frames + [] == frames;
    }
  }

  lemma DoneIsInBounds(rx: Rx, data: byte)
    requires BdpReceiver.Valid(rx)
    ensures Step(rx, data).1 == Done ==> LenField(Step(rx, data).0.buffer) as int + HEADER_SIZE <= FRAME_MAX
  {
  }
}
