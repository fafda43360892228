/** The BDP frame on the wire: header layout, limits and the frames svsBdpTx builds
    (src/svsBdpMsg.h:8-12, 160-183; src/svsBdp.c:1143-1188). */
module BdpWire {
  import opened Binary
  import Crc16

  const PREAMBLE_BYTE: byte := 0xAA
  const PREAMBLE_SIZE := 7
  const START_OF_FRAME: byte := 0xAB
  const ADDRESS_LENGTH := 8
  const HEADER_SIZE := 24
  const CRC_SIZE := 2
  const PAYLOAD_MAX := 1024
  const FRAME_MAX := HEADER_SIZE + PAYLOAD_MAX

  /** BDP_NUM_ALL: the virtual number that addresses every device */
  const DEVICE_ALL := 0xFF

  datatype Option<+T> = None | Some(value: T)

  type Address = a: seq<byte> | |a| == ADDRESS_LENGTH witness [0, 0, 0, 0, 0, 0, 0, 0]

  const ZERO_ADDRESS: Address := [0, 0, 0, 0, 0, 0, 0, 0]
  const BROADCAST_ADDRESS: Address := [0xFF, 0xFF, 0xFF, 0xFF, 0xFF, 0xFF, 0xFF, 0xFF]

  type int32 = x: int | -0x8000_0000 <= x < 0x8000_0000

  datatype Header = Header(crc: word, len: word, lenInv: word, addr: Address, msgId: byte,
                           sockFd: int32, flags: byte, seqNum: word, timestamp: word)

  // ---------- little-endian fields ----------

  function WordBytes(x: word): (s: seq<byte>)
    ensures |s| == 2
  {
    [x % 0x100, x / 0x100]
  }

  function ReadWord(s: seq<byte>, at: nat): (x: word)
    requires at + 2 <= |s|
  {
    s[at] as int + 0x100 * (s[at + 1] as int)
  }

  /** Two's complement, lowest byte first. */
  function Int32Bytes(x: int32): (s: seq<byte>)
    ensures |s| == 4
  {
    var u: int := if x < 0 then x + 0x1_0000_0000 else x;
    WordBytes(u % 0x1_0000) + WordBytes(u / 0x1_0000)
  }

  function ReadInt32(s: seq<byte>, at: nat): (x: int32)
    requires at + 4 <= |s|
  {
    var u: int := ReadWord(s, at) as int + 0x1_0000 * (ReadWord(s, at + 2) as int);
    if u >= 0x8000_0000 then u - 0x1_0000_0000 else u
  }

  /** The fields of the packed header that the CRC covers. */
  function EncodeBody(h: Header): (s: seq<byte>)
    ensures |s| == HEADER_SIZE - CRC_SIZE
  {
    WordBytes(h.len) + WordBytes(h.lenInv) + h.addr + [h.msgId] + Int32Bytes(h.sockFd) + [h.flags]
      + WordBytes(h.seqNum) + WordBytes(h.timestamp)
  }

  function EncodeHeader(h: Header): (s: seq<byte>)
    ensures |s| == HEADER_SIZE
  {
    WordBytes(h.crc) + EncodeBody(h)
  }

  /** The packed header at the start of a receive buffer. */
  function DecodeHeader(s: seq<byte>): (h: Header)
    requires |s| >= HEADER_SIZE
  {
    Header(ReadWord(s, 0), ReadWord(s, 2), ReadWord(s, 4), s[6..14], s[14], ReadInt32(s, 15), s[19],
           ReadWord(s, 20), ReadWord(s, 22))
  }

  /** Fields travel lowest byte first, negative numbers in two's complement. */
  lemma LittleEndian(x: word, y: int32)
    ensures WordBytes(x)[0] as int + 256 * (WordBytes(x)[1] as int) == x
    ensures var s := Int32Bytes(y);
            (s[0] as int + 256 * (s[1] as int) + 65_536 * (s[2] as int) + 16_777_216 * (s[3] as int) - y)
              % 4_294_967_296 == 0
  {
    var u: int := if y < 0 then y + 0x1_0000_0000 else y;
    assert u == u % 0x1_0000 + 0x1_0000 * (u / 0x1_0000);
  }

  lemma ReadWordBytes(s: seq<byte>, at: nat, x: word)
    requires at + 2 <= |s| && s[at..at + 2] == WordBytes(x)
    ensures ReadWord(s, at) == x
  {
    assert s[at] == s[at..at + 2][0] && s[at + 1] == s[at..at + 2][1];
  }

  lemma ReadInt32Bytes(s: seq<byte>, at: nat, x: int32)
    requires at + 4 <= |s| && s[at..at + 4] == Int32Bytes(x)
    ensures ReadInt32(s, at) == x
  {
    var u: int := if x < 0 then x + 0x1_0000_0000 else x;
    assert s[at..at + 2] == s[at..at + 4][..2] == WordBytes(u % 0x1_0000);
    assert s[at + 2..at + 4] == s[at..at + 4][2..] == WordBytes(u / 0x1_0000);
    ReadWordBytes(s, at, u % 0x1_0000);
    ReadWordBytes(s, at + 2, u / 0x1_0000);
  }

  lemma BodyLayout(h: Header)
    ensures var s := EncodeBody(h);
            && s[0..2] == WordBytes(h.len) && s[2..4] == WordBytes(h.lenInv)
            && s[4..12] == h.addr && s[12] == h.msgId && s[13..17] == Int32Bytes(h.sockFd) && s[17] == h.flags
            && s[18..20] == WordBytes(h.seqNum) && s[20..22] == WordBytes(h.timestamp)
  {
  }

  /** A field keeps its content when something is put before and behind. */
  lemma FieldMoves(front: seq<byte>, middle: seq<byte>, back: seq<byte>, a: nat, b: nat)
    requires a <= b <= |middle|
    ensures (front + middle + back)[|front| + a..|front| + b] == middle[a..b]
  {
  }

  /** Where each field of the packed header lies. */
  lemma HeaderLayout(h: Header, payload: seq<byte>)
    ensures var s := EncodeHeader(h) + payload;
            && s[0..2] == WordBytes(h.crc) && s[2..4] == WordBytes(h.len) && s[4..6] == WordBytes(h.lenInv)
            && s[6..14] == h.addr && s[14] == h.msgId && s[15..19] == Int32Bytes(h.sockFd) && s[19] == h.flags
            && s[20..22] == WordBytes(h.seqNum) && s[22..24] == WordBytes(h.timestamp)
  {
    var crc, body := WordBytes(h.crc), EncodeBody(h);
    BodyLayout(h);
    FieldMoves([], crc, body + payload, 0, 2);
    assert [] + crc + (body + payload) == EncodeHeader(h) + payload;
    FieldMoves(crc, body, payload, 0, 2);
    FieldMoves(crc, body, payload, 2, 4);
    FieldMoves(crc, body, payload, 4, 12);
    FieldMoves(crc, body, payload, 13, 17);
    FieldMoves(crc, body, payload, 18, 20);
    FieldMoves(crc, body, payload, 20, 22);
  }

  lemma HeaderRoundTrip(h: Header, payload: seq<byte>)
    ensures DecodeHeader(EncodeHeader(h) + payload) == h
  {
    var s := EncodeHeader(h) + payload;
    HeaderLayout(h, payload);
    ReadWordBytes(s, 0, h.crc);
    ReadWordBytes(s, 2, h.len);
    ReadWordBytes(s, 4, h.lenInv);
    ReadInt32Bytes(s, 15, h.sockFd);
    ReadWordBytes(s, 20, h.seqNum);
    ReadWordBytes(s, 22, h.timestamp);
  }

  lemma ReadWordParts(s: seq<byte>, at: nat)
    requires at + 2 <= |s|
    ensures ReadWord(s, at) % 0x100 == s[at] && ReadWord(s, at) / 0x100 == s[at + 1]
  {
  }

  // ---------- frames ----------

  function CrcField(frame: seq<byte>): (x: word)
    requires |frame| >= HEADER_SIZE
  {
    ReadWord(frame, 0)
  }

  function LenField(frame: seq<byte>): (x: word)
    requires |frame| >= HEADER_SIZE
  {
    ReadWord(frame, 2)
  }

  function LenInvField(frame: seq<byte>): (x: word)
    requires |frame| >= HEADER_SIZE
  {
    ReadWord(frame, 4)
  }

  /** Header and payload as they travel after the start-of-frame byte, with the right length fields. */
  ghost predicate Framed(frame: seq<byte>)
  {
    && HEADER_SIZE <= |frame| <= FRAME_MAX
    && LenField(frame) == |frame| - HEADER_SIZE
    && LenInvField(frame) == 0xFFFF - LenField(frame)
  }

  ghost predicate CrcMatches(frame: seq<byte>)
    requires |frame| >= HEADER_SIZE
  {
    CrcField(frame) == Crc16.Crc(frame[CRC_SIZE..])
  }

  ghost predicate WellFormed(frame: seq<byte>)
  {
    Framed(frame) && CrcMatches(frame)
  }

  /** The header svsBdpTx fills in for `payload`. */
  function BuildHeader(addr: Address, msgId: byte, sockFd: int32, flags: byte, seqNum: word, nowMs: int,
                       payload: seq<byte>): (h: Header)
    requires |payload| <= PAYLOAD_MAX
  {
    var h := Header(0, |payload|, 0xFFFF - |payload|, addr, msgId, sockFd, flags, seqNum, nowMs % 0x1_0000);
    var crc := Crc16.Resume(Crc16.Crc(EncodeBody(h)), payload);
    h.(crc := crc)
  }

  /** What svsBdpTx builds is well formed, and carries the request it was built from. */
  lemma BuiltFrame(addr: Address, msgId: byte, sockFd: int32, flags: byte, seqNum: word, nowMs: int,
                   payload: seq<byte>)
    requires |payload| <= PAYLOAD_MAX
    ensures var h := BuildHeader(addr, msgId, sockFd, flags, seqNum, nowMs, payload);
            var frame := EncodeHeader(h) + payload;
            && WellFormed(frame)
            && DecodeHeader(frame) == h && frame[HEADER_SIZE..] == payload
            && h.addr == addr && h.msgId == msgId && h.sockFd == sockFd && h.flags == flags
            && h.seqNum == seqNum && h.timestamp == nowMs % 0x1_0000
  {
    var h := BuildHeader(addr, msgId, sockFd, flags, seqNum, nowMs, payload);
    var frame := EncodeHeader(h) + payload;
    HeaderRoundTrip(h, payload);
    assert frame[CRC_SIZE..] == EncodeBody(h) + payload;
    assert EncodeBody(h) == EncodeBody(h.(crc := 0));
    Crc16.ResumeAppend(0, EncodeBody(h), payload);
  }

  /** The bytes svsBdpFrameSendBus writes for one frame. */
  function OnWire(frame: seq<byte>): (s: seq<byte>)
  {
    seq(PREAMBLE_SIZE, _ => PREAMBLE_BYTE) + [START_OF_FRAME] + frame
  }
}
