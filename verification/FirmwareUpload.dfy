/** Block transfer of a firmware image (svsBdpFirmwareUpgrade, src/svsApi.c:958-1031). */
module FirmwareUpload {
  import opened Binary
  import opened Sequences

  const BLOCK_MAX := 896
  const OFFSET_RANGE := 0x1_0000_0000

  datatype Status = Pass | Fail

  /** bdp_firmware_upgrade_msg_req_t: `data` is the whole buffer, of which the first `len` bytes count. */
  datatype Block = Block(offset: nat, len: nat, data: seq<byte>)

  /** What fread leaves in the cleared buffer at file position `pos`. */
  function Padded(image: seq<byte>, pos: nat): (data: seq<byte>)
    requires pos <= |image|
    ensures |data| == BLOCK_MAX
  {
    var n := ReadLength(image, pos);
    image[pos..pos + n] + seq(BLOCK_MAX - n, _ => 0)
  }

  function ReadLength(image: seq<byte>, pos: nat): (n: nat)
    requires pos <= |image|
    ensures pos + n <= |image| && n <= BLOCK_MAX
  {
    if |image| - pos < BLOCK_MAX then |image| - pos else BLOCK_MAX
  }

  /** The block read at file position `pos`. */
  function BlockAt(image: seq<byte>, pos: nat): (block: Block)
    requires pos <= |image|
  {
    Block(pos % OFFSET_RANGE, ReadLength(image, pos), Padded(image, pos))
  }

  // ---------- the intended transfer ----------

  /** The blocks of an image from file position `pos` on: full blocks, then exactly one short one, empty when
      the image ends on a block boundary. */
  function BlocksFrom(image: seq<byte>, pos: nat): (blocks: seq<Block>)
    requires pos <= |image|
    decreases |image| - pos
  {
    if ReadLength(image, pos) < BLOCK_MAX then [BlockAt(image, pos)]
    else [BlockAt(image, pos)] + BlocksFrom(image, pos + BLOCK_MAX)
  }

  /** The code never sends an image that is shorter than one block. */
  function Blocks(image: seq<byte>): (blocks: seq<Block>)
  {
    if |image| < BLOCK_MAX then [] else BlocksFrom(image, 0)
  }

  // ---------- the upload loop ----------

  /** The most tries a block gets: 0 counts as 1. */
  function MaxTries(retries: byte): (n: nat)
  {
    if retries == 0 then 1 else retries
  }

  /** One block with its retries; `answer(t)` says whether try number `t` is acknowledged with status 0. */
  method SendBlock(retries: byte, answer: nat -> bool) returns (rc: Status, tries: nat)
    ensures 1 <= tries && (if retries == 0 then tries == 1 else tries <= retries)
    ensures rc == (if answer(tries) then Pass else Fail)
    ensures forall t :: 1 <= t < tries ==> !answer(t)
    ensures rc == Fail ==> tries == (if retries == 0 then 1 else retries)
  {
    tries := 1;
    rc := if answer(1) then Pass else Fail;
    while tries < retries && rc != Pass
      invariant 1 <= tries <= MaxTries(retries)
      invariant rc == (if answer(tries) then Pass else Fail)
      invariant forall t :: 1 <= t < tries ==> !answer(t)
      decreases retries as int - tries
    {
      tries := tries + 1;
      rc := if answer(tries) then Pass else Fail;
    }
  }

  ghost predicate NeverAnswered(answer: nat -> bool, retries: byte)
  {
    forall t :: 1 <= t <= MaxTries(retries) ==> !answer(t)
  }

  /** The first `n` blocks were acknowledged at their last try. */
  ghost predicate Acknowledged(answer: nat -> nat -> bool, tries: seq<nat>, n: int)
    requires n <= |tries|
  {
    forall k :: 0 <= k < n ==> answer(k)(tries[k])
  }

  /** Every block was tried until its first acknowledgement, at most as often as allowed, and not given up
      early. */
  ghost predicate TriesOk(answer: nat -> nat -> bool, tries: seq<nat>, retries: byte)
  {
    forall k :: 0 <= k < |tries| ==> Awaited(answer(k), tries[k], retries)
  }

  ghost predicate Awaited(answer: nat -> bool, tries: nat, retries: byte)
  {
    && 1 <= tries <= MaxTries(retries)
    && (forall t :: 1 <= t < tries ==> !answer(t))
    && (answer(tries) || tries == MaxTries(retries))
  }

  /** The block at file position `pos`, which `offset` follows in 32 bits, with its retries. */
  method TransferBlock(image: seq<byte>, retries: byte, answer: nat -> bool, pos: nat, offset: nat)
    returns (rc: Status, block: Block, tries: nat)
    requires pos <= |image| && offset == pos % OFFSET_RANGE
    ensures block == BlockAt(image, pos)
    ensures rc == (if answer(tries) then Pass else Fail)
    ensures rc == Fail ==> NeverAnswered(answer, retries)
    ensures Awaited(answer, tries, retries)
  {
    block := Block(offset, ReadLength(image, pos), Padded(image, pos));
    rc, tries := SendBlock(retries, answer);
  }

  /** The next block goes out. */
  method TransferNext(image: seq<byte>, retries: byte, answer: nat -> nat -> bool, pos: nat, offset: nat,
                      sent: seq<Block>, tries: seq<nat>)
    returns (rc: Status, sent': seq<Block>, tries': seq<nat>)
    requires pos <= |image| && offset == pos % OFFSET_RANGE && |tries| == |sent|
    requires TriesOk(answer, tries, retries) && Acknowledged(answer, tries, |sent|)
    ensures sent' == sent + [BlockAt(image, pos)] && |tries'| == |sent'|
    ensures TriesOk(answer, tries', retries) && Acknowledged(answer, tries', |sent|)
    ensures rc == Pass ==> Acknowledged(answer, tries', |sent'|)
    ensures rc == Fail ==> NeverAnswered(answer(|sent|), retries)
  {
    var block, n;
    rc, block, n := TransferBlock(image, retries, answer(|sent|), pos, offset);
    sent', tries' := sent + [block], tries + [n];
  }

  /** `answer(k)(t)` is the device's answer to try `t` of block `k`, and `readFails(k)` an I/O error while
      block `k` is read.  `sent` are the blocks handed to the device and `tries` how often each. */
  method Upload(image: seq<byte>, retries: byte, answer: nat -> nat -> bool, readFails: nat -> bool)
    returns (rc: Status, sent: seq<Block>, tries: seq<nat>)
    ensures |tries| == |sent| && sent <= Blocks(image)
    ensures TriesOk(answer, tries, retries) && Acknowledged(answer, tries, |sent| - 1)
    ensures rc == Pass ==> sent == Blocks(image) && Acknowledged(answer, tries, |sent|)
    ensures rc == Fail ==>
              || (sent != [] && NeverAnswered(answer(|sent| - 1), retries))
              || (readFails(|sent|) && 896 * (|sent| + 1) <= |image|)
    ensures |image| < BLOCK_MAX ==> rc == Pass && sent == []
  {
    rc, sent, tries := Pass, [], [];
    var pos: nat, offset: nat, lastLen: nat := 0, 0, 0;
    while true
      invariant pos <= |image| && offset == pos % OFFSET_RANGE
      invariant |tries| == |sent| && rc == Pass
      invariant TriesOk(answer, tries, retries) && Acknowledged(answer, tries, |sent|)
      invariant Progress(image, pos, lastLen, sent)
      decreases |image| - pos
    {
      var len := ReadLength(image, pos);
      var feof := |image| - pos < BLOCK_MAX;
      if feof {
        if lastLen != BLOCK_MAX {
          break;
        }
      } else if readFails(|sent|) {
        rc := Fail;
        break;
      }
      NextBlock(image, pos, lastLen, sent);
      OffsetStep(pos, len);
      rc, sent, tries := TransferNext(image, retries, answer, pos, offset, sent, tries);
      pos, offset, lastLen := pos + len, (offset + len) % OFFSET_RANGE, len;
      if rc != Pass || len == 0 {
        break;
      }
    }
  }

  /** The 32-bit offset follows the file position. */
  lemma OffsetStep(pos: nat, n: nat)
    ensures (pos % OFFSET_RANGE + n) % OFFSET_RANGE == (pos + n) % OFFSET_RANGE
  {
  }

  lemma SmallOffset(offset: nat)
    requires offset < OFFSET_RANGE
    ensures offset % OFFSET_RANGE == offset
  {
  }

  /** Where the transfer stands when `lastLen` bytes went out in the last block: nothing sent yet, or the rest
      of the image still to come, or all blocks out. */
  ghost predicate Progress(image: seq<byte>, pos: nat, lastLen: nat, sent: seq<Block>)
    requires pos <= |image|
  {
    && lastLen <= BLOCK_MAX
    && (lastLen == 0 ==> pos == 0 && sent == [])
    && sent <= Blocks(image)
    && (0 < lastLen < BLOCK_MAX ==> pos == |image| && sent == Blocks(image))
    && (lastLen == BLOCK_MAX ==> pos == BLOCK_MAX * |sent|)
    && (lastLen == BLOCK_MAX ==> |image| >= BLOCK_MAX && sent + BlocksFrom(image, pos) == Blocks(image))
  }

  /** A full block leaves the rest of the image to come. */
  lemma FullBlock(image: seq<byte>, pos: nat, sent: seq<Block>)
    requires |image| - pos >= BLOCK_MAX && sent + BlocksFrom(image, pos) == Blocks(image)
    ensures var sent' := sent + [BlockAt(image, pos)];
            sent' <= Blocks(image) && sent' + BlocksFrom(image, pos + BLOCK_MAX) == Blocks(image)
  {
    Regroup(sent, BlockAt(image, pos), BlocksFrom(image, pos + BLOCK_MAX));
  }

  /** What is still to come before block `pos` is sent. */
  lemma StillToCome(image: seq<byte>, pos: nat, lastLen: nat, sent: seq<Block>)
    requires pos <= |image| && Progress(image, pos, lastLen, sent)
    requires |image| - pos < BLOCK_MAX ==> lastLen == BLOCK_MAX
    ensures |image| >= BLOCK_MAX && sent + BlocksFrom(image, pos) == Blocks(image)
  {
  }

  lemma NextBlock(image: seq<byte>, pos: nat, lastLen: nat, sent: seq<Block>)
    requires pos <= |image| && Progress(image, pos, lastLen, sent)
    requires |image| - pos < BLOCK_MAX ==> lastLen == BLOCK_MAX
    ensures var n := ReadLength(image, pos);
            var sent' := sent + [BlockAt(image, pos)];
            && sent' <= Blocks(image)
            && (n == 0 ==> sent' == Blocks(image))
            && (n > 0 ==> Progress(image, pos + n, n, sent'))
  {
    StillToCome(image, pos, lastLen, sent);
    if |image| - pos >= BLOCK_MAX {
      FullBlock(image, pos, sent);
    }
  }

  // ---------- the device ----------

  /** The byte a block stores at address `i`. */
  function StoredAt(block: Block, i: nat): (b: byte)
    requires block.len <= |block.data| && block.offset <= i < block.offset + block.len
  {
    block.data[i - block.offset]
  }

  /** Device memory after a block: its first `len` bytes are stored from `offset` on. */
  function Store(memory: map<nat, byte>, block: Block): (memory': map<nat, byte>)
    requires block.len <= |block.data|
  {
    memory + map i | block.offset <= i < block.offset + block.len :: StoredAt(block, i)
  }

  function StoreAll(memory: map<nat, byte>, blocks: seq<Block>): (memory': map<nat, byte>)
    requires forall b :: b in blocks ==> b.len <= |b.data|
    decreases |blocks|
  {
    if blocks == [] then memory else StoreAll(Store(memory, blocks[0]), blocks[1..])
  }

  /** The image from file position `pos` on, in memory. */
  function Tail(image: seq<byte>, pos: nat): (memory: map<nat, byte>)
    requires pos <= |image|
  {
    map i | pos <= i < |image| :: image[i]
  }

  lemma {:induction false} BlocksFromShape(image: seq<byte>, pos: nat)
    requires pos <= |image| && |image| - pos < OFFSET_RANGE
    ensures var blocks := BlocksFrom(image, pos);
            && |blocks| == (|image| - pos) / BLOCK_MAX + 1
            && (forall k :: 0 <= k < |blocks| ==>
                  && blocks[k].offset == (pos + BLOCK_MAX * k) % OFFSET_RANGE
                  && |blocks[k].data| == BLOCK_MAX
                  && blocks[k].len == (if k < |blocks| - 1 then BLOCK_MAX else (|image| - pos) % BLOCK_MAX))
    decreases |image| - pos
  {
    if |image| - pos >= BLOCK_MAX {
      BlocksFromShape(image, pos + BLOCK_MAX);
      var blocks, rest := BlocksFrom(image, pos), BlocksFrom(image, pos + BLOCK_MAX);
      assert forall k :: 1 <= k < |blocks| ==> blocks[k] == rest[k - 1];
    }
  }

  function Slice(image: seq<byte>, from: nat, to: nat): (memory: map<nat, byte>)
    requires from <= to <= |image|
  {
    map i | from <= i < to :: image[i]
  }

  lemma StoreSlice(image: seq<byte>, pos: nat, memory: map<nat, byte>)
    requires pos <= |image| < OFFSET_RANGE
    ensures var n := ReadLength(image, pos);
            Store(memory, BlockAt(image, pos)) == memory + Slice(image, pos, pos + n)
  {
    var n := ReadLength(image, pos);
    var block := BlockAt(image, pos);
    assert block.offset == pos;
    assert forall i: nat :: pos <= i < pos + n ==> StoredAt(block, i) == image[i];
  }

  lemma {:induction false} BlocksFit(image: seq<byte>, pos: nat)
    requires pos <= |image|
    ensures forall b :: b in BlocksFrom(image, pos) ==> b.len <= |b.data|
    decreases |image| - pos
  {
    if ReadLength(image, pos) == BLOCK_MAX {
      BlocksFit(image, pos + BLOCK_MAX);
    }
  }

  lemma StoreFirst(memory: map<nat, byte>, block: Block, rest: seq<Block>)
    requires block.len <= |block.data| && forall b :: b in rest ==> b.len <= |b.data|
    ensures StoreAll(memory, [block] + rest) == StoreAll(Store(memory, block), rest)
  {
    assert ([block] + rest)[1..] == rest;
  }

  lemma LastBlock(image: seq<byte>, pos: nat, memory: map<nat, byte>)
    requires pos <= |image| < OFFSET_RANGE && |image| - pos < BLOCK_MAX
    ensures (forall b :: b in BlocksFrom(image, pos) ==> b.len <= |b.data|)
    ensures StoreAll(memory, BlocksFrom(image, pos)) == memory + Tail(image, pos)
  {
    var block := BlockAt(image, pos);
    StoreSlice(image, pos, memory);
    assert Slice(image, pos, |image|) == Tail(image, pos);
    assert BlocksFrom(image, pos) == [block] + [];
    StoreFirst(memory, block, []);
  }

  lemma {:induction false} BlocksStoreTail(image: seq<byte>, pos: nat, memory: map<nat, byte>)
    requires pos <= |image| < OFFSET_RANGE
    ensures (forall b :: b in BlocksFrom(image, pos) ==> b.len <= |b.data|)
    ensures StoreAll(memory, BlocksFrom(image, pos)) == memory + Tail(image, pos)
    decreases |image| - pos
  {
    if |image| - pos < BLOCK_MAX {
      LastBlock(image, pos, memory);
    } else {
      var next := pos + BLOCK_MAX;
      var block := BlockAt(image, pos);
      BlocksFit(image, next);
      assert BlocksFrom(image, pos) == [block] + BlocksFrom(image, next);
      StoreFirst(memory, block, BlocksFrom(image, next));
      StoreSlice(image, pos, memory);
      BlocksStoreTail(image, next, Store(memory, block));
      SlicesJoin(image, pos, next, memory);
    }
  }

  lemma SlicesJoin(image: seq<byte>, pos: nat, mid: nat, memory: map<nat, byte>)
    requires pos <= mid <= |image|
    ensures (memory + Slice(image, pos, mid)) + Tail(image, mid) == memory + Tail(image, pos)
  {
  }

  /** Every image of at least one full block, below 4 GB, is reproduced in the device by its blocks; offsets
      are contiguous, every block but the last is full, and the last one is short. */
  lemma ImageReproduced(image: seq<byte>, memory: map<nat, byte>)
    requires BLOCK_MAX <= |image| < OFFSET_RANGE
    ensures var blocks := Blocks(image);
            && |blocks| == |image| / BLOCK_MAX + 1
            && (forall k :: 0 <= k < |blocks| ==> blocks[k].offset == BLOCK_MAX * k)
            && (forall k :: 0 <= k < |blocks| - 1 ==> blocks[k].len == BLOCK_MAX)
            && blocks[|blocks| - 1].len == |image| % BLOCK_MAX < BLOCK_MAX
            && (forall b :: b in blocks ==> b.len <= |b.data|)
            && StoreAll(memory, blocks) == memory + Tail(image, 0)
  {
    BlocksFromShape(image, 0);
    BlocksStoreTail(image, 0, memory);
    forall k | 0 <= k < |Blocks(image)|
      ensures Blocks(image)[k].offset == BLOCK_MAX * k
    {
      assert BLOCK_MAX * k <= |image|;
      SmallOffset(BLOCK_MAX * k);
    }
  }

  /** An upload of a short image sends nothing: empty memory ends up holding the image exactly when the image
      is empty or fills at least one block. */
  lemma ReproducedIff(image: seq<byte>)
    requires |image| < OFFSET_RANGE
    ensures (forall b :: b in Blocks(image) ==> b.len <= |b.data|)
    ensures StoreAll(map[], Blocks(image)) == Tail(image, 0) <==> |image| == 0 || |image| >= BLOCK_MAX
  {
    if |image| >= BLOCK_MAX {
      BlocksStoreTail(image, 0, map[]);
    } else if |image| > 0 {
      assert 0 in Tail(image, 0);
    }
  }
}
