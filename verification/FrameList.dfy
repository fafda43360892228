/** The frame manager as it is coded: a doubly linked list behind a head node, walked and relinked in place
    (src/svsBdp.c:1799-2207).  Every method is one locked section, and refines one step of FrameQueue. */
module FrameList {
  import opened Binary
  import opened BdpWire
  import opened FrameQueue
  import opened Links

  /** bdp_node_t */
  type FrameNode = Node<FrameInfo>

  /** A freed node is cleared. */
  const CLEARED := FrameInfo(0, false, 0, 0, 0, 0, 0, 0, Header(0, 0, 0, ZERO_ADDRESS, 0, 0, 0, 0, 0), [])

  lemma Accepted(clock: nat -> int, s: Server, r: Request, addr: Address, info: FrameInfo)
    requires |s.queue| < ACTIVE_MAX && info == NewFrame(r, addr, s.seqNum, clock(s.tick))
    ensures TransmitStep(clock, s, r, Some(addr))
         == (Server(s.queue + [Entry(s.nextId, info)], s.nextId + 1, NextSeq(s.seqNum), s.tick + 1, s.log), Pass)
  {
  }

  class FrameManager {
    const head: FrameNode
    var activeFrames: int
    var seqNum: word
    var tick: nat
    ghost var nodes: seq<FrameNode>    // the list, head node first
    ghost var queue: seq<Entry>   // what the nodes behind the head hold
    ghost var nextId: nat
    ghost var log: seq<Event>

    ghost predicate Valid()
      reads this, nodes
    {
      && |nodes| > 0 && nodes[0] == head
      && Linked(nodes)
      && activeFrames == |queue| == |nodes| - 1
      && forall i :: 0 <= i < |queue| ==> queue[i].info == nodes[i + 1].val
    }

    ghost function State(): (s: Server)
      reads this, nodes
      requires Valid()
    {
      Server(queue, nextId, seqNum, tick, log)
    }

    /** svsBdpNodeInit, and the frame-manager part of svsBdpServerInit */
    constructor ()
      ensures Valid() && fresh(nodes) && State() == INITIAL
    {
      var h := new Node(CLEARED);
      head := h;
      nodes, queue := [h], [];
      activeFrames, seqNum, tick, nextId, log := 0, 1, 0, 0, [];
    }

    // ---------- list operations ----------

    /** svsBdpNodeAddFromTail */
    method NodeAddFromTail(info: FrameInfo, ghost id: nat) returns (node: FrameNode)
      requires Valid()
      modifies this`nodes, this`queue, this`activeFrames, nodes
      ensures Valid() && fresh(node) && nodes == old(nodes) + [node]
      ensures queue == old(queue) + [Entry(id, info)]
    {
      var last := head;
      ghost var i := 0;
      while last.next != null
        invariant 0 <= i < |nodes| && last == nodes[i]
        decreases |nodes| - i
      {
        assert nodes[i].next != null;
        last := last.next;
        i := i + 1;
      }
      assert nodes[i].next == null;
      assert i == |nodes| - 1;
      node := new Node(info);
      last.next := node;
      node.prev := last;
      nodes, queue := nodes + [node], queue + [Entry(id, info)];
      activeFrames := activeFrames + 1;
    }

    /** The neighbours of a node bypass it, and it is cleared. */
    method Bypass(node: FrameNode, ghost i: nat)
      requires Valid() && 0 < i < |nodes| && nodes[i] == node
      modifies nodes
      ensures Bypassed(nodes, i)
      ensures forall k :: 0 <= k < |nodes| && k != i ==> nodes[k].val == old(nodes[k].val)
    {
      assert nodes[i].prev == nodes[i - 1];
      assert nodes[i].next == if i + 1 < |nodes| then nodes[i + 1] else null;
      if node.prev != null {
        node.prev.next := node.next;
      }
      if node.next != null {
        node.next.prev := node.prev;
      }
      node.val, node.next, node.prev := CLEARED, null, null;
    }

    /** The whole of svsBdpNodeRemove for a node behind the head. */
    method Unlink(node: FrameNode, ghost i: nat)
      requires Valid()
      requires 0 < i < |nodes| && nodes[i] == node
      modifies this`nodes, this`queue, this`activeFrames, nodes
      ensures Valid()
      ensures nodes == old(nodes)[..i] + old(nodes)[i + 1..]
      ensures queue == Without(old(queue), i - 1)
    {
      Bypass(node, i);
      BypassedIsLinked(nodes, i);
      nodes, queue := nodes[..i] + nodes[i + 1..], Without(queue, i - 1);
      if activeFrames > 0 {
        activeFrames := activeFrames - 1;
      }
    }

    /** svsBdpNodeRemove */
    method NodeRemove(node: Node?<FrameInfo>, ghost i: nat)
      requires Valid()
      requires node != null ==> i < |nodes| && nodes[i] == node
      modifies this`nodes, this`queue, this`activeFrames, nodes
      ensures Valid()
      ensures node == null || node == head ==> nodes == old(nodes) && queue == old(queue)
      ensures node != null && node != head ==>
                && i > 0
                && nodes == old(nodes)[..i] + old(nodes)[i + 1..]
                && queue == Without(old(queue), i - 1)
    {
      if node == null || node == head {
        return;
      }
      Unlink(node, i);
    }

    /** svsBdpNodeFind */
    method NodeFind(seqNum: word) returns (node: Node?<FrameInfo>, ghost i: nat)
      requires Valid()
      ensures i == Find(queue, seqNum) + 1
      ensures if i < |nodes| then node == nodes[i] else node == null
      ensures node == null <==> forall k :: 0 <= k < |queue| ==> queue[k].info.header.seqNum != seqNum
      ensures node != null ==> node in nodes && node.val.header.seqNum == seqNum
    {
      assert nodes[0].next == if 1 < |nodes| then nodes[1] else null;
      node := head.next;
      i := 1;
      while node != null
        invariant 1 <= i <= |nodes|
        invariant if i < |nodes| then node == nodes[i] else node == null
        invariant forall k :: 0 <= k < i - 1 ==> queue[k].info.header.seqNum != seqNum
        decreases |nodes| - i
      {
        if node.val.header.seqNum == seqNum {
          assert queue[i - 1].info == nodes[i].val;
          return;
        }
        assert nodes[i].next == if i + 1 < |nodes| then nodes[i + 1] else null;
        node := node.next;
        i := i + 1;
      }
    }

    // ---------- the three locked sections ----------

    /** The sequence counter of svsBdpTx. */
    method TakeSequenceNumber() returns (taken: word)
      requires Valid()
      modifies this`seqNum
      ensures Valid() && taken == old(seqNum) && seqNum == NextSeq(taken)
    {
      taken := seqNum;
      seqNum := (seqNum + 1) % 0x100;
      if seqNum == 0 {
        seqNum := 1;
      }
    }

    /** The header-filling part of svsBdpTx. */
    method PrepareFrame(clock: nat -> int, r: Request, addr: Address) returns (info: FrameInfo)
      requires Valid()
      modifies this`seqNum, this`tick
      ensures Valid()
      ensures info == NewFrame(r, addr, old(seqNum), clock(old(tick)))
      ensures seqNum == NextSeq(old(seqNum)) && tick == old(tick) + 1
    {
      var now := clock(tick);
      tick := tick + 1;
      var n := TakeSequenceNumber();
      info := NewFrame(r, addr, n, now);
    }

    /** svsBdpFrameAdd */
    method FrameAdd(info: FrameInfo)
      requires Valid()
      modifies this`nodes, this`queue, this`activeFrames, this`nextId, nodes
      ensures Valid() && forall n :: n in nodes && n !in old(nodes) ==> fresh(n)
      ensures State() == old(State()).(queue := old(queue) + [Entry(old(nextId), info)], nextId := old(nextId) + 1)
    {
      var node := NodeAddFromTail(info, nextId);
      nextId := nextId + 1;
    }

    /** svsBdpTx: check the limit, look the address up, build the frame, queue it. */
    method Transmit(clock: nat -> int, r: Request, lookup: Option<Address>) returns (rc: Status)
      requires Valid()
      modifies this, nodes
      ensures Valid() && forall n :: n in nodes && n !in old(nodes) ==> fresh(n)
      ensures (State(), rc) == TransmitStep(clock, old(State()), r, lookup)
    {
      if activeFrames >= ACTIVE_MAX {
        return Busy;
      }
      if lookup.None? {
        return Fail;
      }
      ghost var s := State();
      var info := PrepareFrame(clock, r, lookup.value);
      Accepted(clock, s, r, lookup.value, info);
      FrameAdd(info);
      rc := Pass;
    }

    /** svsBdpFrameFindAndRemove: the frame is copied for the caller before it is freed. */
    method FrameFindAndRemove(seqNum: word) returns (found: bool, copy: FrameInfo, ghost id: nat)
      requires Valid()
      modifies this`nodes, this`queue, this`activeFrames, nodes
      ensures Valid()
      ensures var q := old(queue); var i := Find(q, seqNum);
              && found == (i < |q|)
              && (found ==> Entry(id, copy) == q[i] && queue == Without(q, i))
              && (!found ==> queue == q)
    {
      var node, i := NodeFind(seqNum);
      if node == null {
        return false, CLEARED, 0;
      }
      copy, id := node.val, queue[i - 1].id;
      NodeRemove(node, i);
      found := true;
    }

    /** What svsBdpRx does with the request a response belongs to. */
    method Notify(clock: nat -> int, info: FrameInfo, ghost id: nat, msgId: byte)
      requires Valid()
      modifies this`tick, this`log
      ensures Valid()
      ensures var (t, events) := Deliver(clock, old(tick), Entry(id, info), msgId);
              tick == t && log == old(log) + events
    {
      if info.header.msgId != msgId && msgId != MSG_ACK {
        return;
      }
      if info.timeoutMs == 0 && info.callback == 0 {
        return;
      }
      if info.callback != 0 {
        log := log + [Callback(id)];
        return;
      }
      var elapsed := clock(tick) - info.tsentClientMs;
      tick := tick + 1;
      if elapsed >= info.timeoutClientMs {
        return;
      }
      log := log + [Reply(id)];
    }

    /** The part of svsBdpRx behind the address and length checks, for a frame with a client socket. */
    method Respond(clock: nat -> int, seqNum: word, msgId: byte)
      requires Valid()
      modifies this, nodes
      ensures Valid()
      ensures State() == RespondStep(clock, old(State()), seqNum, msgId)
    {
      var found, info, id := FrameFindAndRemove(seqNum);
      if found {
        log := log + [Left(id, Answered)];
        Notify(clock, info, id, msgId);
      }
    }

    // ---------- the periodic thread ----------

    /** The walk of a pass that has reached list position `i`. */
    ghost function At(i: nat): (w: Walk)
      requires Valid() && 0 < i <= |nodes|
      reads this, nodes
    {
      Walk(queue[..i - 1], queue[i - 1..], tick, log)
    }

    /** svsBdpFrameSend: whether the bytes got out does not matter to the caller. */
    method FrameSend(info: FrameInfo, ghost id: nat, ghost first: bool)
      modifies this`log
      ensures log == old(log) + [Sent(id, info.devNum, first, info.Bytes())]
    {
      log := log + [Sent(id, info.devNum, first, info.Bytes())];
    }

    /** The inner loop: is another frame of the same device active? */
    method ActiveElsewhere(node: FrameNode, ghost i: nat) returns (found: bool)
      requires Valid() && 0 < i < |nodes| && nodes[i] == node
      ensures found == (ActiveFor(queue[..i - 1], node.val.devNum) || ActiveFor(queue[i..], node.val.devNum))
    {
      ghost var q := queue;
      assert nodes[0].next == nodes[1];
      var temp := head.next;
      ghost var k := 1;
      while temp != null
        invariant 1 <= k <= |nodes|
        invariant if k < |nodes| then temp == nodes[k] else temp == null
        invariant forall m :: 0 <= m < k - 1 && m != i - 1 ==>
                    !(q[m].info.active && q[m].info.devNum == node.val.devNum)
        decreases |nodes| - k
      {
        assert q[k - 1].info == nodes[k].val;
        if node != temp && temp.val.active && temp.val.devNum == node.val.devNum {
          if k < i {
            assert q[..i - 1][k - 1] == q[k - 1];
          } else {
            assert q[i..][k - 1 - i] == q[k - 1];
          }
          return true;
        }
        assert nodes[k].next == if k + 1 < |nodes| then nodes[k + 1] else null;
        temp := temp.next;
        k := k + 1;
      }
      return false;
    }

    /** Steps back to the previous node and frees the current one. */
    method RemoveCurrent(node: FrameNode, ghost i: nat) returns (at: FrameNode)
      requires Valid() && 0 < i < |nodes| && nodes[i] == node
      modifies this`nodes, this`queue, this`activeFrames, nodes
      ensures Valid() && Kept(old(nodes)) && i - 1 < |nodes| && at == nodes[i - 1]
      ensures At(i) == Walk(old(queue)[..i - 1], old(queue)[i..], tick, log)
    {
      ghost var q := queue;
      assert nodes[i].prev == nodes[i - 1];
      var temp := node.prev;
      NodeRemove(node, i);
      at := temp;
      Splice(q, i - 1, q[i - 1]);
    }

    /** Changes one frame in place. */
    method Update(node: FrameNode, ghost i: nat, info: FrameInfo)
      requires Valid() && 0 < i < |nodes| && nodes[i] == node
      modifies node`val, this`queue
      ensures Valid() && node.val == info
      ensures queue[..i - 1] == old(queue)[..i - 1] && queue[i..] == old(queue)[i..]
      ensures At(i + 1) == Walk(old(queue)[..i - 1] + [Entry(old(queue[i - 1].id), info)], old(queue)[i..], tick, log)
    {
      Splice(queue, i - 1, Entry(queue[i - 1].id, info));
      node.val := info;
      queue := queue[i - 1 := Entry(queue[i - 1].id, info)];
    }

    ghost predicate Kept(before: seq<FrameNode>)
      reads this
    {
      forall k :: 0 <= k < |nodes| ==> nodes[k] in before
    }

    /** A frame that has not been sent yet and that nothing blocks. */
    method SendIdle(clock: nat -> int, node: FrameNode, ghost i: nat) returns (at: FrameNode, ghost k: nat)
      requires Valid() && 0 < i < |nodes| && nodes[i] == node
      modifies this`tick, this`log, this`nodes, this`queue, this`activeFrames, nodes
      ensures Valid() && Kept(old(nodes)) && k < |nodes| && at == nodes[k]
      ensures At(k + 1) == FirstSend(clock, old(At(i)), old(queue[i - 1]), old(queue)[i..])
    {
      ghost var e := queue[i - 1];
      FrameSend(node.val, e.id, true);
      var sent := node.val.(active := true, tsentMs := clock(tick), retry := 0);
      tick := tick + 1;
      Update(node, i, sent);
      at, k := node, i;
      if sent.NoResponse() {
        log := log + [Left(e.id, NoResponseDue)];
        at := RemoveCurrent(node, i);
        k := i - 1;
      }
    }

    /** A frame whose timeout has passed. */
    method Timeout(clock: nat -> int, node: FrameNode, ghost i: nat) returns (at: FrameNode, ghost k: nat)
      requires Valid() && 0 < i < |nodes| && nodes[i] == node
      modifies this`tick, this`log, this`nodes, this`queue, this`activeFrames, nodes
      ensures Valid() && Kept(old(nodes)) && k < |nodes| && at == nodes[k]
      ensures At(k + 1) == Expired(clock, old(At(i)), old(queue[i - 1]), old(queue)[i..])
    {
      ghost var e := queue[i - 1];
      tick := tick + 1;
      at, k := node, i;
      if node.val.retry < RETRY_MAX {
        FrameSend(node.val, e.id, false);
        var again := node.val.(tsentMs := clock(tick), retry := node.val.retry + 1);
        tick := tick + 1;
        Update(node, i, again);
      } else {
        log := log + [Left(e.id, Exhausted)];
        at := RemoveCurrent(node, i);
        k := i - 1;
      }
    }

    /** One turn of the outer loop, up to the step to the next node. */
    method VisitNode(clock: nat -> int, node: FrameNode, ghost i: nat) returns (at: FrameNode, ghost k: nat)
      requires Valid() && 0 < i < |nodes| && nodes[i] == node
      modifies this`tick, this`log, this`nodes, this`queue, this`activeFrames, nodes
      ensures Valid() && Kept(old(nodes)) && k < |nodes| && at == nodes[k]
      ensures At(k + 1) == Visit(clock, old(At(i)))
    {
      ghost var w := At(i);
      Splice(queue, i - 1, queue[i - 1]);
      at, k := node, i;
      if !node.val.active {
        var blocked := ActiveElsewhere(node, i);
        if !blocked {
          at, k := SendIdle(clock, node, i);
        }
      } else {
        var tnow := clock(tick);
        if tnow - node.val.tsentMs >= node.val.timeoutMs {
          at, k := Timeout(clock, node, i);
        } else {
          tick := tick + 1;
        }
      }
    }

    /** One turn of the outer loop with the step to the next node. */
    method VisitAndStep(clock: nat -> int, node: FrameNode, ghost i: nat) returns (next: Node?<FrameInfo>, ghost j: nat)
      requires Valid() && 0 < i < |nodes| && nodes[i] == node
      modifies this`tick, this`log, this`nodes, this`queue, this`activeFrames, nodes
      ensures Valid() && Kept(old(nodes)) && 0 < j <= |nodes|
      ensures if j < |nodes| then next == nodes[j] else next == null
      ensures At(j) == Visit(clock, old(At(i)))
      ensures |nodes| - j < old(|nodes|) - i
    {
      ghost var w := At(i);
      var at, k := VisitNode(clock, node, i);
      assert |At(k + 1).todo| == |w.todo| - 1;
      assert nodes[k].next == if k + 1 < |nodes| then nodes[k + 1] else null;
      next, j := at.next, k + 1;
    }

    /** One pass of svsBdpFrameThread. */
    method ThreadPass(clock: nat -> int)
      requires Valid()
      modifies this, nodes
      ensures Valid()
      ensures State() == PassStep(clock, old(State()))
    {
      ghost var s, start := State(), At(1);
      assert start == Walk([], s.queue, s.tick, s.log);
      assert nodes[0].next == if 1 < |nodes| then nodes[1] else null;
      var node := head.next;
      ghost var i := 1;
      while node != null
        invariant Valid() && nextId == s.nextId && seqNum == s.seqNum
        invariant 0 < i <= |nodes| && Kept(old(nodes))
        invariant if i < |nodes| then node == nodes[i] else node == null
        invariant VisitAll(clock, At(i)) == VisitAll(clock, start)
        decreases |nodes| - i
      {
        VisitFirst(clock, At(i));
        node, i := VisitAndStep(clock, node, i);
      }
      assert At(i) == Walk(queue, [], tick, log);
    }
  }

  lemma VisitFirst(clock: nat -> int, w: Walk)
    requires w.todo != []
    ensures VisitAll(clock, w) == VisitAll(clock, Visit(clock, w))
  {
  }

  /** A queue cut at position `i`. */
  lemma Splice(q: seq<Entry>, i: nat, x: Entry)
    requires i < |q|
    ensures q[i..] == [q[i]] + q[i + 1..]
    ensures q[i := x][..i + 1] == q[..i] + [x] && q[i := x][i + 1..] == q[i + 1..]
    ensures Without(q, i)[..i] == q[..i] && Without(q, i)[i..] == q[i + 1..]
    ensures Without(q[i := x], i) == Without(q, i)
    ensures q[..i + 1] == q[..i] + [q[i]]
  {
  }
}
