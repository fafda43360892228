/** The doubly linked list of cache/list.c with its iterator (cache/list_iterator.c). */
module IntrusiveList {
  import opened Links

  /** list_iterator_t */
  class Iterator<T> {
    var next: Node?<T>
    const fromHead: bool

    constructor (node: Node?<T>, fromHead: bool)
      ensures next == node && this.fromHead == fromHead
    {
      this.next, this.fromHead := node, fromHead;
    }

    /** list_iterator_next: the iterator has already moved on when its node is handed out. */
    method Next() returns (curr: Node?<T>)
      modifies this
      ensures curr == old(next)
      ensures next == (if curr == null then null else if fromHead then curr.next else curr.prev)
    {
      curr := next;
      if curr != null {
        next := if fromHead then curr.next else curr.prev;
      }
    }
  }

  /** list_t; `nodes` is the sequence the links represent, `vals` the values it carries. */
  class List<T> {
    var head: Node?<T>
    var tail: Node?<T>
    var len: nat
    ghost var nodes: seq<Node<T>>
    ghost var vals: seq<T>

    ghost predicate Valid()
      reads this, nodes
    {
      && Linked(nodes)
      && len == |nodes| == |vals|
      && (forall i :: 0 <= i < |vals| ==> vals[i] == nodes[i].val)
      && head == (if nodes == [] then null else nodes[0])
      && tail == (if nodes == [] then null else nodes[|nodes| - 1])
    }

    constructor ()
      ensures Valid() && nodes == [] && vals == []
    {
      head, tail, len, nodes, vals := null, null, 0, [], [];
    }

    /** list_rpush */
    method RPush(node: Node<T>)
      requires Valid() && node !in nodes
      modifies this, nodes, node
      ensures Valid() && nodes == old(nodes) + [node]
      ensures vals == old(vals) + [old(node.val)]
    {
      if len != 0 {
        node.prev := tail;
        node.next := null;
        tail.next := node;
        tail := node;
      } else {
        head, tail := node, node;
        node.prev, node.next := null, null;
      }
      len := len + 1;
      nodes, vals := nodes + [node], vals + [node.val];
    }

    /** list_lpush */
    method LPush(node: Node<T>)
      requires Valid() && node !in nodes
      modifies this, nodes, node
      ensures Valid() && nodes == [node] + old(nodes)
      ensures vals == [old(node.val)] + old(vals)
    {
      if len != 0 {
        node.next := head;
        node.prev := null;
        head.prev := node;
        head := node;
      } else {
        head, tail := node, node;
        node.prev, node.next := null, null;
      }
      len := len + 1;
      nodes, vals := [node] + nodes, [node.val] + vals;
    }

    /** list_rpop */
    method RPop() returns (node: Node?<T>)
      requires Valid()
      modifies this, nodes
      ensures Valid()
      ensures old(nodes) == [] ==> node == null && nodes == []
      ensures old(nodes) != [] ==>
                && node == old(nodes)[|old(nodes)| - 1] && nodes == old(nodes)[..|old(nodes)| - 1]
                && vals == old(vals)[..|old(vals)| - 1] && node.val == old(vals)[|old(vals)| - 1]
      ensures node != null ==> node.prev == null && node.next == null
    {
      if len == 0 {
        return null;
      }
      node := tail;
      assert nodes[|nodes| - 1].prev == if |nodes| > 1 then nodes[|nodes| - 2] else null;
      len := len - 1;
      if len != 0 {
        tail := node.prev;
        tail.next := null;
      } else {
        head, tail := null, null;
      }
      node.next, node.prev := null, null;
      nodes, vals := nodes[..|nodes| - 1], vals[..|vals| - 1];
    }

    /** list_lpop */
    method LPop() returns (node: Node?<T>)
      requires Valid()
      modifies this, nodes
      ensures Valid()
      ensures old(nodes) == [] ==> node == null && nodes == []
      ensures old(nodes) != [] ==>
                && node == old(nodes)[0] && nodes == old(nodes)[1..]
                && vals == old(vals)[1..] && node.val == old(vals)[0]
      ensures node != null ==> node.prev == null && node.next == null
    {
      if len == 0 {
        return null;
      }
      node := head;
      assert nodes[0].next == if |nodes| > 1 then nodes[1] else null;
      len := len - 1;
      if len != 0 {
        head := node.next;
        head.prev := null;
      } else {
        head, tail := null, null;
      }
      node.next, node.prev := null, null;
      nodes, vals := nodes[1..], vals[1..];
    }

    /** The neighbours of a node, or the ends of the list, bypass it. */
    method Bypass(node: Node<T>, ghost i: nat)
      requires Valid() && i < |nodes| && nodes[i] == node
      modifies this`head, this`tail, nodes
      ensures Bypassed(nodes, i)
      ensures head == (if i > 0 then nodes[0] else if |nodes| > 1 then nodes[1] else null)
      ensures tail == (if i + 1 < |nodes| then nodes[|nodes| - 1] else if i > 0 then nodes[i - 1] else null)
      ensures forall k :: 0 <= k < |nodes| && k != i ==> nodes[k].val == old(nodes[k].val)
    {
      Neighbours(i);
      ghost var before, after := if i > 0 then nodes[i - 1] else null, if i + 1 < |nodes| then nodes[i + 1] else null;
      if node.prev != null {
        node.prev.next := node.next;
      } else {
        head := node.next;
      }
      assert node.next == after && node.prev == before;
      if node.next != null {
        node.next.prev := node.prev;
      } else {
        tail := node.prev;
      }
      node.prev, node.next := null, null;
      assert before != null ==> before.next == after;
      assert after != null ==> after.prev == before;
    }

    /** list_remove; the node is freed. */
    method Remove(node: Node<T>, ghost i: nat)
      requires Valid() && i < |nodes| && nodes[i] == node
      modifies this, nodes
      ensures Valid() && nodes == old(nodes)[..i] + old(nodes)[i + 1..]
      ensures vals == old(vals)[..i] + old(vals)[i + 1..]
    {
      Bypass(node, i);
      BypassedIsLinked(nodes, i);
      len := len - 1;
      nodes, vals := nodes[..i] + nodes[i + 1..], vals[..i] + vals[i + 1..];
    }

    /** Assignment through the value pointer of a node in the list. */
    method SetVal(node: Node<T>, ghost i: nat, val: T)
      requires Valid() && i < |nodes| && nodes[i] == node
      modifies node`val, this`vals
      ensures Valid() && vals == old(vals)[i := val]
    {
      node.val := val;
      vals := vals[i := val];
    }

    /** list_find with a match function: the first node whose value matches. */
    method Find(matches: T -> bool) returns (node: Node?<T>, ghost i: nat)
      requires Valid()
      ensures i <= |nodes| && node == (if i < |nodes| then nodes[i] else null)
      ensures i < |nodes| ==> matches(vals[i])
      ensures forall k :: 0 <= k < i ==> !matches(vals[k])
      ensures node == null <==> forall k :: 0 <= k < |vals| ==> !matches(vals[k])
      ensures node != null ==> node in nodes && matches(node.val)
    {
      var it := new Iterator(head, true);
      node := it.Next();
      i := 0;
      while node != null
        invariant i <= |nodes| && node == (if i < |nodes| then nodes[i] else null)
        invariant it.fromHead && it.next == (if i + 1 < |nodes| then nodes[i + 1] else null)
        invariant forall k :: 0 <= k < i ==> !matches(vals[k])
        decreases |nodes| - i
      {
        if matches(node.val) {
          return;
        }
        assert i + 1 < |nodes| ==> nodes[i + 1].next == if i + 2 < |nodes| then nodes[i + 2] else null;
        node := it.Next();
        i := i + 1;
      }
    }

    /** list_at: negative indices count from the tail, -1 being the last node. */
    method At(index: int) returns (node: Node?<T>)
      requires Valid()
      ensures node == (if 0 <= index < |nodes| then nodes[index]
                       else if -|nodes| <= index < 0 then nodes[|nodes| + index] else null)
    {
      var fromHead, steps := true, index;
      if index < 0 {
        fromHead, steps := false, -index - 1;
      }
      if steps >= len {
        return null;
      }
      var it := new Iterator(if fromHead then head else tail, fromHead);
      ghost var at: nat := if fromHead then 0 else |nodes| - 1;
      Neighbours(at);
      node := it.Next();
      while steps > 0
        invariant 0 <= steps < |nodes| && it.fromHead == fromHead
        invariant 0 <= at < |nodes| && at == (if fromHead then index - steps else |nodes| + index + steps)
        invariant node == nodes[at]
        invariant it.next == (if fromHead then nodes[at].next else nodes[at].prev)
      {
        Neighbours(at);
        node := it.Next();
        at := if fromHead then at + 1 else at - 1;
        steps := steps - 1;
      }
    }

    lemma Neighbours(i: nat)
      requires Valid() && i < |nodes|
      ensures nodes[i].next == (if i + 1 < |nodes| then nodes[i + 1] else null)
      ensures nodes[i].prev == (if i > 0 then nodes[i - 1] else null)
    {
    }
  }
}
