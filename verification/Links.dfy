/** The nodes of the doubly linked lists of cache/list.c and src/svsBdp.c: what it means that their links
    represent a sequence, and what unlinking one of them leaves. */
module Links {

  class Node<T> {
    var prev: Node?<T>
    var next: Node?<T>
    var val: T

    /** list_node_new, and the allocation of a bdp_node_t */
    constructor (val: T)
      ensures this.val == val && prev == null && next == null
    {
      this.val, prev, next := val, null, null;
    }
  }

  ghost predicate Linked<T>(nodes: seq<Node<T>>)
    reads nodes
  {
    && (forall i, j :: 0 <= i < j < |nodes| ==> nodes[i] != nodes[j])
    && (forall i {:trigger nodes[i].next} :: 0 <= i < |nodes| ==>
          nodes[i].next == (if i + 1 < |nodes| then nodes[i + 1] else null))
    && (forall i {:trigger nodes[i].prev} :: 0 <= i < |nodes| ==>
          nodes[i].prev == (if i > 0 then nodes[i - 1] else null))
  }

  /** The links once node `i` has been bypassed. */
  ghost predicate Bypassed<T>(nodes: seq<Node<T>>, i: nat)
    requires i < |nodes|
    reads nodes
  {
    && (forall a, b :: 0 <= a < b < |nodes| ==> nodes[a] != nodes[b])
    && (forall k {:trigger nodes[k].next} :: 0 <= k < |nodes| && k != i ==>
          nodes[k].next == (var j := if k + 1 == i then k + 2 else k + 1; if j < |nodes| then nodes[j] else null))
    && (forall k {:trigger nodes[k].prev} :: 0 <= k < |nodes| && k != i ==>
          nodes[k].prev == (var j := if k == i + 1 then k - 2 else k - 1; if j >= 0 then nodes[j] else null))
  }

  lemma BypassedIsLinked<T>(nodes: seq<Node<T>>, i: nat)
    requires i < |nodes| && Bypassed(nodes, i)
    ensures Linked(nodes[..i] + nodes[i + 1..])
  {
    var rest := nodes[..i] + nodes[i + 1..];
    forall k | 0 <= k < |rest|
      ensures rest[k].next == (if k + 1 < |rest| then rest[k + 1] else null)
      ensures rest[k].prev == (if k > 0 then rest[k - 1] else null)
    {
      assert rest[k] == nodes[if k < i then k else k + 1];
      assert k + 1 < |rest| ==> rest[k + 1] == nodes[if k + 1 < i then k + 1 else k + 2];
      assert k > 0 ==> rest[k - 1] == nodes[if k - 1 < i then k - 1 else k];
    }
    forall a, b | 0 <= a < b < |rest|
      ensures rest[a] != rest[b]
    {
      assert rest[a] == nodes[if a < i then a else a + 1] && rest[b] == nodes[if b < i then b else b + 1];
    }
  }
}
