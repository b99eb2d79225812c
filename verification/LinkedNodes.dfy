/** Singly linked lists on the heap, as the service keeps its clients and its connections (src/ipc/ipc_server.c). */
module LinkedNodes {
  class Node<T> {
    var info: T
    var next: Node?<T>

    constructor (info: T, next: Node?<T>)
      ensures this.info == info && this.next == next
    {
      this.info, this.next := info, next;
    }
  }

  /** The node at index `i` of a chain, or null past its end. */
  ghost function NodeOf<T>(nodes: seq<Node<T>>, i: nat): Node?<T> {
    if i < |nodes| then nodes[i] else null
  }

  /** `head` starts the list of exactly these nodes. */
  ghost predicate Linked<T>(head: Node?<T>, nodes: seq<Node<T>>) reads nodes {
    head == NodeOf(nodes, 0) && forall i :: 0 <= i < |nodes| ==> nodes[i].next == NodeOf(nodes, i + 1)
  }

  lemma PrependLinked<T>(entry: Node<T>, nodes: seq<Node<T>>)
    requires Linked(entry.next, nodes)
    ensures Linked(entry, [entry] + nodes)
  {
    var all := [entry] + nodes;
    forall i | 0 <= i < |all| ensures all[i].next == NodeOf(all, i + 1) {
      if i > 0 {
        assert all[i] == nodes[i - 1];
      }
    }
  }

  ghost predicate DistinctNodes<T>(nodes: seq<Node<T>>) {
    forall i, j :: 0 <= i < j < |nodes| ==> nodes[i] != nodes[j]
  }

  ghost function Infos<T>(nodes: seq<Node<T>>): (reg: seq<T>)
    reads nodes
    ensures |reg| == |nodes|
  {
    seq(|nodes|, i requires 0 <= i < |nodes| reads nodes => nodes[i].info)
  }

  lemma PrependInfos<T>(entry: Node<T>, nodes: seq<Node<T>>)
    ensures Infos([entry] + nodes) == [entry.info] + Infos(nodes)
  {
  }

  /** The chain from `head` passes over node `i`. */
  ghost predicate Skips<T>(head: Node?<T>, nodes: seq<Node<T>>, i: nat) reads nodes {
    && head == NodeOf(nodes, if i == 0 then 1 else 0)
    && forall k :: 0 <= k < |nodes| && k != i ==> nodes[k].next == NodeOf(nodes, if k + 1 == i then k + 2 else k + 1)
  }

  /** `rest` is the chain without its node `i`. */
  ghost predicate Without<T>(nodes: seq<Node<T>>, i: nat, rest: seq<Node<T>>)
    requires i < |nodes|
  {
    && |rest| == |nodes| - 1
    && (forall k :: 0 <= k < i ==> rest[k] == nodes[k])
    && (forall k :: i <= k < |rest| ==> rest[k] == nodes[k + 1])
  }

  lemma WithoutOne<T>(nodes: seq<Node<T>>, i: nat)
    requires i < |nodes|
    ensures Without(nodes, i, nodes[..i] + nodes[i + 1..])
    ensures forall e :: e in nodes[..i] + nodes[i + 1..] ==> e in nodes
  {
  }

  /** A chain in which the link to node `i` skips it is the chain without that node. */
  lemma SplicedChain<T>(head: Node?<T>, nodes: seq<Node<T>>, i: nat, rest: seq<Node<T>>)
    requires i < |nodes| && Without(nodes, i, rest) && DistinctNodes(nodes)
    requires Skips(head, nodes, i)
    ensures Linked(head, rest) && DistinctNodes(rest)
  {
    forall k | 0 <= k < |rest| ensures rest[k].next == NodeOf(rest, k + 1) {
      assert rest[k] == nodes[if k < i then k else k + 1];
    }
    forall a, b | 0 <= a < b < |rest| ensures rest[a] != rest[b] {
      assert rest[a] == nodes[if a < i then a else a + 1] && rest[b] == nodes[if b < i then b else b + 1];
    }
  }

  lemma SplicedInfos<T>(nodes: seq<Node<T>>, i: nat, rest: seq<Node<T>>)
    requires i < |nodes| && Without(nodes, i, rest)
    ensures Infos(rest) == Infos(nodes)[..i] + Infos(nodes)[i + 1..]
  {
  }

  /** A head pointer and what hangs on it. `spine` names the nodes in list order. */
  class NodeList<T> {
    var head: Node?<T>
    ghost var spine: seq<Node<T>>

    /** An acyclic list of distinct nodes. */
    ghost predicate Valid() reads this, spine {
      Linked(head, spine) && DistinctNodes(spine)
    }

    /** What the nodes hold, in list order. */
    ghost function Items(): (items: seq<T>)
      reads this, spine
      ensures |items| == |spine|
    {
      Infos(spine)
    }

    constructor ()
      ensures Valid() && Items() == []
    {
      head, spine := null, [];
    }

    /** One fresh node becomes the head. */
    method PushFront(info: T)
      requires Valid()
      modifies this
      ensures Valid() && Items() == [info] + old(Items())
      ensures exists e: Node<T> :: fresh(e) && spine == [e] + old(spine)
    {
      var entry := new Node(info, head);
      PrependLinked(entry, spine);
      PrependInfos(entry, spine);
      spine := [entry] + spine;
      head := entry;
    }

    /** `*current = (*current)->next`: redirects the one pointer that leads to node `i`. `previous` stands for the
        pointer-to-pointer: null while it points at the list head. */
    method Splice(previous: Node?<T>, current: Node<T>, ghost i: nat)
      requires Valid() && i < |spine| && current == spine[i]
      requires if i == 0 then previous == null else previous == spine[i - 1]
      modifies this`head, (set e: Node<T> | e in spine)`next
      ensures Skips(head, spine, i) && spine == old(spine)
      ensures Infos(spine) == old(Infos(spine))
    {
      if previous == null {
        head := current.next;
      } else {
        previous.next := current.next;
      }
    }

    /** Takes exactly node `i` out and keeps the order of the rest. */
    method Unlink(previous: Node?<T>, current: Node<T>, ghost i: nat)
      requires Valid() && i < |spine| && current == spine[i]
      requires if i == 0 then previous == null else previous == spine[i - 1]
      modifies this, spine
      ensures Valid() && Items() == old(Items())[..i] + old(Items())[i + 1..]
      ensures spine == old(spine)[..i] + old(spine)[i + 1..] && |spine| == old(|spine|) - 1
      ensures forall e :: e in spine ==> e in old(spine)
    {
      ghost var nodes, rest := spine, spine[..i] + spine[i + 1..];
      WithoutOne(nodes, i);
      Splice(previous, current, i);
      SplicedChain(head, nodes, i, rest);
      SplicedInfos(nodes, i, rest);
      spine := rest;
    }

    /** Overwrites what node `i` holds. */
    method Update(entry: Node<T>, info: T, ghost i: nat)
      requires Valid() && i < |spine| && entry == spine[i]
      modifies entry`info
      ensures Valid() && Items() == old(Items())[i := info]
    {
      entry.info := info;
      assert Items() == old(Items())[i := info];
    }
  }
}
