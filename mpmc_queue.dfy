/** Sequential model of CONQ::MPMCQueue<T>: an unbounded FIFO kept as a singly
    linked list whose consumer end is a consumed sentinel node, with dequeued
    nodes recycled through a second, sentinel-anchored list (the freelist).
    Nodes live in an arena addressed by index; a pointer is an index or Null. */
module Conq {
  import opened Indices

  /** The null pointer. */
  const Null: int := -1

  /** A list node: its value and the index of the next node (Null for none). */
  datatype Node<T> = Node(data: T, next: int)

  /** The values held by the nodes ids, in list order. */
  function Values<T>(nodes: seq<Node<T>>, ids: seq<nat>): (vs: seq<T>)
    requires InRange(ids, |nodes|)
    ensures |vs| == |ids|
    ensures forall k :: 0 <= k < |ids| ==> vs[k] == nodes[ids[k]].data
  {
    seq(|ids|, k requires 0 <= k < |ids| => nodes[ids[k]].data)
  }

  /** ids is a list in nodes: each node links to the one after it, and the
      last one links to nothing. */
  predicate Chain<T>(nodes: seq<Node<T>>, ids: seq<nat>)
    requires InRange(ids, |nodes|)
  {
    && ids != []
    && (forall k :: 0 <= k < |ids| - 1 ==> nodes[ids[k]].next == ids[k + 1])
    && nodes[ids[|ids| - 1]].next == Null
  }

  /** Two lists in one arena, the active list and the freelist: each well
      formed and repeat-free, and no node in both. */
  ghost predicate Lists<T>(nodes: seq<Node<T>>, active: seq<nat>, free: seq<nat>) {
    && InRange(active, |nodes|) && InRange(free, |nodes|)
    && Distinct(active) && Distinct(free) && Disjoint(active, free)
    && Chain(nodes, active) && Chain(nodes, free)
  }

  /** The two lists together with the four pointers: _head is the active
      list's last node, _tail its sentinel (or Null while claimed), and
      _freeListTail and _freeListHead the freelist's first and last nodes. */
  ghost predicate Shape<T>(nodes: seq<Node<T>>, active: seq<nat>, free: seq<nat>,
                           head: int, tail: int, freeListHead: int, freeListTail: int) {
    && Lists(nodes, active, free)
    && head == active[|active| - 1]
    && (tail == active[0] || tail == Null)
    && freeListTail == free[0] && freeListHead == free[|free| - 1]
  }

  /** A list stays a list when no node on it changes its link. */
  lemma ChainFrame<T>(nodes: seq<Node<T>>, nodes': seq<Node<T>>, ids: seq<nat>)
    requires InRange(ids, |nodes|) && Chain(nodes, ids) && |nodes| <= |nodes'|
    requires forall k :: 0 <= k < |ids| ==> nodes'[ids[k]].next == nodes[ids[k]].next
    ensures InRange(ids, |nodes'|) && Chain(nodes', ids)
  {
  }

  /** The values of a list do not change when no node on it changes its value. */
  lemma ValuesFrame<T>(nodes: seq<Node<T>>, nodes': seq<Node<T>>, ids: seq<nat>)
    requires InRange(ids, |nodes|) && |nodes| <= |nodes'|
    requires forall k :: 0 <= k < |ids| ==> nodes'[ids[k]].data == nodes[ids[k]].data
    ensures InRange(ids, |nodes'|) && Values(nodes', ids) == Values(nodes, ids)
  {
  }

  /** Linking an unlisted, unlinked node behind the last node of a list
      extends the list by that node. */
  lemma {:induction false} ChainAppend<T>(nodes: seq<Node<T>>, ids: seq<nat>, node: nat)
    requires InRange(ids, |nodes|) && Chain(nodes, ids) && Distinct(ids)
    requires node < |nodes| && node !in ids && nodes[node].next == Null
    ensures InRange(ids + [node], |nodes|)
    ensures Chain(nodes[ids[|ids| - 1] := nodes[ids[|ids| - 1]].(next := node)], ids + [node])
  {
    var last := ids[|ids| - 1];
    var nodes' := nodes[last := nodes[last].(next := node)];
    var ids' := ids + [node];
    forall k | 0 <= k < |ids'| - 1
      ensures nodes'[ids'[k]].next == ids'[k + 1]
    {
      if k < |ids| - 1 {
        assert ids[k] != last;
      }
    }
  }

  /** The node after the head of a list of two or more is the second one;
      a list of one node links to nothing. */
  lemma ChainSecond<T>(nodes: seq<Node<T>>, ids: seq<nat>)
    requires InRange(ids, |nodes|) && Chain(nodes, ids)
    ensures |ids| == 1 <==> nodes[ids[0]].next == Null
    ensures |ids| > 1 ==> nodes[ids[0]].next == ids[1]
    ensures |ids| > 1 ==> InRange(ids[1..], |nodes|) && Chain(nodes, ids[1..])
  {
    if |ids| > 1 {
      assert nodes[ids[0]].next == ids[1];
      forall k | 0 <= k < |ids[1..]| - 1
        ensures nodes[ids[1..][k]].next == ids[1..][k + 1]
      {
        assert ids[1..][k] == ids[k + 1];
      }
    }
  }

  /** Linking a detached node that holds input behind the head keeps both
      lists and the pointers intact, makes the node the head and appends input
      to the pending values. */
  lemma Enqueued<T>(nodes: seq<Node<T>>, active: seq<nat>, free: seq<nat>,
                    head: int, tail: int, freeListHead: int, freeListTail: int, node: nat, input: T)
    requires Shape(nodes, active, free, head, tail, freeListHead, freeListTail)
    requires node < |nodes| && node !in active && node !in free && nodes[node] == Node(input, Null)
    ensures Shape(nodes[head := nodes[head].(next := node)], active + [node], free, node, tail, freeListHead, freeListTail)
    ensures Values(nodes[head := nodes[head].(next := node)], active + [node])[1..]
         == Values(nodes, active)[1..] + [input]
  {
    var nodes' := nodes[head := nodes[head].(next := node)];
    ChainAppend(nodes, active, node);
    ChainFrame(nodes, nodes', free);
    assert Values(nodes', active + [node]) == Values(nodes, active) + [input];
  }

  /** Storing an unlinked node at an index in neither list, either a free
      slot of the arena or one just past its end, keeps both lists. */
  lemma Stored<T>(nodes: seq<Node<T>>, active: seq<nat>, free: seq<nat>,
                  head: int, tail: int, freeListHead: int, freeListTail: int, node: nat, n: Node<T>)
    requires Shape(nodes, active, free, head, tail, freeListHead, freeListTail)
    requires node <= |nodes| && (node < |nodes| ==> node !in active && node !in free)
    ensures node !in active && node !in free
    ensures Shape(if node == |nodes| then nodes + [n] else nodes[node := n],
                  active, free, head, tail, freeListHead, freeListTail)
    ensures Values(if node == |nodes| then nodes + [n] else nodes[node := n], active) == Values(nodes, active)
  {
    var nodes' := if node == |nodes| then nodes + [n] else nodes[node := n];
    if node == |nodes| {
      assert node !in active && node !in free by {
        assert forall k :: 0 <= k < |active| ==> active[k] < node;
        assert forall k :: 0 <= k < |free| ==> free[k] < node;
      }
    }
    ChainFrame(nodes, nodes', active);
    ChainFrame(nodes, nodes', free);
    ValuesFrame(nodes, nodes', active);
  }

  /** Clearing the link of a node in neither list and linking it behind the
      freelist's last node keeps both lists and makes it the freelist's last
      node. */
  lemma Released<T>(nodes: seq<Node<T>>, active: seq<nat>, free: seq<nat>,
                    head: int, tail: int, freeListHead: int, freeListTail: int, item: nat)
    requires Shape(nodes, active, free, head, tail, freeListHead, freeListTail)
    requires item < |nodes| && item !in active && item !in free
    ensures Shape(nodes[item := nodes[item].(next := Null)][freeListHead := nodes[freeListHead].(next := item)],
                  active, free + [item], head, tail, item, freeListTail)
  {
    var cleared := nodes[item := nodes[item].(next := Null)];
    ChainFrame(nodes, cleared, active);
    ChainFrame(nodes, cleared, free);
    ChainAppend(cleared, free, item);
    var linked := cleared[freeListHead := cleared[freeListHead].(next := item)];
    ChainFrame(cleared, linked, active);
    assert Distinct(free + [item]) by {
      forall i, j | 0 <= i < j < |free + [item]|
        ensures (free + [item])[i] != (free + [item])[j]
      {
        if j == |free| {
          assert (free + [item])[i] == free[i];
        }
      }
    }
    assert Disjoint(active, free + [item]) by {
      forall i, j | 0 <= i < |active| && 0 <= j < |free + [item]|
        ensures active[i] != (free + [item])[j]
      {
        if j < |free| {
          assert (free + [item])[j] == free[j];
        }
      }
    }
  }

  /** Advancing the consumer end past the sentinel of an active list of two or
      more nodes leaves well-formed lists, with the old sentinel in neither. */
  lemma Advanced<T>(nodes: seq<Node<T>>, active: seq<nat>, free: seq<nat>,
                    head: int, tail: int, freeListHead: int, freeListTail: int)
    requires Shape(nodes, active, free, head, tail, freeListHead, freeListTail) && |active| > 1
    ensures active[0] !in active[1..] && active[0] !in free
    ensures Shape(nodes, active[1..], free, head, active[1], freeListHead, freeListTail)
    ensures Values(nodes, active[1..]) == Values(nodes, active)[1..]
  {
    ChainSecond(nodes, active);
    assert Disjoint(active[1..], free) by {
      forall i, j | 0 <= i < |active[1..]| && 0 <= j < |free|
        ensures active[1..][i] != free[j]
      {
        assert active[1..][i] == active[i + 1];
      }
    }
    assert Distinct(active[1..]) by {
      forall i, j | 0 <= i < j < |active[1..]|
        ensures active[1..][i] != active[1..][j]
      {
        assert active[1..][i] == active[i + 1] && active[1..][j] == active[j + 1];
      }
    }
    assert active[0] !in active[1..] by {
      forall i | 0 <= i < |active[1..]|
        ensures active[1..][i] != active[0]
      {
        assert active[1..][i] == active[i + 1];
      }
    }
  }

  /** Taking the sentinel off a freelist of two or more nodes leaves
      well-formed lists, with the taken node in neither. */
  lemma Detached<T>(nodes: seq<Node<T>>, active: seq<nat>, free: seq<nat>,
                    head: int, tail: int, freeListHead: int, freeListTail: int)
    requires Shape(nodes, active, free, head, tail, freeListHead, freeListTail) && |free| > 1
    ensures free[0] !in free[1..] && free[0] !in active
    ensures Shape(nodes, active, free[1..], head, tail, freeListHead, free[1])
  {
    ChainSecond(nodes, free);
    assert Disjoint(active, free[1..]) by {
      forall i, j | 0 <= i < |active| && 0 <= j < |free[1..]|
        ensures active[i] != free[1..][j]
      {
        assert free[1..][j] == free[j + 1];
      }
    }
    assert Distinct(free[1..]) by {
      forall i, j | 0 <= i < j < |free[1..]|
        ensures free[1..][i] != free[1..][j]
      {
        assert free[1..][i] == free[i + 1] && free[1..][j] == free[j + 1];
      }
    }
    assert free[0] !in free[1..] by {
      forall i | 0 <= i < |free[1..]|
        ensures free[1..][i] != free[0]
      {
        assert free[1..][i] == free[i + 1];
      }
    }
    assert free[0] !in active by {
      forall i | 0 <= i < |active|
        ensures active[i] != free[0]
      {
      }
    }
  }

  class MPMCQueue<T> {
    /** The node arena: entry i is the i-th node ever allocated, so |nodes|
        counts the allocations. */
    var nodes: seq<Node<T>>
    /** _head: the newest node of the active list. */
    var head: int
    /** _tail: the consumed sentinel of the active list, or Null while a
        multi-consumer dequeue has claimed it. */
    var tail: int
    /** _freeListHead: the most recently released node. */
    var freeListHead: int
    /** _freeListTail: the sentinel of the freelist. */
    var freeListTail: int

    /** The active list, from the consumed sentinel to _head. */
    ghost var active: seq<nat>
    /** The freelist, from its sentinel to _freeListHead. */
    ghost var free: seq<nat>

    /** Both lists are well formed and share no node. A node in neither list
        is held by an operation in progress. */
    ghost predicate Linked()
      reads this
    {
      Shape(nodes, active, free, head, tail, freeListHead, freeListTail)
    }

    /** Between operations every allocated node is in exactly one of the lists. */
    ghost predicate Valid()
      reads this
    {
      Linked() && |active| + |free| == |nodes|
    }

    /** Every field of the queue, for stating that an operation changed nothing. */
    ghost function Snapshot(): (fields: (seq<Node<T>>, seq<nat>, seq<nat>, int, int, int, int))
      reads this
    {
      (nodes, active, free, head, tail, freeListHead, freeListTail)
    }

    /** The values waiting to be dequeued, oldest first: those of the active
        list after its sentinel. */
    ghost function Contents(): (vs: seq<T>)
      reads this
      requires Linked()
      ensures |vs| == |active| - 1
    {
      Values(nodes, active)[1..]
    }

    /** The nodes an enqueue can take from the freelist, in the order it takes
        them: all but the last one, which stays as the freelist's anchor. */
    ghost function Reusable(): (ids: seq<nat>)
      reads this
      requires Linked()
      ensures |ids| == |free| - 1
    {
      free[..|free| - 1]
    }

    /** MPMCQueue(): one sentinel for the active list, one for the freelist. */
    constructor (blank: T)
      ensures Valid() && tail != Null
      ensures Contents() == [] && Reusable() == [] && |nodes| == 2
    {
      nodes := [Node(blank, Null), Node(blank, Null)];
      head := 0;
      tail := 0;
      freeListHead := 1;
      freeListTail := 1;
      active := [0];
      free := [1];
    }

    /** freeListEnqueue: clear the released node's link, make it the freelist's
        newest node and link the previous newest node to it. Only links change. */
    method FreeListEnqueue(item: nat)
      requires Linked()
      requires item < |nodes| && item !in active && item !in free
      modifies this
      ensures Linked()
      ensures active == old(active) && free == old(free) + [item]
      ensures head == old(head) && tail == old(tail) && freeListTail == old(freeListTail)
      ensures nodes == old(nodes[item := nodes[item].(next := Null)][freeListHead := nodes[freeListHead].(next := item)])
      ensures |nodes| == old(|nodes|) && forall k :: 0 <= k < |nodes| ==> nodes[k].data == old(nodes[k].data)
    {
      Released(nodes, active, free, head, tail, freeListHead, freeListTail, item);
      nodes := nodes[item := nodes[item].(next := Null)];
      var prevHead := freeListHead;
      freeListHead := item;
      nodes := nodes[prevHead := nodes[prevHead].(next := item)];
      free := free + [item];
    }

    /** freeListTryDequeue: Null when the freelist sentinel has no successor;
        otherwise hand out the sentinel itself and let its successor take over. */
    method FreeListTryDequeue() returns (node: int)
      requires Linked()
      modifies this
      ensures Linked()
      ensures node == Null <==> old(|free|) == 1
      ensures node != Null ==> node == old(free[0]) && free == old(free[1..])
      ensures node != Null ==> node !in active && node !in free
      ensures node == Null ==> free == old(free)
      ensures nodes == old(nodes) && active == old(active)
      ensures head == old(head) && tail == old(tail) && freeListHead == old(freeListHead)
    {
      ChainSecond(nodes, free);
      if |free| > 1 {
        Detached(nodes, active, free, head, tail, freeListHead, freeListTail);
      }
      node := freeListTail;
      var next := nodes[node].next;
      if next != Null {
        // the compare-and-swap cannot lose in a sequential run
        freeListTail := next;
        free := free[1..];
      } else {
        node := Null;
      }
    }

    /** acquireOrAllocate: reuse the next freelist node, overwriting its value
        and clearing its link, or allocate a node only when none is reusable. */
    method AcquireOrAllocate(input: T) returns (node: nat)
      requires Valid()
      modifies this
      ensures Linked() && |active| + |free| + 1 == |nodes|
      ensures active == old(active) && head == old(head) && tail == old(tail)
      ensures node < |nodes| && node !in active && node !in free
      ensures nodes[node] == Node(input, Null)
      ensures old(|nodes|) <= |nodes|
      ensures forall k :: 0 <= k < old(|nodes|) && k != node ==> nodes[k] == old(nodes[k])
      ensures Values(nodes, active) == old(Values(nodes, active))
      ensures old(|free|) == 1 ==> node == old(|nodes|) && |nodes| == old(|nodes|) + 1 && free == old(free)
      ensures old(|free|) > 1 ==> node == old(free[0]) && |nodes| == old(|nodes|) && free == old(free[1..])
      ensures old(Reusable()) != [] ==> Reusable() == old(Reusable()[1..])
    {
      var reused := FreeListTryDequeue();
      ghost var spare := free[..|free| - 1];
      if reused == Null {
        node := |nodes|;
        Stored(nodes, active, free, head, tail, freeListHead, freeListTail, node, Node(input, Null));
        nodes := nodes + [Node(input, Null)];
      } else {
        node := reused;
        Stored(nodes, active, free, head, tail, freeListHead, freeListTail, node, Node(input, Null));
        nodes := nodes[node := Node(input, Null)];
      }
      assert old(|free|) > 1 ==> spare == old(free[..|free| - 1][1..]);
    }

    /** spEnqueue: link a node after _head, then make it _head. */
    method SpEnqueue(input: T)
      requires Valid()
      modifies this
      ensures Valid() && tail == old(tail)
      ensures active == old(active) + [head] && 0 <= old(head) < |nodes| && nodes[old(head)].next == head
      ensures Contents() == old(Contents()) + [input]
      ensures old(Reusable()) == [] ==> |nodes| == old(|nodes|) + 1 && Reusable() == []
      ensures old(Reusable()) != [] ==> |nodes| == old(|nodes|) && Reusable() == old(Reusable()[1..])
      ensures old(Reusable()) != [] ==> head == old(Reusable()[0])
      ensures old(Reusable()) == [] ==> head == old(|nodes|) && free == old(free)
    {
      var node := AcquireOrAllocate(input);
      Enqueued(nodes, active, free, head, tail, freeListHead, freeListTail, node, input);
      ghost var spare := Reusable();
      nodes := nodes[head := nodes[head].(next := node)];
      head := node;
      active := active + [node];
      assert Reusable() == spare;
    }

    /** mpEnqueue: exchange the node into _head, then link the previous head
        to it. Sequentially it has the same effect as SpEnqueue. */
    method MpEnqueue(input: T)
      requires Valid()
      modifies this
      ensures Valid() && tail == old(tail)
      ensures active == old(active) + [head] && 0 <= old(head) < |nodes| && nodes[old(head)].next == head
      ensures Contents() == old(Contents()) + [input]
      ensures old(Reusable()) == [] ==> |nodes| == old(|nodes|) + 1 && Reusable() == []
      ensures old(Reusable()) != [] ==> |nodes| == old(|nodes|) && Reusable() == old(Reusable()[1..])
      ensures old(Reusable()) != [] ==> head == old(Reusable()[0])
      ensures old(Reusable()) == [] ==> head == old(|nodes|) && free == old(free)
    {
      var node := AcquireOrAllocate(input);
      Enqueued(nodes, active, free, head, tail, freeListHead, freeListTail, node, input);
      ghost var spare := Reusable();
      var prevHead := head;
      head := node;
      nodes := nodes[prevHead := nodes[prevHead].(next := node)];
      active := active + [node];
      assert Reusable() == spare;
    }

    /** The dequeue step shared by scDequeue, mcDequeue and mcDequeueLight once
        the sentinel t is held: empty when t has no successor; otherwise take
        the successor's value, make the successor the sentinel and release t. */
    method TakeFrom(t: nat, output: T) returns (ok: bool, result: T)
      requires Valid() && t == active[0]
      modifies this
      ensures Valid() && |nodes| == old(|nodes|)
      ensures ok <==> old(Contents()) != []
      ensures !ok ==> result == output && Snapshot() == old(Snapshot())
      ensures ok ==> result == old(Contents()[0]) && Contents() == old(Contents()[1..])
      ensures ok ==> tail == old(nodes[t].next) == active[0] && free == old(free) + [t] && nodes[t].next == Null
      ensures ok ==> Reusable() == old(Reusable()) + [old(freeListHead)]
      ensures ok ==> head == old(head) && freeListTail == old(freeListTail)
    {
      ChainSecond(nodes, active);
      var next := nodes[t].next;
      if next == Null {
        return false, output;
      }
      result := Advance(t, next);
      ok := true;
    }

    /** The successful half of the dequeue step: the successor next of the
        sentinel t holds the front value; next becomes the sentinel and t
        goes to the freelist. */
    method Advance(t: nat, next: nat) returns (result: T)
      requires Valid() && t == active[0] && |active| > 1 && next == active[1]
      modifies this
      ensures Valid() && |nodes| == old(|nodes|)
      ensures result == old(Contents()[0]) && Contents() == old(Contents()[1..])
      ensures tail == next == active[0] && free == old(free) + [t] && nodes[t].next == Null
      ensures Reusable() == old(Reusable()) + [old(freeListHead)]
      ensures head == old(head) && freeListTail == old(freeListTail)
    {
      ghost var pending, spare := Contents(), Reusable();
      ghost var values := Values(nodes, active);
      Advanced(nodes, active, free, head, tail, freeListHead, freeListTail);
      result := nodes[next].data;
      tail := next;
      active := active[1..];
      ghost var before, released := nodes, free;
      assert t != freeListHead;
      FreeListEnqueue(t);
      ValuesFrame(before, nodes, active);
      assert Values(nodes, active) == values[1..];
      assert free[..|free| - 1] == released;
    }

    /** scDequeue: single-consumer dequeue. */
    method ScDequeue(output: T) returns (ok: bool, result: T)
      requires Valid() && tail != Null
      modifies this
      ensures Valid() && tail != Null && |nodes| == old(|nodes|)
      ensures ok <==> old(Contents()) != []
      ensures !ok ==> result == output && Snapshot() == old(Snapshot())
      ensures ok ==> result == old(Contents()[0]) && Contents() == old(Contents()[1..])
      ensures ok ==> tail == old(nodes[tail].next) && free == old(free) + [old(tail)] && nodes[old(tail)].next == Null
      ensures ok ==> Reusable() == old(Reusable()) + [old(freeListHead)]
      ensures ok ==> head == old(head) && freeListTail == old(freeListTail)
    {
      ok, result := TakeFrom(tail, output);
    }

    /** mcDequeue: claim _tail by exchanging it with Null, and restore it when
        the queue is empty. The yield-spin loop that waits for another
        consumer's claim is not entered in a sequential run: tail != Null. */
    method McDequeue(output: T) returns (ok: bool, result: T)
      requires Valid() && tail != Null
      modifies this
      ensures Valid() && tail != Null && |nodes| == old(|nodes|)
      ensures ok <==> old(Contents()) != []
      ensures !ok ==> result == output && Snapshot() == old(Snapshot())
      ensures ok ==> result == old(Contents()[0]) && Contents() == old(Contents()[1..])
      ensures ok ==> tail == old(nodes[tail].next) && free == old(free) + [old(tail)] && nodes[old(tail)].next == Null
      ensures ok ==> Reusable() == old(Reusable()) + [old(freeListHead)]
      ensures ok ==> head == old(head) && freeListTail == old(freeListTail)
    {
      var t := tail;
      tail := Null;
      ok, result := TakeFrom(t, output);
      if !ok {
        tail := t;
      }
    }

    /** mcDequeueLight: like mcDequeue, but give up at once, changing nothing,
        when another consumer has claimed _tail. */
    method McDequeueLight(output: T) returns (ok: bool, result: T)
      requires Valid()
      modifies this
      ensures Valid() && (tail == Null <==> old(tail) == Null) && |nodes| == old(|nodes|)
      ensures old(tail) == Null ==> !ok
      ensures old(tail) != Null ==> (ok <==> old(Contents()) != [])
      ensures !ok ==> result == output && Snapshot() == old(Snapshot())
      ensures ok ==> result == old(Contents()[0]) && Contents() == old(Contents()[1..])
      ensures ok ==> tail == old(nodes[tail].next) && free == old(free) + [old(tail)] && nodes[old(tail)].next == Null
      ensures ok ==> Reusable() == old(Reusable()) + [old(freeListHead)]
      ensures ok ==> head == old(head) && freeListTail == old(freeListTail)
    {
      var t := tail;
      tail := Null;
      if t == Null {
        return false, output;
      }
      ok, result := TakeFrom(t, output);
      if !ok {
        tail := t;
      }
    }

    /** The destructor's first step, `while(scDequeue(output));`: dequeue until
        empty, which leaves the sentinel as the only active node. */
    method DrainActive(output: T)
      requires Valid() && tail != Null
      modifies this
      ensures Valid() && tail != Null && |nodes| == old(|nodes|) && active == [head]
    {
      var slot := output;
      var more := true;
      while more
        invariant Valid() && tail != Null && |nodes| == old(|nodes|)
        invariant !more ==> |active| == 1
        decreases |active|, more
      {
        more, slot := ScDequeue(slot);
      }
    }

    /** ~MPMCQueue: drain the active list, release the remaining sentinel,
        release every node the freelist hands out, then release its last node.
        The result lists the released nodes in release order. */
    method Destroy(output: T) returns (released: seq<nat>)
      requires Valid() && tail != Null
      modifies this
      ensures IsPermutation(released, old(|nodes|))
    {
      DrainActive(output);
      PermutationOfParts(active, free, |nodes|);
      // the release order: the drained sentinel, then the freelist front to back
      ghost var order := active + free;
      ghost var n := |nodes|;
      released := [head];
      var front := FreeListTryDequeue();
      while front != Null
        invariant Linked() && |nodes| == n
        invariant front != Null ==> 0 <= front && released + [front] + free == order
        invariant front == Null ==> released + free == order && |free| == 1
        decreases |free| + (if front == Null then 0 else 1)
      {
        ghost var rest := free;
        released := released + [front];
        front := FreeListTryDequeue();
        if front != Null {
          assert rest == [front] + free;
        }
      }
      released := released + [freeListHead];
      assert released == order;
    }
  }

  /** One enqueue, through spEnqueue when single holds and through mpEnqueue
      otherwise, counted in nodes. */
  method Enqueue<T>(q: MPMCQueue<T>, v: T, single: bool)
    requires q.Valid() && q.tail != Null
    modifies q
    ensures q.Valid() && q.tail != Null
    ensures q.Contents() == old(q.Contents()) + [v]
    ensures old(|q.Reusable()|) == 0 ==> |q.nodes| == old(|q.nodes|) + 1 && |q.Reusable()| == 0
    ensures old(|q.Reusable()|) > 0 ==> |q.nodes| == old(|q.nodes|) && |q.Reusable()| == old(|q.Reusable()|) - 1
  {
    if single {
      q.SpEnqueue(v);
    } else {
      q.MpEnqueue(v);
    }
  }

  /** A producer enqueueing vs in order, through spEnqueue when single holds
      and through mpEnqueue otherwise: the values join the back in order, and
      nodes are allocated only once the reusable ones run out. */
  method Produce<T>(q: MPMCQueue<T>, vs: seq<T>, single: bool)
    requires q.Valid() && q.tail != Null
    modifies q
    ensures q.Valid() && q.tail != Null
    ensures q.Contents() == old(q.Contents()) + vs
    ensures |vs| <= old(|q.Reusable()|) ==>
      |q.nodes| == old(|q.nodes|) && |q.Reusable()| == old(|q.Reusable()|) - |vs|
    ensures |vs| > old(|q.Reusable()|) ==>
      |q.nodes| == old(|q.nodes|) + |vs| - old(|q.Reusable()|) && q.Reusable() == []
  {
    ghost var pending, reusable, allocations := q.Contents(), |q.Reusable()|, |q.nodes|;
    var i := 0;
    while i < |vs|
      invariant 0 <= i <= |vs|
      invariant q.Valid() && q.tail != Null
      invariant q.Contents() == pending + vs[..i]
      invariant |q.Reusable()| == if i <= reusable then reusable - i else 0
      invariant |q.nodes| == if i <= reusable then allocations else allocations + i - reusable
    {
      Enqueue(q, vs[i], single);
      assert vs[..i + 1] == vs[..i] + [vs[i]];
      i := i + 1;
    }
    assert vs[..i] == vs;
  }

  /** One dequeue from a non-empty queue, through scDequeue when single holds
      and through mcDequeue otherwise, counted in nodes. */
  method Dequeue<T>(q: MPMCQueue<T>, single: bool, blank: T) returns (v: T)
    requires q.Valid() && q.tail != Null && q.Contents() != []
    modifies q
    ensures q.Valid() && q.tail != Null
    ensures v == old(q.Contents()[0]) && q.Contents() == old(q.Contents()[1..])
    ensures |q.nodes| == old(|q.nodes|) && |q.Reusable()| == old(|q.Reusable()|) + 1
  {
    var ok;
    if single {
      ok, v := q.ScDequeue(blank);
    } else {
      ok, v := q.McDequeue(blank);
    }
  }

  /** A consumer dequeueing count values, through scDequeue when single holds
      and through mcDequeue otherwise: it gets the oldest count values in
      order, allocates nothing and returns each consumed sentinel for reuse. */
  method Consume<T>(q: MPMCQueue<T>, count: nat, single: bool, blank: T) returns (outs: seq<T>)
    requires q.Valid() && q.tail != Null && count <= |q.Contents()|
    modifies q
    ensures q.Valid() && q.tail != Null
    ensures outs == old(q.Contents())[..count] && q.Contents() == old(q.Contents())[count..]
    ensures |q.nodes| == old(|q.nodes|) && |q.Reusable()| == old(|q.Reusable()|) + count
  {
    ghost var pending, reusable, allocations := q.Contents(), |q.Reusable()|, |q.nodes|;
    outs := [];
    var i := 0;
    while i < count
      invariant 0 <= i <= count
      invariant q.Valid() && q.tail != Null
      invariant q.Contents() == pending[i..] && outs == pending[..i]
      invariant |q.nodes| == allocations && |q.Reusable()| == reusable + i
    {
      var v := Dequeue(q, single, blank);
      assert v == pending[i] && q.Contents() == pending[i + 1..];
      assert pending[..i + 1] == pending[..i] + [v];
      outs := outs + [v];
      i := i + 1;
    }
  }

  /** Two rounds on a fresh queue, each enqueueing all of vs and then
      dequeueing until empty: the values come out in the order they went in,
      the second round runs entirely on recycled nodes, a final light dequeue
      reports empty, and the destructor releases every allocated node exactly
      once. */
  method RoundTrip<T>(vs: seq<T>, blank: T)
    returns (outs: seq<T>, allocations: nat, lastOk: bool, released: seq<nat>)
    ensures outs == vs + vs
    ensures allocations == 2 + |vs|
    ensures !lastOk
    ensures IsPermutation(released, allocations)
  {
    var q := new MPMCQueue(blank);
    Produce(q, vs, true);
    assert q.Contents() == vs;
    outs := Consume(q, |vs|, true, blank);
    assert outs == vs && q.Contents() == [];
    Produce(q, vs, false);
    assert q.Contents() == vs;
    var again := Consume(q, |vs|, false, blank);
    assert again == vs;
    outs := outs + again;
    allocations := |q.nodes|;
    var v;
    lastOk, v := q.McDequeueLight(blank);
    released := q.Destroy(blank);
  }
}
