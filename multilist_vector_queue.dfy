/** Sequential model of bk_conq::multilist_vector_queue<T>: a fixed number of
    subqueues. A producer is routed to one subqueue, chosen on its first
    enqueue and kept afterwards; a consumer scans the subqueues in the order of
    its own "hit list" and moves the index of the subqueue that yielded a value
    to the front of that list. The per-thread state (the thread_local statics)
    is passed in explicitly as context objects, and each subqueue is an
    abstract FIFO: a sequence of values, oldest first. */
module BkConq {
  import opened Indices

  datatype Option<T> = None | Some(value: T)

  /** size_t is 64 bits wide: the shared enqueue counter wraps modulo 2^64. */
  const SizeMod: nat := 0x1_0000_0000_0000_0000

  /** hitlist_sequence: the natural scan order 0, 1, ..., n-1. */
  function HitlistSequence(n: nat): (h: seq<nat>)
    ensures IsPermutation(h, n)
    ensures forall i :: 0 <= i < n ==> h[i] == i
  {
    seq(n, i requires 0 <= i < n => i as nat)
  }

  /** The hit list after a hit at position p: the hit index moves to the
      front and the entries before it move back by one. */
  function RotatedToFront(h: seq<nat>, p: nat): (r: seq<nat>)
    requires p < |h|
  {
    [h[p]] + h[..p] + h[p + 1..]
  }

  /** What the rotation does at each position, and that it only reorders. */
  lemma RotatedToFrontShape(h: seq<nat>, p: nat)
    requires p < |h|
    ensures |RotatedToFront(h, p)| == |h|
    ensures RotatedToFront(h, p)[0] == h[p]
    ensures forall k :: 0 <= k < p ==> RotatedToFront(h, p)[k + 1] == h[k]
    ensures forall k :: p < k < |h| ==> RotatedToFront(h, p)[k] == h[k]
    ensures multiset(RotatedToFront(h, p)) == multiset(h)
  {
    assert h == h[..p] + [h[p]] + h[p + 1..];
  }

  /** A rotated permutation of 0..n-1 is still one. */
  lemma RotatedToFrontPermutation(h: seq<nat>, p: nat, n: nat)
    requires p < |h| && IsPermutation(h, n)
    ensures IsPermutation(RotatedToFront(h, p), n)
  {
    var r := RotatedToFront(h, p);
    RotatedToFrontShape(h, p);
    forall i, j | 0 <= i < j < |r|
      ensures r[i] != r[j]
    {
      var hi := if i == 0 then p else if i <= p then i - 1 else i;
      var hj := if j == 0 then p else if j <= p then j - 1 else j;
      assert r[i] == h[hi] && r[j] == h[hj] && hi != hj;
    }
    forall i | 0 <= i < |r|
      ensures r[i] < n
    {
      var hi := if i == 0 then p else if i <= p then i - 1 else i;
      assert r[i] == h[hi];
    }
  }

  /** The nested iter_swap loop after a hit at position p: swapping entry p
      with each earlier entry in turn rotates the prefix up to p. */
  method RotateToFront(h: array<nat>, p: nat)
    requires p < h.Length
    modifies h
    ensures h[..] == RotatedToFront(old(h[..]), p)
  {
    ghost var was := h[..];
    var j := 0;
    while j < p
      invariant 0 <= j <= p
      invariant forall k :: 0 <= k < j ==> h[k] == if k == 0 then was[p] else was[k - 1]
      invariant h[p] == if j == 0 then was[p] else was[j - 1]
      invariant forall k :: j <= k < p ==> h[k] == was[k]
      invariant forall k :: p < k < h.Length ==> h[k] == was[k]
    {
      h[p], h[j] := h[j], h[p];
      j := j + 1;
    }
    RotatedToFrontShape(was, p);
    forall k | 0 <= k < h.Length
      ensures h[k] == RotatedToFront(was, p)[k]
    {
      if 0 < k <= p {
        assert RotatedToFront(was, p)[(k - 1) + 1] == was[k - 1];
      }
    }
  }

  /** The first position of the hit list h, from position `from` on, whose
      subqueue in qs is non-empty. */
  function FirstHit<T>(qs: seq<seq<T>>, h: seq<nat>, from: nat): (r: Option<nat>)
    requires InRange(h, |qs|) && from <= |h|
    ensures r.Some? ==> from <= r.value < |h| && qs[h[r.value]] != []
    ensures r.Some? ==> forall j :: from <= j < r.value ==> qs[h[j]] == []
    ensures r.None? <==> forall j :: from <= j < |h| ==> qs[h[j]] == []
    decreases |h| - from
  {
    if from == |h| then None
    else if qs[h[from]] != [] then Some(from)
    else FirstHit(qs, h, from + 1)
  }

  /** A scan along a hit list that orders all the subqueues misses only when
      every subqueue is empty. */
  lemma NoHitIffAllEmpty<T>(qs: seq<seq<T>>, h: seq<nat>)
    requires IsPermutation(h, |qs|)
    ensures FirstHit(qs, h, 0).None? <==> forall q :: 0 <= q < |qs| ==> qs[q] == []
  {
    if FirstHit(qs, h, 0).None? {
      forall q | 0 <= q < |qs|
        ensures qs[q] == []
      {
        PermutationCovers(h, |qs|, q);
        var j :| 0 <= j < |h| && h[j] == q;
      }
    }
  }

  /** The outcome of a successful scan of qs along h: the first non-empty
      subqueue on h lost its front value v, and its index moved to the front. */
  ghost predicate ScanHit<T>(qs: seq<seq<T>>, h: seq<nat>, qs': seq<seq<T>>, h': seq<nat>, v: T)
    requires InRange(h, |qs|)
  {
    match FirstHit(qs, h, 0)
    case None => false
    case Some(p) =>
      var q := h[p];
      v == qs[q][0] && qs' == qs[q := qs[q][1..]] && h' == RotatedToFront(h, p)
  }

  /** A consumer's hit list (the thread_local static of sc_dequeue or of
      mc_dequeue; the two are separate). */
  class ConsumerContext {
    var hitlist: array<nat>

    /** The first call's hitlist_sequence(). */
    constructor (n: nat)
      ensures fresh(hitlist) && hitlist[..] == HitlistSequence(n)
    {
      hitlist := new nat[n](i => i);
    }
  }

  /** A producer's cached subqueue index (the thread_local static of an
      enqueue forwarder), None until its first enqueue. */
  class ProducerContext {
    var index: Option<nat>

    constructor ()
      ensures index == None
    {
      index := None;
    }
  }

  class MultilistVectorQueue<T> {
    /** The subqueue count, fixed at construction. */
    const count: nat
    /** _q: the subqueues. */
    var subqueues: seq<seq<T>>
    /** _enqueue_indx: the counter that hands out producer indices. */
    var enqueueIndex: nat

    ghost predicate Valid()
      reads this
    {
      |subqueues| == count && enqueueIndex < SizeMod
    }

    /** A consumer context sized for this queue whose hit list orders all of
        its subqueues. */
    ghost predicate Fits(ctx: ConsumerContext)
      reads this, ctx, ctx.hitlist
    {
      ctx.hitlist.Length == count && IsPermutation(ctx.hitlist[..], count)
    }

    /** multilist_vector_queue(subqueues): n empty subqueues. */
    constructor (n: nat)
      ensures Valid() && count == n && enqueueIndex == 0
      ensures forall q :: 0 <= q < n ==> subqueues[q] == []
    {
      count := n;
      subqueues := seq(n, q => []);
      enqueueIndex := 0;
    }

    /** The subqueue's mp_enqueue: input joins subqueue index at the back. */
    method SubqueueEnqueue(index: nat, input: T)
      requires Valid() && index < count
      modifies this`subqueues
      ensures Valid()
      ensures subqueues == old(subqueues[index := subqueues[index] + [input]])
    {
      subqueues := subqueues[index := subqueues[index] + [input]];
    }

    /** The subqueue's dequeue. Its sc_dequeue, mc_dequeue_light and
        mc_dequeue agree in a sequential run: false when it is empty,
        otherwise its front value, removed. */
    method SubqueueDequeue(index: nat, output: T) returns (ok: bool, result: T)
      requires Valid() && index < count
      modifies this`subqueues
      ensures Valid()
      ensures ok <==> old(subqueues[index]) != []
      ensures !ok ==> result == output && subqueues == old(subqueues)
      ensures ok ==> result == old(subqueues[index][0])
      ensures ok ==> subqueues == old(subqueues[index := subqueues[index][1..]])
    {
      if subqueues[index] == [] {
        return false, output;
      }
      result := subqueues[index][0];
      subqueues := subqueues[index := subqueues[index][1..]];
      ok := true;
    }

    /** The cached index of an affinitized producer: on its first enqueue,
        fetch_add(1) on the shared counter, reduced modulo the subqueue count;
        afterwards the cached value. */
    method AssignedIndex(ctx: ProducerContext) returns (index: nat)
      requires Valid() && count > 0
      requires ctx.index.Some? ==> ctx.index.value < count
      modifies this`enqueueIndex, ctx
      ensures Valid() && index < count && ctx.index == Some(index)
      ensures old(ctx.index).Some? ==> index == old(ctx.index.value) && enqueueIndex == old(enqueueIndex)
      ensures old(ctx.index).None? ==> index == old(enqueueIndex) % count
      ensures old(ctx.index).None? ==> enqueueIndex == (old(enqueueIndex) + 1) % SizeMod
    {
      if ctx.index.None? {
        ctx.index := Some(enqueueIndex % count);
        enqueueIndex := (enqueueIndex + 1) % SizeMod;
      }
      index := ctx.index.value;
    }

    /** sp_enqueue(input) through sp_enqueue_forward: the producer's own
        subqueue, through that subqueue's multi-producer enqueue. */
    method SpEnqueue(ctx: ProducerContext, input: T)
      requires Valid() && count > 0
      requires ctx.index.Some? ==> ctx.index.value < count
      modifies this, ctx
      ensures Valid() && ctx.index.Some? && ctx.index.value < count
      ensures old(ctx.index).Some? ==> ctx.index == old(ctx.index) && enqueueIndex == old(enqueueIndex)
      ensures old(ctx.index).None? ==> ctx.index == Some(old(enqueueIndex) % count)
      ensures old(ctx.index).None? ==> enqueueIndex == (old(enqueueIndex) + 1) % SizeMod
      ensures subqueues == old(subqueues)[ctx.index.value := old(subqueues)[ctx.index.value] + [input]]
    {
      var index := AssignedIndex(ctx);
      SubqueueEnqueue(index, input);
    }

    /** mp_enqueue(input) through mp_enqueue_forward: the same as SpEnqueue,
        with a cached index of its own. */
    method MpEnqueue(ctx: ProducerContext, input: T)
      requires Valid() && count > 0
      requires ctx.index.Some? ==> ctx.index.value < count
      modifies this, ctx
      ensures Valid() && ctx.index.Some? && ctx.index.value < count
      ensures old(ctx.index).Some? ==> ctx.index == old(ctx.index) && enqueueIndex == old(enqueueIndex)
      ensures old(ctx.index).None? ==> ctx.index == Some(old(enqueueIndex) % count)
      ensures old(ctx.index).None? ==> enqueueIndex == (old(enqueueIndex) + 1) % SizeMod
      ensures subqueues == old(subqueues)[ctx.index.value := old(subqueues)[ctx.index.value] + [input]]
    {
      var index := AssignedIndex(ctx);
      SubqueueEnqueue(index, input);
    }

    /** sp_enqueue(input, index) through sp_enqueue_forward: subqueue index
        only, through its multi-producer enqueue. The index is not checked. */
    method SpEnqueueAt(input: T, index: nat)
      requires Valid() && index < count
      modifies this
      ensures Valid() && enqueueIndex == old(enqueueIndex)
      ensures subqueues == old(subqueues[index := subqueues[index] + [input]])
    {
      SubqueueEnqueue(index, input);
    }

    /** mp_enqueue(input, index) through mp_enqueue_forward. */
    method MpEnqueueAt(input: T, index: nat)
      requires Valid() && index < count
      modifies this
      ensures Valid() && enqueueIndex == old(enqueueIndex)
      ensures subqueues == old(subqueues[index := subqueues[index] + [input]])
    {
      SubqueueEnqueue(index, input);
    }

    /** sc_dequeue(output, index): subqueue index only. */
    method ScDequeueAt(output: T, index: nat) returns (ok: bool, result: T)
      requires Valid() && index < count
      modifies this
      ensures Valid() && enqueueIndex == old(enqueueIndex)
      ensures ok <==> old(subqueues[index]) != []
      ensures !ok ==> result == output && subqueues == old(subqueues)
      ensures ok ==> result == old(subqueues[index][0])
      ensures ok ==> subqueues == old(subqueues[index := subqueues[index][1..]])
    {
      ok, result := SubqueueDequeue(index, output);
    }

    /** mc_dequeue(output, index): subqueue index only, through its blocking
        multi-consumer dequeue. */
    method McDequeueAt(output: T, index: nat) returns (ok: bool, result: T)
      requires Valid() && index < count
      modifies this
      ensures Valid() && enqueueIndex == old(enqueueIndex)
      ensures ok <==> old(subqueues[index]) != []
      ensures !ok ==> result == output && subqueues == old(subqueues)
      ensures ok ==> result == old(subqueues[index][0])
      ensures ok ==> subqueues == old(subqueues[index := subqueues[index][1..]])
    {
      ok, result := SubqueueDequeue(index, output);
    }

    /** sc_dequeue(output): try the subqueues in hit-list order; on the first
        success rotate the hit index to the front. */
    method ScDequeue(ctx: ConsumerContext, output: T) returns (ok: bool, result: T)
      requires Valid() && Fits(ctx)
      modifies this`subqueues, ctx.hitlist
      ensures Valid() && Fits(ctx)
      ensures ok <==> FirstHit(old(subqueues), old(ctx.hitlist[..]), 0).Some?
      ensures !ok <==> forall q :: 0 <= q < count ==> old(subqueues[q]) == []
      ensures !ok ==> result == output && subqueues == old(subqueues) && ctx.hitlist[..] == old(ctx.hitlist[..])
      ensures ok ==> ScanHit(old(subqueues), old(ctx.hitlist[..]), subqueues, ctx.hitlist[..], result)
    {
      NoHitIffAllEmpty(subqueues, ctx.hitlist[..]);
      var p := 0;
      while p < ctx.hitlist.Length
        invariant 0 <= p <= ctx.hitlist.Length
        invariant Valid() && Fits(ctx)
        invariant subqueues == old(subqueues) && ctx.hitlist[..] == old(ctx.hitlist[..])
        invariant FirstHit(subqueues, ctx.hitlist[..], 0) == FirstHit(subqueues, ctx.hitlist[..], p)
      {
        ok, result := SubqueueDequeue(ctx.hitlist[p], output);
        if ok {
          Hit(ctx, p);
          return;
        }
        p := p + 1;
      }
      return false, output;
    }

    /** mc_dequeue(output): a full pass of light dequeues along the hit list,
        then a full pass of blocking ones; the first success rotates the hit
        index to the front. */
    method McDequeue(ctx: ConsumerContext, output: T) returns (ok: bool, result: T)
      requires Valid() && Fits(ctx)
      modifies this`subqueues, ctx.hitlist
      ensures Valid() && Fits(ctx)
      ensures ok <==> FirstHit(old(subqueues), old(ctx.hitlist[..]), 0).Some?
      ensures !ok <==> forall q :: 0 <= q < count ==> old(subqueues[q]) == []
      ensures !ok ==> result == output && subqueues == old(subqueues) && ctx.hitlist[..] == old(ctx.hitlist[..])
      ensures ok ==> ScanHit(old(subqueues), old(ctx.hitlist[..]), subqueues, ctx.hitlist[..], result)
    {
      NoHitIffAllEmpty(subqueues, ctx.hitlist[..]);
      var p := 0;
      while p < ctx.hitlist.Length
        invariant 0 <= p <= ctx.hitlist.Length
        invariant Valid() && Fits(ctx)
        invariant subqueues == old(subqueues) && ctx.hitlist[..] == old(ctx.hitlist[..])
        invariant FirstHit(subqueues, ctx.hitlist[..], 0) == FirstHit(subqueues, ctx.hitlist[..], p)
      {
        ok, result := SubqueueDequeue(ctx.hitlist[p], output);
        if ok {
          Hit(ctx, p);
          return;
        }
        p := p + 1;
      }
      p := 0;
      while p < ctx.hitlist.Length
        invariant 0 <= p <= ctx.hitlist.Length
        invariant Valid() && Fits(ctx)
        invariant subqueues == old(subqueues) && ctx.hitlist[..] == old(ctx.hitlist[..])
        invariant FirstHit(subqueues, ctx.hitlist[..], 0).None?
      {
        ok, result := SubqueueDequeue(ctx.hitlist[p], output);
        if ok {
          // The light pass found every subqueue empty and nothing was
          // enqueued since, so in a sequential run the blocking pass never hits.
          assert false;
        }
        p := p + 1;
      }
      return false, output;
    }

    /** The hit at position p: rotate the hit list, which stays a permutation. */
    method Hit(ctx: ConsumerContext, p: nat)
      requires Fits(ctx) && p < ctx.hitlist.Length
      modifies ctx.hitlist
      ensures Fits(ctx)
      ensures ctx.hitlist[..] == RotatedToFront(old(ctx.hitlist[..]), p)
    {
      RotatedToFrontPermutation(ctx.hitlist[..], p, count);
      RotateToFront(ctx.hitlist, p);
    }
  }

  /** A producer enqueueing vs in order at subqueue index: they join that
      subqueue at the back, in order, and nothing else changes. */
  method EnqueueAllAt<T>(q: MultilistVectorQueue<T>, vs: seq<T>, index: nat)
    requires q.Valid() && index < q.count
    modifies q
    ensures q.Valid() && q.enqueueIndex == old(q.enqueueIndex)
    ensures q.subqueues == old(q.subqueues)[index := old(q.subqueues)[index] + vs]
  {
    ghost var start := q.subqueues;
    assert start[index] + vs[..0] == start[index];
    assert start[index := start[index]] == start;
    var i := 0;
    while i < |vs|
      invariant 0 <= i <= |vs|
      invariant q.Valid() && q.enqueueIndex == old(q.enqueueIndex)
      invariant q.subqueues == start[index := start[index] + vs[..i]]
    {
      q.MpEnqueueAt(vs[i], index);
      assert start[index] + vs[..i + 1] == start[index] + vs[..i] + [vs[i]];
      i := i + 1;
    }
    assert vs[..i] == vs;
  }

  /** Four subqueues, values enqueued only at index 2: the first scan, along
      the natural order, hits at position 2 and moves 2 to the front; the
      second scan then hits at the first subqueue it checks, so the order
      stays [2, 0, 1, 3]. Values come out in the order they went in. */
  method HitListAdapts<T>(vs: seq<T>, blank: T) returns (outs: seq<T>, order: seq<nat>)
    requires |vs| >= 2
    ensures outs == vs[..2]
    ensures order == [2, 0, 1, 3]
  {
    var q := new MultilistVectorQueue<T>(4);
    assert q.subqueues == [[], [], [], []];
    EnqueueAllAt(q, vs, 2);
    assert [] + vs == vs;
    assert q.subqueues == [[], [], vs, []];
    var ctx := new ConsumerContext(4);
    ghost var h := ctx.hitlist[..];
    assert h == [0, 1, 2, 3];
    assert q.subqueues[h[2]] == vs != [] by { assert h[2] == 2; }
    assert FirstHit(q.subqueues, h, 1) == Some(2) by { assert h[1] == 1; }
    assert FirstHit(q.subqueues, h, 0) == Some(2) by { assert h[0] == 0; }
    var ok1, v1 := q.ScDequeue(ctx, blank);
    assert ctx.hitlist[..] == [2, 0, 1, 3];
    assert FirstHit(q.subqueues, ctx.hitlist[..], 0) == Some(0);
    var ok2, v2 := q.ScDequeue(ctx, blank);
    outs := [v1, v2];
    order := ctx.hitlist[..];
  }

  /** Two subqueues and two affinitized producers: the first producer's first
      enqueue draws index 0 from the counter, the second producer's draws 1,
      and the first producer's next enqueue reuses its index 0. */
  method AffinityRouting<T>(x: T, y: T, z: T) returns (qs: seq<seq<T>>, counter: nat)
    ensures qs == [[x, z], [y]]
    ensures counter == 2
  {
    var q := new MultilistVectorQueue<T>(2);
    var a := new ProducerContext();
    var b := new ProducerContext();
    assert q.subqueues == [[], []];
    q.MpEnqueue(a, x);
    assert a.index == Some(0);
    assert q.subqueues[0] == [x];
    assert q.subqueues == [[x], []];
    q.SpEnqueue(b, y);
    assert b.index == Some(1);
    assert q.subqueues[1] == [y];
    assert q.subqueues == [[x], [y]];
    q.MpEnqueue(a, z);
    assert q.subqueues[0] == [x, z];
    qs := q.subqueues;
    counter := q.enqueueIndex;
  }
}
