# Sequential model of two unbounded queues

This project models the single-threaded behaviour of two queues from a small
C++ concurrency library, and proves it against specifications.

- `CONQ::MPMCQueue<T>` (`mpmc_queue.dfy`, module `Conq`) is an unbounded
  FIFO queue. It is a singly linked list whose consumer end is a consumed
  sentinel node (`_tail`) and whose producer end is the newest node (`_head`).
  Dequeued nodes are not freed. They are recycled through a second list, the
  freelist. The freelist is anchored the same way: its sentinel is
  `_freeListTail` and its newest node is `_freeListHead`.
  - The nodes live in an arena `nodes: seq<Node<T>>`. A pointer is an index
    into the arena, or `Null` (-1). The size of the arena is the number of
    nodes ever allocated.
  - The class keeps the four pointers as fields. Two ghost fields list the
    active list (sentinel first) and the freelist (sentinel first).
  - `Contents()` is the sequence of pending values, oldest first.
    `Reusable()` is the sequence of freelist nodes an enqueue can take, in the
    order it takes them.
  - `Valid()` says that both lists are well formed and that every allocated
    node lies in exactly one of them.
  - A consumer that has claimed `_tail` (mcDequeue and mcDequeueLight swap
    in null) is the state `tail == Null`.
- `bk_conq::multilist_vector_queue<T>` (`multilist_vector_queue.dfy`, module
  `BkConq`) is a fixed number of subqueues.
  - A producer is routed to one subqueue, chosen by a shared counter on its
    first enqueue and cached afterwards.
  - A consumer scans the subqueues in the order of its own hit list. It moves
    the index that yielded a value to the front of that list, with a nested
    `iter_swap` loop on the array in place.
  - The per-thread `thread_local static` state becomes explicit context
    objects: `ConsumerContext` holds a hit list and `ProducerContext` holds a
    cached index.
  - Each subqueue (`list_queue<T>`) is an abstract FIFO, a `seq<T>` oldest
    first.
- `indices.dfy` (module `Indices`) holds the facts about index sequences that
  both queues use:
  - sequences with no repeats;
  - bounds;
  - "each of 0..n-1 exactly once";
  - a pigeonhole lemma.

## Model

| member | source | states |
|---|---|---|
| Indices.PermutationCovers | ConcurrentQueues/inc/bk_conq/multilist_vector_queue.hpp:101-105 | A sequence that lists each of 0..n-1 at most once and is n long contains every index below n, so a hit list reaches every subqueue. |
| Indices.PermutationOfParts | MPMCQueue/inc/CONQ/MPMCQueue.hpp:27-35 | Two repeat-free, disjoint index lists that together hold n indices below n form a permutation of the whole arena. |
| Conq.ChainFrame | MPMCQueue/inc/CONQ/MPMCQueue.hpp:92-95 | A linked list stays a list after any change that leaves the links of its own nodes alone. |
| Conq.ValuesFrame | MPMCQueue/inc/CONQ/MPMCQueue.hpp:92-95 | A list's values stay the same after any change that leaves the data of its own nodes alone. |
| Conq.ChainAppend | MPMCQueue/inc/CONQ/MPMCQueue.hpp:37-47 | Linking an unlisted node with a cleared link behind the last node of a list extends the list by exactly that node. |
| Conq.ChainSecond | MPMCQueue/inc/CONQ/MPMCQueue.hpp:49-52 | A sentinel's link is null exactly when its list has one node. Otherwise the link is the second node, and the list minus the sentinel is still a list. |
| Conq.Enqueued | MPMCQueue/inc/CONQ/MPMCQueue.hpp:37-47 | Linking a detached node behind the head keeps both lists disjoint and well formed, makes it the head, and appends its value to the pending values. |
| Conq.Stored | MPMCQueue/inc/CONQ/MPMCQueue.hpp:111-121 | Writing a node at a fresh arena slot, or at a slot in neither list, keeps both lists well formed and the pending values unchanged. |
| Conq.Released | MPMCQueue/inc/CONQ/MPMCQueue.hpp:97-101 | Clearing a released node's link and linking it behind the freelist's newest node keeps both lists well formed, and makes it the newest freelist node. |
| Conq.Advanced | MPMCQueue/inc/CONQ/MPMCQueue.hpp:53-55 | Moving the sentinel one node along an active list of two or more nodes takes the old sentinel out of both lists, and drops the first pending value. |
| Conq.Detached | MPMCQueue/inc/CONQ/MPMCQueue.hpp:103-108 | Taking the freelist sentinel off a freelist of two or more nodes leaves both lists well formed, with the taken node in neither. |
| Conq.MPMCQueue.constructor | MPMCQueue/inc/CONQ/MPMCQueue.hpp:23-25 | A new queue has two nodes: one active sentinel, with `_tail == _head`, and one freelist sentinel. It holds no values and no reusable nodes. |
| Conq.MPMCQueue.FreeListEnqueue | MPMCQueue/inc/CONQ/MPMCQueue.hpp:97-101 | The released node's link is cleared and it becomes the freelist's newest node, linked from the previous newest node. No other link and no data changes. |
| Conq.MPMCQueue.FreeListTryDequeue | MPMCQueue/inc/CONQ/MPMCQueue.hpp:103-109 | Returns Null exactly when the freelist sentinel has no successor, and then changes nothing. Otherwise it returns the old sentinel, which is now in neither list, and its successor becomes the sentinel. |
| Conq.MPMCQueue.AcquireOrAllocate | MPMCQueue/inc/CONQ/MPMCQueue.hpp:111-121 | Allocates a node (the arena grows by one) only when the freelist has nothing reusable. Otherwise it reuses the freelist's first node, overwriting its data and clearing its link. Every other node and the pending values are unchanged. |
| Conq.MPMCQueue.SpEnqueue | MPMCQueue/inc/CONQ/MPMCQueue.hpp:37-41 | The new node is linked after the old head and becomes the head, and the input joins the back of the pending values. When nothing was reusable the new head is a freshly allocated node at the end of the arena and the freelist is unchanged; otherwise the new head is the first reusable node, which leaves the reusable nodes, and the arena keeps its size. |
| Conq.MPMCQueue.MpEnqueue | MPMCQueue/inc/CONQ/MPMCQueue.hpp:43-47 | The same contract as SpEnqueue, including which node becomes the head: sequentially, exchanging the head and then linking the previous head has the same effect. |
| Conq.MPMCQueue.TakeFrom | MPMCQueue/inc/CONQ/MPMCQueue.hpp:49-57 | With the sentinel held, the dequeue step fails exactly when nothing is pending, and then changes nothing. Otherwise it returns the oldest value, its node becomes the sentinel, and the old sentinel joins the freelist with its link cleared. |
| Conq.MPMCQueue.Advance | MPMCQueue/inc/CONQ/MPMCQueue.hpp:53-56 | The successful dequeue step: returns the oldest pending value and removes it, moves `_tail` to the next node, and appends the old sentinel to the freelist as its newest node; the previous newest freelist node becomes reusable. `_head` and `_freeListTail` are unchanged. |
| Conq.MPMCQueue.ScDequeue | MPMCQueue/inc/CONQ/MPMCQueue.hpp:49-57 | Succeeds exactly when a value is pending. On failure the output and every field are unchanged. On success it returns the oldest value and the rest stay pending in order; the old sentinel is recycled, nothing is allocated, and `_head` and `_freeListTail` are unchanged. |
| Conq.MPMCQueue.McDequeue | MPMCQueue/inc/CONQ/MPMCQueue.hpp:59-74 | The same outcome as ScDequeue, through claiming `_tail` (setting it to Null) and restoring it when the queue is empty. |
| Conq.MPMCQueue.McDequeueLight | MPMCQueue/inc/CONQ/MPMCQueue.hpp:76-89 | When `_tail` is already claimed it returns false and changes nothing. Otherwise it behaves like McDequeue, and the claimed state is the same before and after. |
| Conq.MPMCQueue.DrainActive | MPMCQueue/inc/CONQ/MPMCQueue.hpp:28-29 | The destructor's scDequeue loop ends with the active list reduced to its sentinel, the head, and allocates nothing. |
| Conq.MPMCQueue.Destroy | MPMCQueue/inc/CONQ/MPMCQueue.hpp:27-35 | The destructor releases every node ever allocated exactly once: the released indices are a permutation of the arena. |
| Conq.Enqueue | MPMCQueue/inc/CONQ/MPMCQueue.hpp:37-47 | One enqueue, through either producer entry point: the value joins the back; one node is allocated when nothing is reusable, otherwise one reusable node is used. |
| Conq.Produce | MPMCQueue/inc/CONQ/MPMCQueue.hpp:37-47 | A client loop calling spEnqueue or mpEnqueue once per value: the values join the back in order, and new nodes are allocated only for the values beyond the reusable nodes. |
| Conq.Dequeue | MPMCQueue/inc/CONQ/MPMCQueue.hpp:49-74 | A client call of scDequeue or mcDequeue on a non-empty queue: returns the oldest value, allocates nothing, and makes one more node reusable. |
| Conq.Consume | MPMCQueue/inc/CONQ/MPMCQueue.hpp:49-74 | A client loop calling scDequeue or mcDequeue count times: it returns exactly the count oldest pending values in order, allocates nothing, and makes count more nodes reusable. |
| Conq.RoundTrip | MPMCQueue/inc/CONQ/MPMCQueue.hpp:4-9 | On a fresh queue, two rounds of enqueue-all and dequeue-all return the values in the order they went in. The second round runs on recycled nodes only, so there are 2 + n allocations. A light dequeue on the empty queue fails, and the destructor releases all allocations exactly once. |
| BkConq.HitlistSequence | ConcurrentQueues/inc/bk_conq/multilist_vector_queue.hpp:101-105 | The initial hit list is 0, 1, ..., N-1, a permutation of the subqueue indices. |
| BkConq.RotatedToFrontShape | ConcurrentQueues/inc/bk_conq/multilist_vector_queue.hpp:66-69 | After a hit at position p the hit index is at the front, the entries before p move back by one in their order, the entries after p are untouched, and the multiset of entries is the same. |
| BkConq.RotatedToFrontPermutation | ConcurrentQueues/inc/bk_conq/multilist_vector_queue.hpp:66-69 | A hit list that is a permutation of 0..N-1 is still one after the rotation. |
| BkConq.RotateToFront | ConcurrentQueues/inc/bk_conq/multilist_vector_queue.hpp:66-69 | The nested `iter_swap` loop, run in place on the array, leaves exactly the rotated hit list. |
| BkConq.FirstHit | ConcurrentQueues/inc/bk_conq/multilist_vector_queue.hpp:64-73 | The scan's hit position is the first position whose subqueue is non-empty, with every earlier one empty. There is no hit exactly when every subqueue on the list from that position is empty. |
| BkConq.NoHitIffAllEmpty | ConcurrentQueues/inc/bk_conq/multilist_vector_queue.hpp:64-73 | A scan along a hit list that orders all the subqueues misses exactly when every subqueue is empty. |
| BkConq.ConsumerContext.constructor | ConcurrentQueues/inc/bk_conq/multilist_vector_queue.hpp:65-65 | A consumer's hit list starts as `hitlist_sequence()`. |
| BkConq.ProducerContext.constructor | ConcurrentQueues/inc/bk_conq/multilist_vector_queue.hpp:109-109 | A producer starts with no index assigned. |
| BkConq.MultilistVectorQueue.constructor | ConcurrentQueues/inc/bk_conq/multilist_vector_queue.hpp:28-28 | N empty subqueues and the enqueue counter at 0. |
| BkConq.MultilistVectorQueue.SubqueueEnqueue | ConcurrentQueues/inc/bk_conq/multilist_vector_queue.hpp:107-127 | The subqueue's mp_enqueue: the value joins that subqueue at the back and no other subqueue changes. |
| BkConq.MultilistVectorQueue.SubqueueDequeue | ConcurrentQueues/inc/bk_conq/multilist_vector_queue.hpp:75-77 | The subqueue's dequeue fails exactly when it is empty, and then changes nothing. Otherwise it returns and removes its front value. |
| BkConq.MultilistVectorQueue.AssignedIndex | ConcurrentQueues/inc/bk_conq/multilist_vector_queue.hpp:107-111 | The first call draws counter % N and bumps the counter by one, wrapping at 2^64. Later calls return the cached index and leave the counter alone. The index is always below N. |
| BkConq.MultilistVectorQueue.SpEnqueue | ConcurrentQueues/inc/bk_conq/multilist_vector_queue.hpp:107-111 | Affinitized enqueue: the value joins the producer's own subqueue, fixed at the first call. No other subqueue changes. |
| BkConq.MultilistVectorQueue.MpEnqueue | ConcurrentQueues/inc/bk_conq/multilist_vector_queue.hpp:118-122 | The same as SpEnqueue, through the subqueue's multi-producer enqueue. |
| BkConq.MultilistVectorQueue.SpEnqueueAt | ConcurrentQueues/inc/bk_conq/multilist_vector_queue.hpp:113-116 | Explicit-index enqueue: only subqueue `index` changes, gaining the value at the back, and the counter is untouched. |
| BkConq.MultilistVectorQueue.MpEnqueueAt | ConcurrentQueues/inc/bk_conq/multilist_vector_queue.hpp:124-127 | The same as SpEnqueueAt. |
| BkConq.MultilistVectorQueue.ScDequeueAt | ConcurrentQueues/inc/bk_conq/multilist_vector_queue.hpp:75-77 | Explicit-index dequeue: only subqueue `index` is consulted and changed. It fails exactly when that subqueue is empty. |
| BkConq.MultilistVectorQueue.McDequeueAt | ConcurrentQueues/inc/bk_conq/multilist_vector_queue.hpp:96-98 | The same as ScDequeueAt. |
| BkConq.MultilistVectorQueue.ScDequeue | ConcurrentQueues/inc/bk_conq/multilist_vector_queue.hpp:64-73 | Fails exactly when every subqueue is empty, and then leaves the subqueues and hit list unchanged. On success only the first non-empty subqueue on the hit list loses its front value, which is returned, and its index moves to the front. The hit list stays a permutation. |
| BkConq.MultilistVectorQueue.McDequeue | ConcurrentQueues/inc/bk_conq/multilist_vector_queue.hpp:79-94 | The same outcome as ScDequeue. The light pass decides it; the blocking pass after a failed light pass cannot hit in a sequential run. |
| BkConq.MultilistVectorQueue.Hit | ConcurrentQueues/inc/bk_conq/multilist_vector_queue.hpp:66-69 | The hit at position p rotates the hit list to the front in place, and it remains a permutation of the subqueue indices. |
| BkConq.EnqueueAllAt | ConcurrentQueues/inc/bk_conq/multilist_vector_queue.hpp:56-62 | Enqueueing a sequence at one index appends it, in order, to that subqueue only. |
| BkConq.HitListAdapts | ConcurrentQueues/inc/bk_conq/multilist_vector_queue.hpp:64-73 | With values only in subqueue 2 of 4, the first scan hits at position 2 and the hit list becomes [2, 0, 1, 3]. The second scan hits at the front and keeps that order. Values come out in the order they went in. |
| BkConq.AffinityRouting | ConcurrentQueues/inc/bk_conq/multilist_vector_queue.hpp:107-122 | Two producers on two subqueues are assigned 0 and 1 in order of their first enqueue. A producer's later enqueue goes to its cached subqueue, and the counter ends at 2. |

## Left out

- Atomics and memory ordering: every load, store, exchange and
  compare-and-swap is a plain sequential read or write. Acquire/release
  publication and lock-freedom are not modelled.
- The compare-and-swap retry loop of freeListTryDequeue
  (MPMCQueue/inc/CONQ/MPMCQueue.hpp:105-106) is an `if`, because its first
  compare-and-swap cannot lose in a sequential run.
- Conq.MPMCQueue.ScDequeue and Conq.MPMCQueue.McDequeue require
  `tail != Null`. In a sequential run nobody else holds the claim: scDequeue
  would dereference null, and the yield-spin of mcDequeue
  (MPMCQueue/inc/CONQ/MPMCQueue.hpp:62-64) would never end. Only the claimed
  state itself is modelled; McDequeueLight handles it.
- Conq.MPMCQueue.McDequeueLight models contention only as a claimed `_tail`
  found on entry. Real interleavings between the light and the blocking
  passes of mc_dequeue are not modelled, so the blocking pass is proved
  unable to hit.
- Heap allocation and `delete`: allocation appends a node to the arena.
  Conq.MPMCQueue.Destroy returns the released node indices in release order
  instead of freeing them.
- `std::move` of a node's data into the output leaves a moved-from value in
  C++. The model leaves the node's data unchanged; it is no longer pending
  either way.
- The default-constructed `T` of the sentinel nodes and of the destructor's
  output variable is a parameter, `blank` or `output`.
- Cache-line padding (`padding[64]`, `padded_list_queue`) has no effect on
  behaviour.
- The private copy operations of MPMCQueue
  (MPMCQueue/inc/CONQ/MPMCQueue.hpp:128-129) and the deleted copy operations
  of multilist_vector_queue do nothing and are not modelled.
- `thread_local static` storage becomes explicit context objects. In C++,
  sc_dequeue and mc_dequeue keep separate hit lists, which the model keeps by
  passing a separate ConsumerContext to each. In C++ these statics are also
  shared by every queue instance with the same `T`. A thread that used a
  queue with more subqueues first can carry a cached index or a hit list that
  does not fit a smaller queue, and the C++ then indexes `_q` out of bounds
  (ConcurrentQueues/inc/bk_conq/multilist_vector_queue.hpp:65-67, 109-110).
  The model passes one context per caller and queue, and requires it to fit
  that queue (a hit list of length N, a cached index below N), so it does not
  capture that sharing.
- The consumer hit list is built when its context is constructed rather than
  on the first call, which has the same effect.
- The `const T&` and `T&&` overloads of sp_enqueue and mp_enqueue are folded
  into one method per forwarder. In C++ they instantiate different
  `sp_enqueue_forward<U>` and `mp_enqueue_forward<U>`, each with its own
  `thread_local` cached index, so one thread that uses both overloads can be
  routed to two subqueues and draws the counter twice. The model gives each
  forwarder one ProducerContext; a caller that wants the C++ behaviour passes
  a separate context per overload.
- `list_queue` and `unbounded_queue` are not part of this model. Each
  subqueue is an abstract FIFO whose dequeue variants (sc_dequeue,
  mc_dequeue_light, mc_dequeue) coincide in a sequential run.
- BkConq.MultilistVectorQueue.AssignedIndex requires N > 0: with no
  subqueues the C++ `% _q.size()` divides by zero.
- The benchmark harness under the test directory makes no behavioural
  assertions and is not modelled.
